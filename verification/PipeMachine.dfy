/** One direction of a pipe as src/fs/pipe.c:81-125 runs it: the steps of `PipeProtocol` on the circular buffer of
  `PipeBuffer`, whose counters and pieces are all that the processes look at. */
module PipeMachine {
  import opened Basics
  import opened Semaphores
  import opened PipeProtocol
  import PipeBuffer

  class Machine {
    const b: PipeBuffer.Buf
    var filled: Sem
    var empty: Sem
    var lock: Owner
    var rd: Reader
    var wr: Writer
    var got: seq<byte>          // what the reads have copied out
    ghost var sent: seq<byte>
    ghost var goal: seq<byte>

    /** The machine with the queue that the buffer stands for. */
    ghost function View(): Pipe
      requires b.Valid()
      reads this, b, b.buf
    {
      Pipe(filled, empty, b.Contents(), lock, rd, wr, sent, got, goal)
    }

    ghost predicate Valid()
      reads this, b, b.buf
    {
      b.Valid() && Inv(View())
    }

    constructor ()
      ensures Valid() && View() == Start && fresh(b) && fresh(b.buf)
    {
      b := new PipeBuffer.Buf();
      filled, empty, lock, rd, wr := Init(0), Init(BUFLEN), Free, RIdle, WIdle;
      got, sent, goal := [], [], [];
    }

    /** One step of `MSREAD`. */
    method ReadStep()
      requires Valid() && ReaderCan(View())
      modifies this, b, b.buf
      ensures b.Valid() && (old(rd.RCopy?) ==> old(rd.n) <= |old(View()).q|) && View() == Read(old(View()))
    {
      hide Wait, Signal;
      match rd
      case RWant(len) =>
        rd := if WouldBlock(filled, 1) then RWaiting(len) else RGot(len);
        filled := Wait(filled, READER, 1);
      case RWaiting(len) => rd := RGot(len);
      case RGot(len) => lock, rd := ByReader, RLocked(Min(len, b.len));
      case RLocked(n) =>
        rd := if WouldBlock(filled, n - 1) then RHolding(n) else RCopy(n);
        filled := Wait(filled, READER, n - 1);
      case RHolding(n) => rd := RCopy(n);
      case RCopy(n) =>
        var dst := new byte[n];
        b.TakeOut(dst, n);
        got, lock, rd := got + dst[..n], Free, RSignal(n);
      case RSignal(n) => empty, rd := Signal(empty, n), RIdle;
    }

    /** One step of `MSWRITE`. */
    method WriteStep()
      requires Valid() && WriterCan(View())
      modifies this, b, b.buf
      ensures b.Valid() && (old(wr.WCopy? || wr.WSignal?) ==> old(wr.n) <= |old(wr.data)|)
      ensures View() == Write(old(View()))
    {
      hide Wait, Signal;
      match wr
      case WLoop(data, clen) =>
        if |data| + clen == 0 {
          wr := WIdle;
        } else {
          wr := if WouldBlock(empty, 1) then WWaiting(data) else WGot(data);
          empty := Wait(empty, WRITER, 1);
        }
      case WWaiting(data) => wr := WGot(data);
      case WGot(data) => lock, wr := ByWriter, WLocked(data, Min(|data|, BUFLEN - b.len));
      case WLocked(data, n) =>
        wr := if WouldBlock(empty, n - 1) then WHolding(data, n) else WCopy(data, n);
        empty := Wait(empty, WRITER, n - 1);
      case WHolding(data, n) => wr := WCopy(data, n);
      case WCopy(data, n) =>
        var src := new byte[|data|](i requires 0 <= i < |data| => data[i]);
        assert src[0..n] == data[..n];
        b.PutIn(src, 0, n);
        sent, lock, wr := sent + data[..n], Free, WSignal(data, n);
      case WSignal(data, n) => filled, wr := Signal(filled, n), WLoop(data[n..], n);
    }

    method Do(a: Action)
      requires Valid() && Enabled(View(), a)
      modifies this, b, b.buf
      ensures Valid() && Inv(old(View())) && View() == PipeProtocol.Do(old(View()), a)
    {
      hide Inv, Read, Write;
      DoKeepsInv(View(), a);
      match a
      case CallRead(len) => rd := RWant(len);
      case CallWrite(data) => wr, goal := WLoop(data, 0), sent + data;
      case ReaderStep => ReadStep();
      case WriterStep => WriteStep();
    }

    /** Any interleaving of one reader and one writer: what was read, then what the circular buffer holds, is what was
        written, and every state on the way is one of `PipeProtocol`. */
    method Run(as': seq<Action>)
      requires Valid() && Runs(View(), as')
      modifies this, b, b.buf
      ensures Valid() && Inv(old(View())) && View() == End(old(View()), as')
      ensures got + PipeBuffer.Queue(b.buf[..], b.begin, b.len) == sent
    {
      hide Inv, Enabled;
      ghost var s := View();
      var i := 0;
      while i < |as'|
        invariant 0 <= i <= |as'| && Valid() && Runs(View(), as'[i..]) && Runs(s, as')
        invariant End(View(), as'[i..]) == End(s, as')
      {
        assert as'[i..][1..] == as'[i + 1..];
        Do(as'[i]);
        i := i + 1;
      }
      Holds(View());
    }

    lemma Holds(s: Pipe)
      requires Inv(s)
      ensures s.got + s.q == s.sent
    {
    }
  }
}
