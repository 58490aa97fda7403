/** One direction of a pipe (src/fs/pipe.c:81-125) as interleaved steps of one reader and one writer.

  `filled` and `empty` are counting semaphores, `lock` the spinlock around the buffer; the buffer is the
  queue that `PipeBuffer` proves it to be.  A process can be preempted between any two steps, in
  particular between leaving the lock and signalling, and it can block inside the lock. */
module PipeProtocol {
  import opened Basics
  import opened Semaphores
  import PipeBuffer

  const BUFLEN := PipeBuffer.BUFLEN
  const READER := 0
  const WRITER := 1

  datatype Reader =
    | RIdle
    | RWant(len: nat)      // about to wait for the first byte
    | RWaiting(len: nat)   // in that wait
    | RGot(len: nat)       // owns one unit, wants the lock
    | RLocked(n: nat)      // in the lock, about to wait for the other n - 1 bytes
    | RHolding(n: nat)     // in that wait, lock held
    | RCopy(n: nat)        // owns n units
    | RSignal(n: nat)      // out of the lock, about to signal n empty places

  datatype Writer =
    | WIdle
    | WLoop(data: seq<byte>, clen: nat)  // at the loop test; clen bytes went out in the last round
    | WWaiting(data: seq<byte>)
    | WGot(data: seq<byte>)
    | WLocked(data: seq<byte>, n: nat)
    | WHolding(data: seq<byte>, n: nat)
    | WCopy(data: seq<byte>, n: nat)
    | WSignal(data: seq<byte>, n: nat)

  datatype Owner = Free | ByReader | ByWriter

  /** `sent` and `got` are the whole history of bytes written and read; `goal` is what `sent` will be
      when the current write returns. */
  datatype Pipe = Pipe(filled: Sem, empty: Sem, q: seq<byte>, lock: Owner, rd: Reader, wr: Writer,
                       sent: seq<byte>, got: seq<byte>, goal: seq<byte>)

  /** The semaphore part of `pipenew`. */
  const Start := Pipe(Init(0), Init(BUFLEN), [], Free, RIdle, WIdle, [], [], [])

  datatype Action = CallRead(len: nat) | CallWrite(data: seq<byte>) | ReaderStep | WriterStep

  predicate ReaderCan(s: Pipe) {
    match s.rd
    case RIdle => false
    case RWaiting(_) => s.filled.waiters == []
    case RHolding(_) => s.filled.waiters == []
    case RGot(_) => s.lock == Free
    case _ => true
  }

  predicate WriterCan(s: Pipe) {
    match s.wr
    case WIdle => false
    case WWaiting(_) => s.empty.waiters == []
    case WHolding(_, _) => s.empty.waiters == []
    case WGot(_) => s.lock == Free
    case _ => true
  }

  predicate Enabled(s: Pipe, a: Action) {
    match a
    case CallRead(_) => s.rd.RIdle?
    case CallWrite(_) => s.wr.WIdle?
    case ReaderStep => ReaderCan(s)
    case WriterStep => WriterCan(s)
  }

  function Read(s: Pipe): Pipe
    requires ReaderCan(s) && (s.rd.RCopy? ==> s.rd.n <= |s.q|)
  {
    match s.rd
    case RWant(len) =>
      s.(filled := Wait(s.filled, READER, 1), rd := if WouldBlock(s.filled, 1) then RWaiting(len) else RGot(len))
    case RWaiting(len) => s.(rd := RGot(len))
    case RGot(len) => s.(lock := ByReader, rd := RLocked(Min(len, |s.q|)))
    case RLocked(n) =>
      s.(filled := Wait(s.filled, READER, n - 1), rd := if WouldBlock(s.filled, n - 1) then RHolding(n) else RCopy(n))
    case RHolding(n) => s.(rd := RCopy(n))
    case RCopy(n) => s.(got := s.got + s.q[..n], q := s.q[n..], lock := Free, rd := RSignal(n))
    case RSignal(n) => s.(empty := Signal(s.empty, n), rd := RIdle)
  }

  function Write(s: Pipe): Pipe
    requires WriterCan(s) && (s.wr.WCopy? || s.wr.WSignal? ==> s.wr.n <= |s.wr.data|)
  {
    match s.wr
    case WLoop(data, clen) =>
      if |data| + clen == 0 then s.(wr := WIdle)
      else s.(empty := Wait(s.empty, WRITER, 1), wr := if WouldBlock(s.empty, 1) then WWaiting(data) else WGot(data))
    case WWaiting(data) => s.(wr := WGot(data))
    case WGot(data) => s.(lock := ByWriter,
      wr := WLocked(data, Min(|data|, if |s.q| <= BUFLEN then BUFLEN - |s.q| else 0)))
    case WLocked(data, n) =>
      s.(empty := Wait(s.empty, WRITER, n - 1),
         wr := if WouldBlock(s.empty, n - 1) then WHolding(data, n) else WCopy(data, n))
    case WHolding(data, n) => s.(wr := WCopy(data, n))
    case WCopy(data, n) => s.(sent := s.sent + data[..n], q := s.q + data[..n], lock := Free, wr := WSignal(data, n))
    case WSignal(data, n) => s.(filled := Signal(s.filled, n), wr := WLoop(data[n..], n))
  }

  ghost function Do(s: Pipe, a: Action): Pipe
    requires Inv(s) && Enabled(s, a)
  {
    match a
    case CallRead(len) => s.(rd := RWant(len))
    case CallWrite(data) => s.(wr := WLoop(data, 0), goal := s.sent + data)
    case ReaderStep => Read(s)
    case WriterStep => Write(s)
  }

  // ------------------------------------------------------------ the invariant

  /** Units of `filled` the reader has taken, or is waiting for, and not yet turned into a shorter queue. */
  function ReaderHeld(r: Reader): int {
    match r
    case RWaiting(_) => 1
    case RGot(_) => 1
    case RLocked(_) => 1
    case RHolding(n) => n
    case RCopy(n) => n
    case _ => 0
  }

  /** Empty places the reader made and has not signalled yet. */
  function ReaderOwes(r: Reader): int {
    if r.RSignal? then r.n else 0
  }

  function WriterHeld(w: Writer): int {
    match w
    case WWaiting(_) => 1
    case WGot(_) => 1
    case WLocked(_, _) => 1
    case WHolding(_, n) => n
    case WCopy(_, n) => n
    case _ => 0
  }

  function WriterOwes(w: Writer): int {
    if w.WSignal? then w.n else 0
  }

  predicate ReaderInside(r: Reader) {
    r.RLocked? || r.RHolding? || r.RCopy?
  }

  predicate WriterInside(w: Writer) {
    w.WLocked? || w.WHolding? || w.WCopy?
  }

  /** The bytes of the current write that are not in the pipe yet. */
  function Unsent(w: Writer): seq<byte> {
    if w.WIdle? then [] else if w.WSignal? && w.n <= |w.data| then w.data[w.n..] else w.data
  }

  /** Units are conserved: what the semaphores count, plus what the processes hold or owe, is the
      length of the queue and its complement. */
  ghost predicate Conserved(s: Pipe) {
    && s.filled.sem + ReaderHeld(s.rd) + WriterOwes(s.wr) == |s.q|
    && s.empty.sem + WriterHeld(s.wr) + ReaderOwes(s.rd) == BUFLEN - |s.q|
  }

  /** A process is on a chain exactly while the counter is negative, and then it is in one of its waits. */
  ghost predicate Chains(s: Pipe) {
    && (s.filled.sem >= 0 <==> s.filled.waiters == [])
    && (s.empty.sem >= 0 <==> s.empty.waiters == [])
    && |s.filled.waiters| <= 1 && |s.empty.waiters| <= 1
    && (s.filled.waiters != [] ==> s.rd.RWaiting? || s.rd.RHolding?)
    && (s.empty.waiters != [] ==> s.wr.WWaiting? || s.wr.WHolding?)
    && (s.filled.waiters != [] && s.rd.RWaiting? ==> s.filled.sem == -1)
    && (s.empty.waiters != [] && s.wr.WWaiting? ==> s.empty.sem == -1)
  }

  ghost predicate Locking(s: Pipe) {
    && (s.lock == ByReader <==> ReaderInside(s.rd))
    && (s.lock == ByWriter <==> WriterInside(s.wr))
    && (ReaderInside(s.rd) ==> s.rd.n <= |s.q|)
    && (WriterInside(s.wr) ==> s.wr.n <= BUFLEN - |s.q| && s.wr.n <= |s.wr.data|)
    && (s.wr.WSignal? ==> s.wr.n <= |s.wr.data|)
  }

  ghost predicate Inv(s: Pipe) {
    && |s.q| <= BUFLEN
    && Conserved(s) && Chains(s) && Locking(s)
    && s.sent == s.got + s.q
    && s.goal == s.sent + Unsent(s.wr)
  }

  lemma StartInv()
    ensures Inv(Start)
  {
  }

  /** A signal to a semaphore with at most one waiter. */
  lemma SignalOne(s: Sem, n: nat)
    requires |s.waiters| <= 1
    ensures Signal(s, n).sem == s.sem + n
    ensures Signal(s, n).waiters == if n > 0 then [] else s.waiters
  {
    if n > 0 && s.waiters != [] {
      assert s.waiters[1..] == [];
      assert Woken(s.waiters, n) == 1;
    }
  }

  lemma ReadWaitKeepsInv(s: Pipe)
    requires Inv(s) && ReaderCan(s) && (s.rd.RWant? || s.rd.RWaiting? || s.rd.RLocked? || s.rd.RHolding?)
    ensures Inv(Read(s))
  {
  }

  lemma ReadMoveKeepsInv(s: Pipe)
    requires Inv(s) && ReaderCan(s) && (s.rd.RGot? || s.rd.RCopy?)
    ensures Inv(Read(s))
  {
    if s.rd.RCopy? {
      assert s.q == s.q[..s.rd.n] + s.q[s.rd.n..];
    }
  }

  lemma ReadKeepsInv(s: Pipe)
    requires Inv(s) && ReaderCan(s)
    ensures Inv(Read(s))
  {
    hide Woken, Signal;
    match s.rd
    case RGot(_) => ReadMoveKeepsInv(s);
    case RCopy(_) => ReadMoveKeepsInv(s);
    case RSignal(n) => SignalOne(s.empty, n);
    case _ => ReadWaitKeepsInv(s);
  }

  lemma WriteWaitKeepsInv(s: Pipe)
    requires Inv(s) && WriterCan(s) && (s.wr.WLoop? || s.wr.WWaiting? || s.wr.WLocked? || s.wr.WHolding?)
    ensures Inv(Write(s))
  {
  }

  lemma WriteMoveKeepsInv(s: Pipe)
    requires Inv(s) && WriterCan(s) && (s.wr.WGot? || s.wr.WCopy?)
    ensures Inv(Write(s))
  {
    if s.wr.WCopy? {
      assert s.wr.data == s.wr.data[..s.wr.n] + s.wr.data[s.wr.n..];
    }
  }

  lemma WriteKeepsInv(s: Pipe)
    requires Inv(s) && WriterCan(s)
    ensures Inv(Write(s))
  {
    hide Woken, Signal;
    match s.wr
    case WGot(_) => WriteMoveKeepsInv(s);
    case WCopy(_, _) => WriteMoveKeepsInv(s);
    case WSignal(_, n) => SignalOne(s.filled, n);
    case _ => WriteWaitKeepsInv(s);
  }

  lemma DoKeepsInv(s: Pipe, a: Action)
    requires Inv(s) && Enabled(s, a)
    ensures Inv(Do(s, a))
  {
    match a
    case CallRead(_) =>
    case CallWrite(_) =>
    case ReaderStep => ReadKeepsInv(s);
    case WriterStep => WriteKeepsInv(s);
  }

  // ------------------------------------------------------------ runs

  ghost predicate Runs(s: Pipe, as': seq<Action>)
    requires Inv(s)
    decreases |as'|
  {
    as' == [] || (Enabled(s, as'[0]) && (DoKeepsInv(s, as'[0]); Runs(Do(s, as'[0]), as'[1..])))
  }

  ghost function End(s: Pipe, as': seq<Action>): Pipe
    requires Inv(s) && Runs(s, as')
    decreases |as'|
  {
    if as' == [] then s else (DoKeepsInv(s, as'[0]); End(Do(s, as'[0]), as'[1..]))
  }

  /** In every interleaving: the bytes read so far, then the bytes in the buffer, are the bytes written
      so far; the buffer never overflows; and units are conserved. */
  lemma {:induction false} PipeIsFifo(as': seq<Action>, s: Pipe)
    requires Inv(s) && Runs(s, as')
    ensures var t := End(s, as'); Inv(t) && t.got + t.q == t.sent && |t.q| <= BUFLEN && Conserved(t)
    decreases |as'|
  {
    if as' != [] {
      DoKeepsInv(s, as'[0]);
      PipeIsFifo(as'[1..], Do(s, as'[0]));
    }
  }

  /** Although a signal wakes whoever waits without looking at the amount, whoever is woken finds the
      counter back at zero or above: the debt is always covered. */
  lemma WakesAreCovered(s: Pipe)
    requires Inv(s)
    ensures s.wr.WSignal? && s.filled.waiters != [] && s.wr.n > 0 ==>
      Write(s).filled.waiters == [] && Write(s).filled.sem >= 0
    ensures s.rd.RSignal? && s.empty.waiters != [] && s.rd.n > 0 ==>
      Read(s).empty.waiters == [] && Read(s).empty.sem >= 0
  {
    if s.wr.WSignal? { WriteKeepsInv(s); }
    if s.rd.RSignal? { ReadKeepsInv(s); }
  }

  /** A read moves all it may: as much as was asked for or all that is there, so at least one byte unless none was
      asked for; and a round of a write moves all that is left or fills the buffer. */
  lemma TransferSizes(s: Pipe)
    requires Inv(s)
    ensures s.rd.RGot? && ReaderCan(s) ==>
              && Read(s).rd.RLocked?
              && var n := Read(s).rd.n;
                 && n <= s.rd.len && n <= |s.q| && (n == s.rd.len || n == |s.q|) && (n == 0 <==> s.rd.len == 0)
    ensures s.wr.WGot? && WriterCan(s) ==>
              && Write(s).wr.WLocked?
              && var n := Write(s).wr.n;
                 && n <= |s.wr.data| && n <= BUFLEN - |s.q| && (n == |s.wr.data| || n == BUFLEN - |s.q|)
                 && (n == 0 <==> s.wr.data == [])
  {
  }

  /** A read waits iff no byte is there that the writer has signalled, however little was asked for, nothing included;
      a round of a write iff no empty place is there that the reader has signalled. */
  lemma WaitsIff(s: Pipe)
    requires Inv(s)
    ensures s.rd.RWant? ==>
              Read(s).rd == if |s.q| == WriterOwes(s.wr) then RWaiting(s.rd.len) else RGot(s.rd.len)
    ensures s.wr.WLoop? && |s.wr.data| + s.wr.clen > 0 ==>
              Write(s).wr == if |s.q| + ReaderOwes(s.rd) == BUFLEN then WWaiting(s.wr.data) else WGot(s.wr.data)
  {
  }

  /** Inside the lock only the own side moves: the size stays what it was at the lock, and the copy moves exactly that
      many bytes off the front of the queue as it was then. */
  lemma ReadInside(s: Pipe, a: Action)
    requires Inv(s) && Enabled(s, a) && ReaderInside(s.rd)
    ensures var t := Do(s, a);
            || (ReaderInside(t.rd) && t.rd.n == s.rd.n && t.q == s.q && t.got == s.got)
            || (a == ReaderStep && s.rd.RCopy? && t.rd == RSignal(s.rd.n) && s.rd.n <= |s.q|
                && t.got == s.got + s.q[..s.rd.n] && t.q == s.q[s.rd.n..])
  {
  }

  lemma WriteInside(s: Pipe, a: Action)
    requires Inv(s) && Enabled(s, a) && WriterInside(s.wr)
    ensures var t := Do(s, a);
            || (WriterInside(t.wr) && t.wr.n == s.wr.n && t.wr.data == s.wr.data && t.q == s.q && t.sent == s.sent)
            || (a == WriterStep && s.wr.WCopy? && t.wr == WSignal(s.wr.data, s.wr.n) && s.wr.n <= |s.wr.data|
                && t.sent == s.sent + s.wr.data[..s.wr.n] && t.q == s.q + s.wr.data[..s.wr.n])
  {
  }

  /** In every interleaving, from the moment the reader has the lock: either it is still inside, with nothing moved, or
      there was a point at which what it had read grew by exactly the front of the queue that it found. */
  lemma {:induction false} ReadMoves(s: Pipe, as': seq<Action>)
    requires Inv(s) && Runs(s, as') && ReaderInside(s.rd)
    ensures var t := End(s, as');
            || (ReaderInside(t.rd) && t.rd.n == s.rd.n && t.q == s.q && t.got == s.got)
            || exists i :: 0 <= i <= |as'| && ReadDone(s, as', i)
    decreases |as'|
  {
    hide Inv, Enabled, Do;
    if as' != [] {
      DoKeepsInv(s, as'[0]);
      ReadInside(s, as'[0]);
      var t := Do(s, as'[0]);
      if ReaderInside(t.rd) {
        ReadMoves(t, as'[1..]);
        if i :| 0 <= i <= |as'[1..]| && ReadDone(t, as'[1..], i) {
          RunsPrefix(s, as', i);
          assert ReadDone(s, as', i + 1);
        }
      } else {
        assert as'[1..][..0] == [];
        RunsPrefix(s, as', 0);
        assert ReadDone(s, as', 1);
      }
    }
  }

  lemma RunsPrefix(s: Pipe, as': seq<Action>, i: nat)
    requires Inv(s) && as' != [] && Enabled(s, as'[0]) && i < |as'|
    ensures Inv(Do(s, as'[0]))
    ensures Runs(Do(s, as'[0]), as'[1..][..i]) ==>
              Runs(s, as'[..i + 1]) && End(s, as'[..i + 1]) == End(Do(s, as'[0]), as'[1..][..i])
  {
    hide Inv, Enabled, Do;
    DoKeepsInv(s, as'[0]);
    assert as'[..i + 1][1..] == as'[1..][..i];
  }

  /** After `i` steps the read has just been done. */
  ghost predicate ReadDone(s: Pipe, as': seq<Action>, i: nat)
    requires Inv(s) && ReaderInside(s.rd) && i <= |as'|
  {
    && Runs(s, as'[..i]) && s.rd.n <= |s.q|
    && var t := End(s, as'[..i]);
       t.rd == RSignal(s.rd.n) && t.got == s.got + s.q[..s.rd.n] && t.q == s.q[s.rd.n..]
  }

  /** Nobody blocks inside the lock for good, and reader and writer are never both stuck: the pipe stands
      still only when each side is idle, or waits for its first unit while the other side is idle and the
      buffer is empty (for the reader) or full (for the writer). */
  lemma StandsStill(s: Pipe)
    requires Inv(s)
    ensures !ReaderCan(s) && !WriterCan(s) <==>
      || (s.rd.RIdle? && s.wr.WIdle?)
      || (s.rd.RWaiting? && s.q == [] && s.wr.WIdle?)
      || (s.rd.RIdle? && s.wr.WWaiting? && |s.q| == BUFLEN)
  {
  }

  /** When a write returns, everything it was given is in the pipe, behind everything written before. */
  lemma WriteDelivers(s: Pipe)
    requires Inv(s) && WriterCan(s) && Write(s).wr.WIdle?
    ensures s.sent == s.goal && s.wr.WLoop? && s.wr.clen == 0
  {
  }

  /** The loop test looks at the old length, so a write that has delivered everything still waits for one
      empty place: one that fills the buffer does not return before the reader takes something. */
  lemma FullWriteWaits(s: Pipe)
    requires Inv(s) && s.wr.WLoop? && s.wr.data == [] && s.wr.clen > 0
    ensures s.sent == s.goal
    ensures Write(s).wr.WWaiting? <==> BUFLEN - |s.q| - ReaderOwes(s.rd) < 1
  {
  }
}
