/** The server side of src/fs/mnt.c:83-177: the chain of delivered messages, the resumable read of the
  current one, and the write that answers one of them.  The rendezvous around them is MountProtocol, of whose steps
  these two are. */
module MountServer {
  import opened Basics
  import opened Wire
  import Protocol = MountProtocol

  const EINVAL := 7

  class Msg {
    var next: Msg?
    const req: Req
    var ret: int

    constructor (r: Req)
      ensures req == r && next == null && ret == 0
    {
      req, next, ret := r, null, 0;
    }
  }

  ghost predicate Links(q: seq<Msg>, i: int)
    requires 0 <= i < |q|
    reads q[i]
  {
    q[i].next == if i + 1 < |q| then q[i + 1] else null
  }

  /** The first message that belongs to `fid`, or the length of the chain. */
  ghost function FirstOf(q: seq<Msg>, fid: int): (k: nat)
    ensures k <= |q| && (k < |q| ==> q[k].req.fid == fid)
    ensures forall i :: 0 <= i < k ==> q[i].req.fid != fid
  {
    if q == [] || q[0].req.fid == fid then 0 else
    var k := FirstOf(q[1..], fid);
    assert forall i :: 1 <= i < k + 1 ==> q[i] == q[1..][i - 1];
    k + 1
  }

  lemma FirstIs(q: seq<Msg>, fid: int, k: nat)
    requires k <= |q| && (k < |q| ==> q[k].req.fid == fid)
    requires forall i :: 0 <= i < k ==> q[i].req.fid != fid
    ensures FirstOf(q, fid) == k
  {
  }

  class Server {
    var read: nat
    var msg: Msg?
    var msgs: Msg?
    ghost var queue: seq<Msg>

    constructor ()
      ensures Valid() && queue == [] && read == 0 && msg == null
    {
      read, msg, msgs, queue := 0, null, null, [];
    }

    ghost predicate Valid()
      reads this, queue
    {
      && msgs == (if queue == [] then null else queue[0])
      && (forall i :: 0 <= i < |queue| ==> Links(queue, i))
      && (forall i, j :: 0 <= i < j < |queue| ==> queue[i] != queue[j])
    }

    /** One field of the read; `pos` is its offset in the message. */
    method Emit(b: seq<byte>, need: nat, pos: nat, left: int, out: seq<byte>)
      returns (pos': nat, left': int, out': seq<byte>)
      modifies this`read
      ensures Cursor(read, left', pos', out') == Field(Cursor(old(read), left, pos, out), b, need)
    {
      left', out' := left, out;
      if read == pos && left >= need {
        out' := out + b;
        left' := (left - |b|) % W32;
        read := read + |b|;
      }
      pos' := pos + |b|;
    }

    /** The fields of the current message, each if it is its turn and there is room. */
    method EncodePiece(len: nat) returns (out: seq<byte>, pos: nat)
      requires msg != null
      modifies this`read
      ensures pos == |Frame(msg.req)| && read == Encode(msg.req, old(read), len).read
      ensures out == Encode(msg.req, old(read), len).out
    {
      hide Put32, Put64, Frame, Field, Bit;
      var m := msg.req;
      var left := len;
      pos, out := 0, [];
      pos, left, out := Emit(Put32(m.fn), 4, pos, left, out);
      pos, left, out := Emit(Put32(m.fid), 4, pos, left, out);
      pos, left, out := Emit(Put32(m.submsg), 1, pos, left, out);
      if WantsPtr(m.fn) {
        pos, left, out := Emit(Put32(m.len), 4, pos, left, out);
        pos, left, out := Emit(Put32(m.buf), 4, pos, left, out);
      }
      if WantsPtr2(m.fn) {
        pos, left, out := Emit(Put32(m.len2), 4, pos, left, out);
        pos, left, out := Emit(Put32(m.buf2), 4, pos, left, out);
      }
      if WantsOff(m.fn) {
        pos, left, out := Emit(Put64(m.off), 8, pos, left, out);
      }
      EncodeEnds(m, old(read), len);
    }

    /** `MSREAD` once a message is there: the next piece goes out, and with its last field the message joins
        the chain and the slot is ready for another.  The piece is empty iff the next field does not fit; it leaves
        the buffer iff the read overruns.  The result counts from the start of the message, so it is the length
        of the piece for a first piece only. */
    method Read(len: nat) returns (r: int, out: seq<byte>)
      requires Valid() && msg != null && msg !in queue && len < W32 && Boundary(msg.req, read)
      modifies this`read, this`msgs, this`queue, msg`next
      ensures Valid() && msg == old(msg)
      ensures old(read) + |out| <= |Frame(msg.req)| && out == Frame(msg.req)[old(read)..old(read) + |out|]
      ensures out != [] <==> len >= Need(msg.req, old(read))
      ensures |out| <= len <==> !Overruns(old(read), len)
      ensures old(read) + |out| == |Frame(msg.req)| <==>
                |Frame(msg.req)| - old(read) <= len || Overruns(old(read), len)
      ensures if old(read) + |out| == |Frame(msg.req)| then read == 0 && queue == [msg] + old(queue)
              else read == old(read) + |out| && Boundary(msg.req, read) && queue == old(queue)
      ensures r == (if old(read) + |out| == 0 then |Frame(msg.req)| else old(read) + |out|)
      ensures r == |out| <==> old(read) == 0 && len >= 4
      ensures out == Encode(msg.req, old(read), len).out
    {
      hide Encode, Frame, Links;
      Delivers(msg.req, read, len);
      StaysInsideIff(msg.req, read, len);
      FirstNeeds(msg.req);
      var pos;
      out, pos := EncodePiece(len);
      if read == pos {
        Push();
      }
      r := if read != 0 then read else pos;
    }

    method Push()
      requires Valid() && msg != null && msg !in queue
      modifies this`read, this`msgs, this`queue, msg`next
      ensures Valid() && read == 0 && queue == [msg] + old(queue)
    {
      read := 0;
      msg.next := msgs;
      msgs := msg;
      queue := [msg] + queue;
      forall i | 0 <= i < |queue| ensures Links(queue, i) {
        if i > 0 {
          assert queue[i] == old(queue)[i - 1];
          assert old(Links(queue, i - 1));
        }
      }
    }

    /** `MSWRITE`: the reply is matched by fid with the first message that waits for it, which leaves the
        chain with the reply's result; anything else changes nothing. */
    method Write(buf: seq<byte>) returns (r: int, m: Msg?)
      requires Valid()
      modifies this`msgs, this`queue, queue
      ensures Valid()
      ensures |buf| != 12 ==> r == -EINVAL && m == null
      ensures |buf| == 12 ==> var k := FirstOf(old(queue), Signed(Get32(buf), W32));
              if k == |old(queue)| then r == -EINVAL && m == null
              else r == 12 && m == old(queue)[k] && m.ret == Signed(Get64(buf[4..]), W64)
                   && queue == old(queue)[..k] + old(queue)[k + 1..]
      ensures m == null ==> queue == old(queue)
      ensures forall x :: x in old(queue) && x != m ==> x.ret == old(x.ret)
    {
      if |buf| != 12 {
        return -EINVAL, null;
      }
      var fid := Signed(Get32(buf), W32);
      var prev: Msg? := null;
      m := msgs;
      ghost var i := 0;
      while m != null && m.req.fid != fid
        invariant 0 <= i <= |queue|
        invariant m == if i < |queue| then queue[i] else null
        invariant prev == if i > 0 then queue[i - 1] else null
        invariant forall j :: 0 <= j < i ==> queue[j].req.fid != fid
        decreases |queue| - i
      {
        assert Links(queue, i);
        prev, m, i := m, m.next, i + 1;
      }
      FirstIs(queue, fid, i);
      if m == null {
        return -EINVAL, null;
      }
      Unlink(prev, m, i);
      m.ret := Signed(Get64(buf[4..]), W64);
      r := 12;
    }

    /** The chain, the place of the next field, and the message under way, are the protocol's. */
    ghost predicate Shows(s: Protocol.Sys)
      reads this
    {
      && Fids(queue) == s.queue && read == s.read
      && (s.slot.Delivering? ==>
            msg != null && s.msg in s.cl && !s.cl[s.msg].CIdle? && msg.req == Protocol.ReqOf(s.cl[s.msg]))
    }

    /** A read of the message under way is the protocol's step, and what it delivers is what goes into its history. */
    method DeliverStep(ghost s: Protocol.Sys, len: nat) returns (r: int, out: seq<byte>)
      requires Valid() && msg != null && Protocol.Inv(s) && Shows(s) && s.sv == Protocol.SEncode(len)
      modifies this`read, this`msgs, this`queue, msg`next
      ensures Valid() && Protocol.ServerCan(s) && Shows(Protocol.ServerMove(s))
      ensures var t := Protocol.ServerMove(s);
              if queue != old(queue) then t.log == s.log + [Protocol.Delivered(s.part + out)]
              else t.log == s.log && t.part == s.part + out
    {
      hide Encode, Frame, Boundary, Links;
      var c := s.slot.c;
      assert Protocol.ClientOk(s, c);
      assert msg !in queue by {
        assert s.msg !in s.queue;
      }
      Delivers(msg.req, read, len);
      r, out := Read(len);
    }

    /** A write of the server process is the protocol's step: the same client is answered, with the same result. */
    method ReplyStep(ghost s: Protocol.Sys, buf: seq<byte>) returns (r: int, m: Msg?)
      requires Valid() && Protocol.Inv(s) && Shows(s) && s.sv.SIdle?
      modifies this`msgs, this`queue, queue
      ensures Valid() && Shows(Protocol.Reply(s, buf))
      ensures var t := Protocol.Reply(s, buf);
              && (r == 12 <==> t.sv.SDone?) && (m != null <==> t.sv.SDone?)
              && (m != null ==> m.req.fid == t.sv.c && m.req.fid in t.ret && m.ret == t.ret[m.req.fid])
    {
      hide Get32, Get64, Signed, Links, Protocol.Inv, FirstOf, Protocol.Find;
      ghost var q := queue;
      if |buf| == 12 {
        OwnFids(s);
        SameFirst(q, Signed(Get32(buf), W32));
        FidsWithout(q, FirstOf(q, Signed(Get32(buf), W32)));
      }
      r, m := Write(buf);
    }

    method Unlink(prev: Msg?, m: Msg, ghost i: nat)
      requires Valid() && i < |queue| && m == queue[i] && prev == if i > 0 then queue[i - 1] else null
      modifies this`msgs, this`queue, queue
      ensures Valid() && queue == old(queue)[..i] + old(queue)[i + 1..]
      ensures forall x :: x in old(queue) ==> x.ret == old(x.ret)
    {
      ghost var q := queue;
      assert Links(q, i);
      if prev == null {
        msgs := m.next;
      } else {
        prev.next := m.next;
      }
      queue := queue[..i] + queue[i + 1..];
      forall j | 0 <= j < |queue| ensures Links(queue, j) {
        var o := if j < i then j else j + 1;
        assert queue[j] == q[o] && old(Links(q, o));
      }
    }
  }

  // ------------------------------------------------------------ the protocol's own steps

  /** The chain as the protocol sees it. */
  ghost function Fids(q: seq<Msg>): (fids: seq<int>)
    ensures |fids| == |q| && forall i :: 0 <= i < |q| ==> fids[i] == q[i].req.fid
  {
    seq(|q|, i requires 0 <= i < |q| => q[i].req.fid)
  }

  /** Where messages have fids of their own, both searches find the same one. */
  lemma SameFirst(q: seq<Msg>, fid: int)
    requires forall i, j :: 0 <= i < j < |q| ==> Fids(q)[i] != Fids(q)[j]
    ensures FirstOf(q, fid) == Protocol.Find(Fids(q), fid)
  {
    var k, l := FirstOf(q, fid), Protocol.Find(Fids(q), fid);
    if l < |q| {
      assert q[l].req.fid == fid;
    }
    if k < |q| {
      assert Fids(q)[k] == fid;
    }
  }

  lemma OwnFids(s: Protocol.Sys)
    requires Protocol.Inv(s)
    ensures forall i, j :: 0 <= i < j < |s.queue| ==> s.queue[i] != s.queue[j]
  {
  }

  lemma FidsWithout(q: seq<Msg>, k: nat)
    requires k <= |q|
    ensures k < |q| ==> Fids(q[..k] + q[k + 1..]) == Fids(q)[..k] + Fids(q)[k + 1..]
  {
  }

  lemma EncodeEnds(m: Req, read: nat, len: int)
    ensures Encode(m, read, len).pos == |Frame(m)|
  {
    hide Put32, Put64;
  }
}
