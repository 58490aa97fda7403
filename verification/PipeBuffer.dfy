/** The circular buffer of src/fs/pipe.c: the two-piece copies out of it and into it. */
module PipeBuffer {
  import opened Basics

  const BUFLEN := 4096

  /** The place of the `i`-th byte of a queue that starts at `begin`: counted modulo the buffer length. */
  function Slot(begin: nat, i: nat): (r: nat)
    requires begin < BUFLEN && i <= BUFLEN
    ensures r == (begin + i) % BUFLEN
  {
    if begin + i < BUFLEN then begin + i else begin + i - BUFLEN
  }

  ghost function Queue(b: seq<byte>, begin: nat, len: nat): (q: seq<byte>)
    requires |b| == BUFLEN && begin < BUFLEN && len <= BUFLEN
    ensures |q| == len
  {
    seq(len, i requires 0 <= i < len => b[Slot(begin, i)])
  }

  /** Bytes taken from the front: two pieces when the queue wraps around the end of the buffer. */
  lemma TakenPieces(b: seq<byte>, begin: nat, len: nat, n: nat)
    requires |b| == BUFLEN && begin < BUFLEN && n <= len <= BUFLEN
    ensures var endlen := Min(begin + n, BUFLEN) - begin;
      0 <= endlen <= n && begin + endlen <= BUFLEN && n - endlen <= BUFLEN
      && Queue(b, begin, len)[..n] == b[begin..begin + endlen] + b[..n - endlen]
      && Queue(b, Slot(begin, n), len - n) == Queue(b, begin, len)[n..]
  {
    var q, r := Queue(b, begin, len), Queue(b, Slot(begin, n), len - n);
    forall i | 0 <= i < len - n ensures r[i] == q[n..][i] {
      assert q[n + i] == b[Slot(begin, n + i)];
      assert Slot(begin, n + i) == Slot(Slot(begin, n), i);
    }
  }

  /** Bytes written behind the back, again in two pieces. */
  lemma PutPieces(b: seq<byte>, b': seq<byte>, begin: nat, len: nat, new': seq<byte>)
    requires |b| == |b'| == BUFLEN && begin < BUFLEN && len + |new'| <= BUFLEN
    requires var at := Slot(begin, len); var endlen := Min(at + |new'|, BUFLEN) - at;
      forall i :: 0 <= i < BUFLEN ==>
        b'[i] == if 0 <= i < |new'| - endlen then new'[endlen + i]
                 else if at <= i < at + endlen then new'[i - at] else b[i]
    ensures Queue(b', begin, len + |new'|) == Queue(b, begin, len) + new'
  {
    var n := |new'|;
    var at := Slot(begin, len);
    var endlen := Min(at + n, BUFLEN) - at;
    var q, q' := Queue(b, begin, len), Queue(b', begin, len + n);
    forall i | 0 <= i < len + n ensures q'[i] == (q + new')[i] {
      var s := Slot(begin, i);
      assert q'[i] == b'[s];
    }
  }

  method Memcpy(dst: array<byte>, d: nat, src: array<byte>, s: nat, n: nat)
    requires dst != src && d + n <= dst.Length && s + n <= src.Length
    modifies dst
    ensures forall i :: 0 <= i < dst.Length ==>
      dst[i] == if d <= i < d + n then src[s + (i - d)] else old(dst[i])
  {
    for k := 0 to n
      invariant forall i :: 0 <= i < dst.Length ==>
        dst[i] == if d <= i < d + k then src[s + (i - d)] else old(dst[i])
    {
      dst[d + k] := src[s + k];
    }
  }

  class Buf {
    var begin: nat
    var len: nat
    const buf: array<byte>

    ghost predicate Valid()
      reads this
    {
      buf.Length == BUFLEN && begin < BUFLEN && len <= BUFLEN
    }

    /** The bytes in the pipe, oldest first. */
    ghost function Contents(): (q: seq<byte>)
      requires Valid()
      reads this, buf
      ensures |q| == len
    {
      Queue(buf[..], begin, len)
    }

    /** The buffer part of `pipenew`. */
    constructor ()
      ensures Valid() && fresh(buf) && Contents() == []
    {
      begin, len := 0, 0;
      buf := new byte[BUFLEN](_ => 0);
    }

    /** MSREAD, inside the lock: `n` bytes leave the front of the queue for `dst`. */
    method TakeOut(dst: array<byte>, n: nat)
      requires Valid() && n <= len && n <= dst.Length && dst != buf
      modifies this, dst
      ensures Valid()
      ensures dst[..n] == old(Contents())[..n]
      ensures forall i :: n <= i < dst.Length ==> dst[i] == old(dst[i])
      ensures Contents() == old(Contents())[n..]
    {
      TakenPieces(buf[..], begin, len, n);
      var endlen := Min(begin + n, BUFLEN) - begin;
      Memcpy(dst, 0, buf, begin, endlen);
      Memcpy(dst, endlen, buf, 0, n - endlen);
      assert dst[..n] == buf[begin..begin + endlen] + buf[..n - endlen];
      len := len - n;
      begin := (begin + n) % BUFLEN;
    }

    /** MSWRITE, inside the lock: `n` bytes of `src` from `off` join the back of the queue. */
    method PutIn(src: array<byte>, off: nat, n: nat)
      requires Valid() && n <= BUFLEN - len && off + n <= src.Length && src != buf
      modifies this, buf
      ensures Valid() && Contents() == old(Contents()) + src[off..off + n]
    {
      var at := (begin + len) % BUFLEN;
      assert at == Slot(begin, len);
      var endlen := Min(at + n, BUFLEN) - at;
      ghost var b := buf[..];
      Memcpy(buf, at, src, off, endlen);
      Memcpy(buf, 0, src, off + endlen, n - endlen);
      PutPieces(b, buf[..], begin, len, src[off..off + n]);
      len := len + n;
    }
  }
}
