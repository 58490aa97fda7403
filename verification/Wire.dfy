/** The wire format of the mount protocol: the little-endian codecs of libcodas/include/codas/bit.h, the
  frame that src/fs/mnt.c:86-155 encodes and libyaxfs/serve.c:8-38 decodes, and the 12-byte reply. */
module Wire {
  import opened Basics

  const W16 := 0x1_0000
  const W32 := 0x1_0000_0000
  const W64 := 0x1_0000_0000_0000_0000

  // ------------------------------------------------------------ words

  function Put8(v: int): seq<byte> {
    [v % 256]
  }

  function Put16(v: int): seq<byte> {
    Put8(v % 256) + Put8(v / 256)
  }

  function Put32(v: int): (b: seq<byte>)
    ensures |b| == 4
  {
    Put16(v % W16) + Put16(v / W16)
  }

  function Put64(v: int): (b: seq<byte>)
    ensures |b| == 8
  {
    Put32(v % W32) + Put32(v / W32)
  }

  function Get16(b: seq<byte>): int
    requires |b| >= 2
  {
    var lo: int, hi: int := b[0], b[1];
    lo + hi * 256
  }

  function Get32(b: seq<byte>): int
    requires |b| >= 4
  {
    Get16(b) + Get16(b[2..]) * W16
  }

  function Get64(b: seq<byte>): int
    requires |b| >= 8
  {
    Get32(b) + Get32(b[4..]) * W32
  }

  /** A word read back as a two's complement number. */
  function Signed(w: int, width: int): int {
    if w < width / 2 then w else w - width
  }

  predicate Int32(v: int) {
    -0x8000_0000 <= v < 0x8000_0000
  }

  predicate Int64(v: int) {
    -0x8000_0000_0000_0000 <= v < 0x8000_0000_0000_0000
  }

  /** Splitting a number at a word boundary and taking each part modulo its width. */
  lemma SplitMod(v: int, lo: int, hi: int)
    requires lo > 0 && hi > 0
    ensures v % lo + v / lo % hi * lo == v % (lo * hi)
  {
    SplitDiv(v, lo, hi);
    assert hi * lo == lo * hi;
  }

  lemma ModMod(v: int, n: int)
    requires n > 0
    ensures v % n % n == v % n
  {
    DivModIs(v % n, 0, v % n, n);
  }

  lemma Word16(v: int, rest: seq<byte>)
    ensures Get16(Put16(v) + rest) == v % W16
  {
    var b := Put16(v) + rest;
    assert b[0] == v % 256 % 256 && b[1] == v / 256 % 256;
    ModMod(v, 256);
    SplitMod(v, 256, 256);
  }

  /** Whatever follows them, the four bytes give the number back modulo 2^32. */
  lemma Word32(v: int, rest: seq<byte>)
    ensures Get32(Put32(v) + rest) == v % W32
  {
    hide Get16, Put16;
    var b := Put32(v) + rest;
    var hi := Put16(v / W16) + rest;
    assert |Put16(v % W16)| == 2 && |Put16(v / W16)| == 2 by { Two(v % W16); Two(v / W16); }
    assert b == Put16(v % W16) + hi;
    Word16(v % W16, hi);
    assert b[2..] == hi;
    Word16(v / W16, rest);
    ModMod(v, W16);
    SplitMod(v, W16, W16);
  }

  lemma Two(v: int)
    ensures |Put16(v)| == 2
  {
  }

  lemma Word64(v: int, rest: seq<byte>)
    ensures Get64(Put64(v) + rest) == v % W64
  {
    hide Get32, Put32;
    var b := Put64(v) + rest;
    var hi := Put32(v / W32) + rest;
    assert b == Put32(v % W32) + hi;
    Word32(v % W32, hi);
    assert b[4..] == hi;
    Word32(v / W32, rest);
    ModMod(v, W32);
    SplitMod(v, W32, W32);
  }

  /** The `i`-th byte of a number, the least one first. */
  function ByteOf(v: int, i: nat): int
    decreases i
  {
    if i == 0 then v % 256 else ByteOf(v / 256, i - 1)
  }

  function Pow256(k: nat): (p: int)
    ensures p > 0
  {
    if k == 0 then 1 else Pow256(k - 1) * 256
  }

  /** Dropping the upper bytes leaves the lower ones. */
  lemma {:induction false} ByteMod(v: int, k: nat, i: nat)
    requires i < k
    ensures ByteOf(v % Pow256(k), i) == ByteOf(v, i)
    decreases k
  {
    var m := Pow256(k - 1);
    SplitDiv(v, 256, m);
    DivModIs(v % Pow256(k), v / 256 % m, v % 256, 256);
    if i > 0 {
      ByteMod(v / 256, k - 1, i - 1);
    }
  }

  /** And the upper ones are what is left of the number. */
  lemma {:induction false} ByteShift(v: int, k: nat, i: nat)
    ensures ByteOf(v, k + i) == ByteOf(v / Pow256(k), i)
    decreases k
  {
    if k > 0 {
      ByteShift(v / 256, k - 1, i);
      SplitDiv(v, 256, Pow256(k - 1));
    } else {
      assert v / 1 == v;
    }
  }

  lemma Powers()
    ensures Pow256(1) == 256 && Pow256(2) == W16 && Pow256(4) == W32
  {
    assert Pow256(1) == 256 && Pow256(2) == W16 && Pow256(3) == W16 * 256;
  }

  lemma Bytes16(v: int)
    ensures |Put16(v)| == 2 && forall i :: 0 <= i < 2 ==> Put16(v)[i] == ByteOf(v, i)
  {
    ModMod(v, 256);
    assert Put16(v)[0] == v % 256 % 256 && Put16(v)[1] == v / 256 % 256 == ByteOf(v / 256, 0);
  }

  lemma Bytes32(v: int)
    ensures forall i :: 0 <= i < 4 ==> Put32(v)[i] == ByteOf(v, i)
  {
    hide Put16, ByteOf;
    Powers();
    Bytes16(v % W16);
    Bytes16(v / W16);
    forall i | 0 <= i < 4 ensures Put32(v)[i] == ByteOf(v, i) {
      if i < 2 { ByteMod(v, 2, i); } else { ByteShift(v, 2, i - 2); }
    }
  }

  /** Numbers go over the wire with their least byte first. */
  lemma Bytes64(v: int)
    ensures forall i :: 0 <= i < 8 ==> Put64(v)[i] == ByteOf(v, i)
  {
    hide Put32, ByteOf;
    Powers();
    Bytes32(v % W32);
    Bytes32(v / W32);
    forall i | 0 <= i < 8 ensures Put64(v)[i] == ByteOf(v, i) {
      if i < 4 { ByteMod(v, 4, i); } else { ByteShift(v, 4, i - 4); }
    }
  }

  lemma Int32Returns(v: int, rest: seq<byte>)
    requires Int32(v)
    ensures Signed(Get32(Put32(v) + rest), W32) == v
  {
    hide Get32, Put32;
    Word32(v, rest);
  }

  lemma Int64Returns(v: int, rest: seq<byte>)
    requires Int64(v)
    ensures Signed(Get64(Put64(v) + rest), W64) == v
  {
    hide Get64, Put64;
    Word64(v, rest);
  }

  // ------------------------------------------------------------ requests

  datatype Req = Req(fn: int, fid: int, submsg: int, len: int, buf: int, len2: int, buf2: int, off: int)

  predicate Bit(v: int, k: int)
    requires k > 0
  {
    v / k % 2 == 1
  }

  predicate WantsOff(fn: int) {
    Bit(fn, 0x1_0000)
  }

  predicate WantsPtr(fn: int) {
    Bit(fn, 0x2_0000)
  }

  predicate WantsPtr2(fn: int) {
    Bit(fn, 0x8_0000)
  }

  /** The request fits the C types, and fields its function does not use are zero, as `cfn` leaves them. */
  predicate ReqOk(m: Req) {
    && Int32(m.fn) && Int32(m.fid) && Int32(m.submsg) && Int64(m.off)
    && 0 <= m.len < W32 && 0 <= m.buf < W32 && 0 <= m.len2 < W32 && 0 <= m.buf2 < W32
    && (!WantsPtr(m.fn) ==> m.len == 0 && m.buf == 0)
    && (!WantsPtr2(m.fn) ==> m.len2 == 0 && m.buf2 == 0)
    && (!WantsOff(m.fn) ==> m.off == 0)
  }

  function Head(m: Req): (b: seq<byte>)
    ensures |b| == 12
  {
    Put32(m.fn) + Put32(m.fid) + Put32(m.submsg)
  }

  function Ptr(m: Req): (b: seq<byte>)
    ensures |b| == if WantsPtr(m.fn) then 8 else 0
  {
    if WantsPtr(m.fn) then Put32(m.len) + Put32(m.buf) else []
  }

  function Ptr2(m: Req): (b: seq<byte>)
    ensures |b| == if WantsPtr2(m.fn) then 8 else 0
  {
    if WantsPtr2(m.fn) then Put32(m.len2) + Put32(m.buf2) else []
  }

  function Off(m: Req): (b: seq<byte>)
    ensures |b| == if WantsOff(m.fn) then 8 else 0
  {
    if WantsOff(m.fn) then Put64(m.off) else []
  }

  /** The whole message as it goes over the wire. */
  function Frame(m: Req): (b: seq<byte>)
    ensures |b| ==
        12 + (if WantsPtr(m.fn) then 8 else 0) + (if WantsPtr2(m.fn) then 8 else 0) + if WantsOff(m.fn) then 8 else 0
  {
    Head(m) + Ptr(m) + Ptr2(m) + Off(m)
  }

  /** The fields and their places: function, fid and sub-message, then length and buffer for each pointer that the
      function wants, then the offset. */
  lemma FieldsAt(m: Req)
    ensures var f, p := Frame(m), 12 + if WantsPtr(m.fn) then 8 else 0;
            && f[..4] == Put32(m.fn) && f[4..8] == Put32(m.fid) && f[8..12] == Put32(m.submsg)
            && (WantsPtr(m.fn) ==> f[12..16] == Put32(m.len) && f[16..20] == Put32(m.buf))
            && (WantsPtr2(m.fn) ==> f[p..p + 4] == Put32(m.len2) && f[p + 4..p + 8] == Put32(m.buf2))
            && (WantsOff(m.fn) ==> f[|f| - 8..] == Put64(m.off))
  {
    hide Put32, Put64;
  }

  // ------------------------------------------------------------ the decoder

  /** What is left of a buffer that starts with the message, from its third field's end on. */
  ghost function Tail(m: Req, rest: seq<byte>): seq<byte> {
    Ptr(m) + (Ptr2(m) + (Off(m) + rest))
  }

  lemma Split(m: Req, rest: seq<byte>)
    ensures var b := Frame(m) + rest;
            && b == Put32(m.fn) + b[4..] && b[4..] == Put32(m.fid) + b[8..] && b[8..] == Put32(m.submsg) + b[12..]
            && b[12..] == Tail(m, rest)
  {
    hide Put32, Ptr, Ptr2, Off;
    var x, y, z := Put32(m.fn), Put32(m.fid), Put32(m.submsg);
    var p, q, o := Ptr(m), Ptr2(m), Off(m);
    assert Tail(m, rest) == p + (q + (o + rest));
    Regroup(x + y + z + p + q, o, rest);
    Regroup(x + y + z + p, q, o + rest);
    Regroup(x + y + z, p, q + (o + rest));
    Regroup(x + y, z, Tail(m, rest));
    Regroup(x, y, z + Tail(m, rest));
    var b := Frame(m) + rest;
    assert b == x + (y + (z + Tail(m, rest)));
    Dropped(x, y + (z + Tail(m, rest)), []);
    Dropped(y, z + Tail(m, rest), x);
    Dropped(z, Tail(m, rest), x + y);
    Regroup(x, y, z + Tail(m, rest));
    Regroup(x + y, z, Tail(m, rest));
  }

  lemma Dropped(x: seq<byte>, rest: seq<byte>, before: seq<byte>)
    ensures (before + (x + rest))[|before| + |x|..] == rest && (before + (x + rest))[|before|..] == x + rest
    ensures [] + (x + rest) == x + rest
  {
  }

  lemma SplitPair(x: int, y: int, b: seq<byte>, rest: seq<byte>)
    requires b == Put32(x) + Put32(y) + rest
    ensures Get32(b) == x % W32 && Get32(b[4..]) == y % W32 && b[8..] == rest
  {
    hide Get32, Put32;
    assert b == Put32(x) + (Put32(y) + rest);
    Word32(x, Put32(y) + rest);
    assert b[4..] == Put32(y) + rest;
    Word32(y, rest);
  }

  /** `recv`: `buf` is the 28-byte buffer after the read; what lies beyond the message is arbitrary. */
  method Recv(buf: array<byte>, ghost sent: Req) returns (m: Req)
    requires ReqOk(sent) && buf.Length == 28 && Frame(sent) <= buf[..]
    ensures m == sent
  {
    hide Get32, Get64, Put32, Put64, Frame, Signed, WantsPtr, WantsPtr2, WantsOff;
    ghost var rest := buf[|Frame(sent)|..];
    assert buf[..] == Frame(sent) + rest;
    Split(sent, rest);
    Int32Returns(sent.fn, buf[4..]);
    Int32Returns(sent.fid, buf[8..]);
    Int32Returns(sent.submsg, buf[12..]);
    var fn := Signed(Get32(buf[0..]), W32);
    var fid := Signed(Get32(buf[4..]), W32);
    var submsg := Signed(Get32(buf[8..]), W32);
    m := RecvTail(buf, fn, fid, submsg, sent, rest);
  }

  method RecvTail(buf: array<byte>, fn: int, fid: int, submsg: int, ghost sent: Req, ghost rest: seq<byte>)
      returns (m: Req)
    requires ReqOk(sent) && fn == sent.fn && fid == sent.fid && submsg == sent.submsg
    requires buf.Length == 28 && buf[12..] == Tail(sent, rest)
    ensures m == sent
  {
    hide Get32, Get64, Put32, Put64, Frame, Signed, WantsPtr, WantsPtr2, WantsOff;
    var at := 12;
    m := Req(fn, fid, submsg, 0, 0, 0, 0, 0);
    if WantsPtr(fn) {
      SplitPair(sent.len, sent.buf, buf[12..], Ptr2(sent) + (Off(sent) + rest));
      assert buf[12..][4..] == buf[16..] && buf[12..][8..] == buf[20..];
      m := m.(len := Get32(buf[at..]), buf := Get32(buf[at + 4..]));
      at := at + 8;
    }
    assert buf[at..] == Ptr2(sent) + (Off(sent) + rest);
    if WantsPtr2(fn) {
      SplitPair(sent.len2, sent.buf2, buf[at..], Off(sent) + rest);
      assert buf[at..][4..] == buf[at + 4..] && buf[at..][8..] == buf[at + 8..];
      m := m.(len2 := Get32(buf[at..]), buf2 := Get32(buf[at + 4..]));
      at := at + 8;
    }
    assert buf[at..] == Off(sent) + rest;
    if WantsOff(fn) {
      Int64Returns(sent.off, rest);
      m := m.(off := Signed(Get64(buf[at..]), W64));
    }
  }

  // ------------------------------------------------------------ the reply

  /** `answer`: the fid and the result, 12 bytes. */
  function Reply(fid: int, ret: int): (b: seq<byte>)
    ensures |b| == 12
  {
    Put32(fid) + Put64(ret)
  }

  /** The kernel reads back the fid and the 64-bit result that were written, negative ones included. */
  lemma ReplyReturns(fid: int, ret: int)
    requires Int32(fid) && Int64(ret)
    ensures Signed(Get32(Reply(fid, ret)), W32) == fid && Signed(Get64(Reply(fid, ret)[4..]), W64) == ret
  {
    Int32Returns(fid, Put64(ret));
    assert Reply(fid, ret)[4..] == Put64(ret) + [];
    Int64Returns(ret, []);
  }

  // ------------------------------------------------------------ the resumable encoder

  /** The state of one `MSREAD`: bytes of the message delivered so far, room left, offset of the field that
      is being looked at, and what this call has put into the buffer. */
  datatype Cursor = Cursor(read: nat, len: int, pos: nat, out: seq<byte>)

  /** One field: it goes out if it is the next one and the room test passes; the room wraps like a size_t. */
  function Field(c: Cursor, b: seq<byte>, need: nat): Cursor {
    if c.read == c.pos && c.len >= need
    then Cursor(c.read + |b|, (c.len - |b|) % W32, c.pos + |b|, c.out + b)
    else c.(pos := c.pos + |b|)
  }

  function EncodeHead(m: Req, read: nat, len: int): Cursor {
    Field(Field(Field(Cursor(read, len, 0, []), Put32(m.fn), 4), Put32(m.fid), 4), Put32(m.submsg), 1)
  }

  function EncodePair(c: Cursor, wanted: bool, len: int, buf: int): Cursor {
    if wanted then Field(Field(c, Put32(len), 4), Put32(buf), 4) else c
  }

  function EncodeFront(m: Req, read: nat, len: int): Cursor {
    EncodePair(EncodePair(EncodeHead(m, read, len), WantsPtr(m.fn), m.len, m.buf), WantsPtr2(m.fn), m.len2, m.buf2)
  }

  /** `MSREAD` on the current message. */
  function Encode(m: Req, read: nat, len: int): Cursor {
    var c := EncodeFront(m, read, len);
    if WantsOff(m.fn) then Field(c, Put64(m.off), 8) else c
  }

  /** Where a field of the message starts. */
  predicate Boundary(m: Req, read: int) {
    0 <= read < |Frame(m)| && read % 4 == 0 && (WantsOff(m.fn) ==> read <= |Frame(m)| - 8)
  }

  /** What holds once the fields up to `c.pos` have been looked at: nothing went out yet, or the piece
      `f[read..c.read]` did, and a field that was left behind did not fit. */
  ghost predicate Scanned(c: Cursor, f: seq<byte>, read: nat, len: nat) {
    && c.pos == |f| && c.pos % 4 == 0 && c.read % 4 == 0
    && (read >= c.pos ==> c.read == read && c.out == [] && c.len == len)
    && (read < c.pos ==> read <= c.read <= c.pos && c.out == f[read..c.read] && c.len == len - |c.out|)
    && (c.read < c.pos ==> c.len < 8 && c.len < c.pos - c.read)
    && 0 <= c.len < W32
  }

  lemma FieldScans(c: Cursor, f: seq<byte>, b: seq<byte>, need: nat, read: nat, len: nat)
    requires Scanned(c, f, read, len) && read % 4 == 0
    requires |b| == 4 || (|b| == 8 && (read <= c.pos || read >= c.pos + 8))
    requires need <= |b| && (c.read == c.pos && c.len >= need ==> c.len >= |b|)
    ensures Scanned(Field(c, b, need), f + b, read, len)
    ensures c.read == c.pos && c.len >= need ==> Field(c, b, need).read == c.pos + |b|
    ensures c.read != c.pos || c.len < need ==> Field(c, b, need).read == c.read && Field(c, b, need).len == c.len
  {
    var g := f + b;
    if c.read == c.pos && c.len >= need {
      SmallMod(c.len - |b|);
      assert read <= |f|;
      SliceGrows(f, b, read, |f|);
    } else if read < |f| {
      SliceGrows(f, b, read, c.read);
    } else if read < |g| {
      assert g[read..read] == [];
    }
  }

  lemma SliceGrows(f: seq<byte>, b: seq<byte>, i: nat, j: nat)
    requires i <= j <= |f|
    ensures (f + b)[i..j] == f[i..j] && (f + b)[i..|f + b|] == f[i..|f|] + b
  {
  }

  lemma SmallMod(v: int)
    requires 0 <= v < W32
    ensures v % W32 == v
  {
  }

  /** A room test of one byte guards the third field, so a buffer with one to three bytes left there overruns. */
  predicate Overruns(read: nat, len: int) {
    read <= 8 && 1 <= len - (8 - read) <= 3
  }

  /** The room that the call behaves as if it had: past an overrun the count has wrapped, and never runs out. */
  function Room(read: nat, len: nat): nat {
    if Overruns(read, len) then len + W32 else len
  }

  lemma HeadScans(m: Req, read: nat, len: nat)
    requires read % 4 == 0 && len < W32
    ensures Scanned(EncodeHead(m, read, len), Head(m), read, Room(read, len))
  {
    hide Put32, Scanned, Field;
    var c0 := Cursor(read, len, 0, []);
    Begins(read, len);
    FieldScans(c0, [], Put32(m.fn), 4, read, len);
    var c1 := Field(c0, Put32(m.fn), 4);
    Reads(c0, Put32(m.fn), 4);
    assert [] + Put32(m.fn) == Put32(m.fn);
    Within(c1, Put32(m.fn), read, len);
    FieldScans(c1, Put32(m.fn), Put32(m.fid), 4, read, len);
    var c2 := Field(c1, Put32(m.fid), 4);
    Reads(c1, Put32(m.fid), 4);
    var f := Put32(m.fn) + Put32(m.fid);
    Within(c2, f, read, len);
    if Overruns(read, len) {
      BeforeWrap(c2, f, read, len);
      WrapScans(c2, f, Put32(m.submsg), read, len);
    } else {
      FieldScans(c2, f, Put32(m.submsg), 1, read, len);
    }
  }

  /** A call that overruns has delivered everything before the third field. */
  lemma BeforeWrap(c: Cursor, f: seq<byte>, read: nat, len: nat)
    requires read % 4 == 0 && Overruns(read, len) && |f| == 8 && Scanned(c, f, read, len)
    ensures c.read == c.pos == 8
  {
  }

  /** The third field where one to three bytes are left: it goes out whole, and the count wraps. */
  lemma WrapScans(c: Cursor, f: seq<byte>, b: seq<byte>, read: nat, len: nat)
    requires Scanned(c, f, read, len) && read % 4 == 0 && Overruns(read, len)
    requires |f| == 8 && |b| == 4 && c.read == c.pos == 8
    ensures Scanned(Field(c, b, 1), f + b, read, len + W32)
  {
    if read < 8 {
      SliceGrows(f, b, read, 8);
    } else {
      assert (f + b)[8..12] == b;
    }
  }

  lemma Begins(read: nat, len: nat)
    requires read % 4 == 0 && len < W32
    ensures Scanned(Cursor(read, len, 0, []), [], read, len)
  {
  }

  lemma Reads(c: Cursor, b: seq<byte>, need: nat)
    ensures Field(c, b, need).pos == c.pos + |b|
  {
  }

  /** Where the cursor stands when it stands at the field being looked at. */
  lemma Within(c: Cursor, f: seq<byte>, read: nat, len: nat)
    requires Scanned(c, f, read, len)
    ensures c.pos == |f| && c.pos % 4 == 0
    ensures c.read == c.pos ==> read <= c.pos && c.len == len - (c.pos - read)
    ensures read <= c.pos ==> c.read <= c.pos
    ensures 0 <= c.len
  {
  }

  lemma PairScans(c: Cursor, f: seq<byte>, wanted: bool, x: int, y: int, read: nat, len: nat)
    requires Scanned(c, f, read, len) && read % 4 == 0
    ensures Scanned(EncodePair(c, wanted, x, y), f + (if wanted then Put32(x) + Put32(y) else []), read, len)
  {
    hide Put32, Scanned, Field;
    if wanted {
      FieldScans(c, f, Put32(x), 4, read, len);
      FieldScans(Field(c, Put32(x), 4), f + Put32(x), Put32(y), 4, read, len);
      assert f + (Put32(x) + Put32(y)) == f + Put32(x) + Put32(y);
    } else {
      assert f + [] == f;
    }
  }

  lemma FrontScans(m: Req, read: nat, len: nat)
    requires read % 4 == 0 && len < W32
    ensures Scanned(EncodeFront(m, read, len), Head(m) + Ptr(m) + Ptr2(m), read, Room(read, len))
  {
    hide Put32, Scanned, Field, EncodePair, EncodeHead, Room;
    HeadScans(m, read, len);
    var room := Room(read, len);
    var c := EncodeHead(m, read, len);
    PairScans(c, Head(m), WantsPtr(m.fn), m.len, m.buf, read, room);
    c := EncodePair(c, WantsPtr(m.fn), m.len, m.buf);
    PairScans(c, Head(m) + Ptr(m), WantsPtr2(m.fn), m.len2, m.buf2, read, room);
  }

  /** One call delivers exactly the next piece of the message, as many fields as fit, and never cuts a field. */
  lemma EncodeScans(m: Req, read: nat, len: nat)
    requires Boundary(m, read) && len < W32
    ensures Scanned(Encode(m, read, len), Frame(m), read, Room(read, len))
    ensures var r := Encode(m, read, len).read; r == |Frame(m)| || (WantsOff(m.fn) ==> r <= |Frame(m)| - 8)
  {
    hide Put32, Put64, Scanned, Field, EncodeFront, Room;
    FrontScans(m, read, len);
    var room := Room(read, len);
    var c := EncodeFront(m, read, len);
    var f := Head(m) + Ptr(m) + Ptr2(m);
    Within(c, f, read, room);
    if WantsOff(m.fn) {
      assert |f| == |Frame(m)| - 8;
      FieldScans(c, f, Put64(m.off), 8, read, room);
    } else {
      assert Frame(m) == f;
    }
  }

  /** The exact condition: a call stays inside the buffer it was given iff it does not overrun at the third field. */
  lemma StaysInsideIff(m: Req, read: nat, len: nat)
    requires Boundary(m, read) && len < W32
    ensures |Encode(m, read, len).out| <= len <==> !Overruns(read, len)
  {
    hide Encode, Put32, Put64;
    EncodeScans(m, read, len);
  }

  // ------------------------------------------------------------ a message in chunks

  /** Room that the field at `read` asks for. */
  function Need(m: Req, read: nat): nat {
    if read == 8 then 1 else if WantsOff(m.fn) && read == |Frame(m)| - 8 then 8 else 4
  }

  lemma FirstNeeds(m: Req)
    ensures |Frame(m)| >= 12 && Need(m, 0) == 4
  {
    hide Put32, Put64;
  }

  /** What one read does, whatever its size: its piece starts where the last one ended and stops at a field; it is
      empty iff the next field does not fit, and it is the whole rest iff that fits or the read overruns. */
  lemma Delivers(m: Req, read: nat, len: nat)
    requires Boundary(m, read) && len < W32
    ensures var c := Encode(m, read, len);
            && read <= c.read <= |Frame(m)| && c.out == Frame(m)[read..c.read]
            && (c.read == |Frame(m)| || Boundary(m, c.read))
            && (c.read > read <==> len >= Need(m, read)) && (len >= 8 ==> c.read >= read + 4)
            && (c.read == |Frame(m)| <==> |Frame(m)| - read <= len || Overruns(read, len))
  {
    hide Encode, Frame;
    EncodeScans(m, read, len);
    EncodeMoves(m, read, len);
  }

  /** The first field of the piece decides whether there is one. */
  lemma EncodeMoves(m: Req, read: nat, len: nat)
    requires Boundary(m, read) && len < W32
    ensures Encode(m, read, len).read > read <==> len >= Need(m, read)
  {
    hide EncodeHead, EncodePair, Put32, Put64;
    HeadMoves(m, read, len);
    var c := EncodeHead(m, read, len);
    PairMoves(c, WantsPtr(m.fn), m.len, m.buf);
    PairMoves(EncodePair(c, WantsPtr(m.fn), m.len, m.buf), WantsPtr2(m.fn), m.len2, m.buf2);
  }

  lemma HeadMoves(m: Req, read: nat, len: nat)
    requires read % 4 == 0
    ensures var c := EncodeHead(m, read, len);
            && c.pos == 12 && c.read >= read && c.read % 4 == 0
            && (read < 12 ==> (c.read > read <==> len >= if read == 8 then 1 else 4))
            && (read >= 12 ==> c.read == read && c.len == len)
  {
    hide Put32;
  }

  lemma PairMoves(c: Cursor, wanted: bool, x: int, y: int)
    requires c.read % 4 == 0 && c.pos % 4 == 0
    ensures var d := EncodePair(c, wanted, x, y);
            && d.pos == c.pos + (if wanted then 8 else 0) && d.read >= c.read && d.read % 4 == 0
            && (c.read < c.pos || c.read >= d.pos ==> d.read == c.read && d.len == c.len)
            && (c.pos <= c.read < d.pos ==> (d.read > c.read <==> c.len >= 4))
  {
    hide Put32;
  }

  /** Reads until the message is through or the chunks run out: the bytes and the number of chunks used. */
  function Session(m: Req, read: nat, chunks: seq<nat>): (seq<byte>, nat)
    decreases |chunks|
  {
    if chunks == [] then ([], 0)
    else
      var c := Encode(m, read, chunks[0]);
      if c.read == |Frame(m)| then (c.out, 1)
      else var (rest, n) := Session(m, c.read, chunks[1..]); (c.out + rest, n + 1)
  }

  /** Whatever the chunk sizes, the pieces are the whole message, once, and nothing after it; chunks of 8 or more
      cannot fail to get through. */
  lemma {:induction false} DeliveredWholeOnce(m: Req, read: nat, chunks: seq<nat>)
    requires Boundary(m, read) && forall i :: 0 <= i < |chunks| ==> chunks[i] < W32
    ensures var (bytes, used) := Session(m, read, chunks);
            && used <= |chunks|
            && (bytes == Frame(m)[read..] || (used == |chunks| && bytes < Frame(m)[read..]))
            && (4 * |chunks| >= |Frame(m)| - read && (forall i :: 0 <= i < |chunks| ==> chunks[i] >= 8) ==>
                  bytes == Frame(m)[read..])
    decreases |chunks|
  {
    hide Encode, Frame, Need, Overruns;
    if chunks != [] {
      Delivers(m, read, chunks[0]);
      var c := Encode(m, read, chunks[0]);
      var f := Frame(m);
      if c.read != |f| {
        DeliveredWholeOnce(m, c.read, chunks[1..]);
        assert f[read..] == f[read..c.read] + f[c.read..];
      } else {
        assert f[read..|f|] == f[read..];
      }
    }
  }
}
