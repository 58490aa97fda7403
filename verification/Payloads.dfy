/** Where the bytes of an allocation live, and who may touch them.

  An allocation at header address `a` owns the bytes behind its header; the
  pointer handed to the caller is moved up to a multiple of 16 and the distance
  is stored 16 bytes below it, which is how the release finds the header again
  (src/mem/malloc.c, ALIGN and UNALIGN). */
module Payloads {
  import opened HeapLayout

  /** The aligned pointer for the usable bytes that start at `base`. */
  function Payload(base: int): int {
    var q := base + ALIGN_INFO;
    var diff := q % ALIGNMENT;
    if diff != 0 then q + (ALIGNMENT - diff) else q
  }

  /** The pointer the caller holds for the allocation with header `a`. */
  function Pointer(a: int): int {
    Payload(a + MINOR_HEADER)
  }

  function ByteAt(mem: map<int, int>, a: int): int {
    if a in mem then mem[a] else 0
  }

  function BytesAt(mem: map<int, int>, a: int, n: nat): (r: seq<int>)
    ensures |r| == n
    ensures forall i :: 0 <= i < n ==> r[i] == ByteAt(mem, a + i)
  {
    seq(n, i => ByteAt(mem, a + i))
  }

  /** UNALIGN: the start of the usable bytes, read back from the stored distance. */
  function Unalign(mem: map<int, int>, p: int): int {
    var diff := ByteAt(mem, p - ALIGN_INFO);
    if diff < ALIGNMENT + ALIGN_INFO then p - diff else p
  }

  /** The header that a caller's pointer belongs to. */
  function HeaderOf(mem: map<int, int>, p: int): int {
    Unalign(mem, p) - MINOR_HEADER
  }

  lemma PayloadRange(base: int)
    ensures Payload(base) % ALIGNMENT == 0
    ensures base + ALIGN_INFO <= Payload(base) < base + SLACK
  {
  }

  /** Every live allocation carries the distance that leads back to its header. */
  ghost predicate Stamped(minors: map<int, Minor>, mem: map<int, int>) {
    forall a :: a in minors ==> ByteAt(mem, Pointer(a) - ALIGN_INFO) == Pointer(a) - (a + MINOR_HEADER)
  }

  /** What the callers have stored: for each allocation its requested bytes. */
  ghost function Blocks(minors: map<int, Minor>, mem: map<int, int>): map<int, seq<int>> {
    map a | a in minors :: BytesAt(mem, Pointer(a), minors[a].req)
  }

  /** UNALIGN undoes ALIGN for every live allocation, so pointers and headers correspond one to one. */
  lemma UnalignRecovers(minors: map<int, Minor>, mem: map<int, int>, a: int)
    requires Stamped(minors, mem) && a in minors
    ensures HeaderOf(mem, Pointer(a)) == a
  {
    PayloadRange(a + MINOR_HEADER);
  }

  /** The requested bytes lie inside the allocation's own extent, above the stored distance. */
  lemma PayloadInside(s: Shape, a: int)
    requires Layout(s) && a in s.minors
    ensures Pointer(a) % ALIGNMENT == 0
    ensures a + MINOR_HEADER <= Pointer(a) - ALIGN_INFO
    ensures Pointer(a) + s.minors[a].req <= a + MINOR_HEADER + s.minors[a].size
  {
    PayloadRange(a + MINOR_HEADER);
    var m, k := InMajor(s, a);
    assert s.minors[s.parts[m][k]].req + SLACK <= s.minors[s.parts[m][k]].size;
  }

  /** The byte behind the requested ones is still the allocation's own: alignment never takes the whole slack. */
  lemma OneByteBehind(s: Shape, a: int)
    requires Layout(s) && a in s.minors
    ensures Pointer(a) + s.minors[a].req + 1 <= a + MINOR_HEADER + s.minors[a].size
  {
    PayloadRange(a + MINOR_HEADER);
    var m, k := InMajor(s, a);
    assert s.minors[s.parts[m][k]].req + SLACK <= s.minors[s.parts[m][k]].size;
  }

  ghost predicate Clear(lo: int, hi: int, lo': int, hi': int) {
    hi <= lo' || hi' <= lo
  }

  /** A payload is aligned, as large as requested, inside its major, and clear of every
      header and of every other payload. */
  lemma PayloadsAreSafe(s: Shape, a: int)
    requires Layout(s) && a in s.minors
    ensures Pointer(a) % 16 == 0
    ensures s.minors[a].block in s.majors
    ensures s.minors[a].block + MAJOR_HEADER <= Pointer(a)
    ensures Pointer(a) + s.minors[a].req <= s.minors[a].block + s.majors[s.minors[a].block].size
    ensures forall b :: b in s.minors ==>
      Clear(Pointer(a), Pointer(a) + s.minors[a].req, b, b + MINOR_HEADER)
    ensures forall m :: m in s.majors ==>
      Clear(Pointer(a), Pointer(a) + s.minors[a].req, m, m + MAJOR_HEADER)
    ensures forall b :: b in s.minors && b != a ==>
      Clear(Pointer(a), Pointer(a) + s.minors[a].req, Pointer(b), Pointer(b) + s.minors[b].req)
  {
    PayloadInside(s, a);
    var m, k := InMajor(s, a);
    forall b | b in s.minors
      ensures Clear(Pointer(a), Pointer(a) + s.minors[a].req, b, b + MINOR_HEADER)
      ensures b != a ==> Clear(Pointer(a), Pointer(a) + s.minors[a].req, Pointer(b), Pointer(b) + s.minors[b].req)
    {
      PayloadInside(s, b);
      if b != a { Extents(s, a, b); }
    }
    forall n | n in s.majors ensures Clear(Pointer(a), Pointer(a) + s.minors[a].req, n, n + MAJOR_HEADER) {
      UsageInBounds(s, n);
      assert n != m ==> m + s.majors[m].size <= n || n + s.majors[n].size <= m;
    }
  }

  lemma ExtentsAll(s: Shape, a: int)
    requires Layout(s) && a in s.minors
    ensures forall b :: b in s.minors && b != a ==>
      a + MINOR_HEADER + s.minors[a].size <= b || b + MINOR_HEADER + s.minors[b].size <= a
  {
    forall b | b in s.minors && b != a
      ensures a + MINOR_HEADER + s.minors[a].size <= b || b + MINOR_HEADER + s.minors[b].size <= a
    {
      Extents(s, a, b);
    }
  }

  /** Writing inside one allocation's extent changes no other allocation. */
  lemma WritesStayInside(s: Shape, a: int, mem: map<int, int>, mem': map<int, int>)
    requires Layout(s) && a in s.minors
    requires forall x :: !(a + MINOR_HEADER <= x < a + MINOR_HEADER + s.minors[a].size) ==>
        ByteAt(mem', x) == ByteAt(mem, x)
    ensures forall b :: b in s.minors && b != a ==>
      && BytesAt(mem', Pointer(b), s.minors[b].req) == BytesAt(mem, Pointer(b), s.minors[b].req)
      && ByteAt(mem', Pointer(b) - ALIGN_INFO) == ByteAt(mem, Pointer(b) - ALIGN_INFO)
  {
    ExtentsAll(s, a);
    forall b | b in s.minors && b != a
      ensures BytesAt(mem', Pointer(b), s.minors[b].req) == BytesAt(mem, Pointer(b), s.minors[b].req)
      ensures ByteAt(mem', Pointer(b) - ALIGN_INFO) == ByteAt(mem, Pointer(b) - ALIGN_INFO)
    {
      PayloadInside(s, b);
    }
  }
}
