/** The memory picture kept by liballoc (src/mem/malloc.c).

  Every block of pages obtained from the page source is a "major": a header
  followed by "minors", each of which is a header followed by the bytes handed
  out by one allocation.  Both kinds of header are linked through addresses that
  are stored in the headers; address 0 is the null pointer.

  A `Shape` pairs those linked headers with the lists they are meant to encode,
  and `Layout` says that they do encode them.  The two editing functions
  `InsertAt` and `RemoveAt` describe what one allocation and one release do to
  the headers; the lemmas show that they keep the layout. */
module HeapLayout {
  import opened Basics

  const PAGE := 4096
  const MAJOR_HEADER := 24
  const MINOR_HEADER := 24
  const ALIGNMENT := 16
  const ALIGN_INFO := 16
  const SLACK := ALIGNMENT + ALIGN_INFO
  const PAGE_COUNT := 16
  const ADDRESS_LIMIT := 0x1_0000_0000

  datatype Major = Major(prev: int, next: int, pages: nat, size: nat, usage: nat, first: int)
  datatype Minor = Minor(prev: int, next: int, block: int, size: nat, req: nat)

  /** `order` lists the majors, `parts[m]` the minors of major `m`, both in link order. */
  datatype Shape = Shape(majors: map<int, Major>, minors: map<int, Minor>, root: int,
                         order: seq<int>, parts: map<int, seq<int>>)

  ghost predicate MajorOk(m: int, major: Major) {
    && 0 < m
    && m % PAGE == 0
    && 1 <= major.pages
    && major.size == major.pages * PAGE
    && m + major.size <= ADDRESS_LIMIT
  }

  ghost predicate MajorList(majors: map<int, Major>, root: int, order: seq<int>) {
    && (forall m :: m in majors <==> m in order)
    && Distinct(order)
    && root == Nth(order, 0, 0)
    && (forall m :: m in majors ==> MajorOk(m, majors[m]))
    && (forall i :: 0 <= i < |order| ==> MajorNode(majors, order, i))
  }

  ghost predicate MajorNode(majors: map<int, Major>, order: seq<int>, i: int)
    requires 0 <= i < |order| && order[i] in majors
  {
    majors[order[i]].prev == Nth(order, i - 1, 0) && majors[order[i]].next == Nth(order, i + 1, 0)
  }

  ghost predicate Apart(majors: map<int, Major>) {
    forall m, n :: m in majors && n in majors && m != n ==>
      m + majors[m].size <= n || n + majors[n].size <= m
  }

  ghost predicate Known(minors: map<int, Minor>, ms: seq<int>) {
    forall i :: 0 <= i < |ms| ==> ms[i] in minors
  }

  /** Where the gap before the `i`-th minor starts. */
  ghost function Lo(m: int, minors: map<int, Minor>, ms: seq<int>, i: int): int
    requires Known(minors, ms) && 0 <= i <= |ms|
  {
    if i == 0 then m + MAJOR_HEADER else ms[i - 1] + MINOR_HEADER + minors[ms[i - 1]].size
  }

  /** Where that gap ends. */
  ghost function Hi(m: int, size: nat, ms: seq<int>, i: int): int
    requires 0 <= i <= |ms|
  {
    if i == |ms| then m + size else ms[i]
  }

  ghost function Used(minors: map<int, Minor>, ms: seq<int>): nat
    requires Known(minors, ms)
  {
    if ms == [] then 0 else Used(minors, ms[..|ms| - 1]) + minors[ms[|ms| - 1]].size + MINOR_HEADER
  }

  ghost predicate MinorNode(minors: map<int, Minor>, ms: seq<int>, i: int)
    requires 0 <= i < |ms| && ms[i] in minors
  {
    minors[ms[i]].prev == Nth(ms, i - 1, 0) && minors[ms[i]].next == Nth(ms, i + 1, 0)
  }

  ghost predicate Linked(m: int, minors: map<int, Minor>, ms: seq<int>) {
    && Known(minors, ms)
    && (forall i :: 0 <= i < |ms| ==>
         minors[ms[i]].block == m && minors[ms[i]].req + SLACK <= minors[ms[i]].size)
    && (forall i :: 0 <= i < |ms| ==> MinorNode(minors, ms, i))
  }

  ghost predicate GapOk(m: int, size: nat, minors: map<int, Minor>, ms: seq<int>, i: int)
    requires Known(minors, ms) && 0 <= i <= |ms|
  {
    Lo(m, minors, ms, i) <= Hi(m, size, ms, i)
  }

  ghost predicate Packed(m: int, size: nat, minors: map<int, Minor>, ms: seq<int>)
    requires Known(minors, ms)
  {
    forall i :: 0 <= i <= |ms| ==> GapOk(m, size, minors, ms, i)
  }

  /** The minors of one major: linked in address order, disjoint, in bounds and accounted for. */
  ghost predicate PartOk(m: int, major: Major, minors: map<int, Minor>, ms: seq<int>) {
    && Linked(m, minors, ms)
    && Packed(m, major.size, minors, ms)
    && major.first == Nth(ms, 0, 0)
    && major.usage == MAJOR_HEADER + Used(minors, ms)
  }

  ghost predicate Layout(s: Shape) {
    && MajorList(s.majors, s.root, s.order)
    && Apart(s.majors)
    && s.parts.Keys == s.majors.Keys
    && (forall m :: m in s.majors ==> PartOk(m, s.majors[m], s.minors, s.parts[m]))
    && (forall a :: a in s.minors ==>
          s.minors[a].block in s.majors && a in s.parts[s.minors[a].block])
  }

  ghost function Gap(s: Shape, m: int, k: int): int
    requires m in s.majors && m in s.parts && Known(s.minors, s.parts[m]) && 0 <= k <= |s.parts[m]|
  {
    Hi(m, s.majors[m].size, s.parts[m], k) - Lo(m, s.minors, s.parts[m], k)
  }

  /** No gap of major `m` takes `need` bytes. */
  ghost predicate Tight(s: Shape, m: int, need: int)
    requires Layout(s) && m in s.majors
  {
    forall k :: 0 <= k <= |s.parts[m]| ==> Gap(s, m, k) < need
  }

  /** No gap anywhere takes `need` bytes. */
  ghost predicate NoRoom(s: Shape, need: int)
    requires Layout(s)
  {
    forall m :: m in s.majors ==> Tight(s, m, need)
  }

  // ---------------------------------------------------------------- sums

  lemma {:induction false} UsedSplit(minors: map<int, Minor>, a: seq<int>, b: seq<int>)
    requires Known(minors, a) && Known(minors, b)
    ensures Known(minors, a + b)
    ensures Used(minors, a + b) == Used(minors, a) + Used(minors, b)
  {
    if b == [] {
      assert a + b == a;
    } else {
      UsedSplit(minors, a, b[..|b| - 1]);
      assert (a + b)[..|a + b| - 1] == a + b[..|b| - 1];
    }
  }

  lemma {:induction false} UsedFrame(minors: map<int, Minor>, minors': map<int, Minor>, ms: seq<int>)
    requires Known(minors, ms) && Known(minors', ms)
    requires forall i :: 0 <= i < |ms| ==> minors[ms[i]].size == minors'[ms[i]].size
    ensures Used(minors, ms) == Used(minors', ms)
  {
    if ms != [] {
      UsedFrame(minors, minors', ms[..|ms| - 1]);
    }
  }

  /** Everything before gap `k` fits between the major header and the gap. */
  lemma {:induction false} UsedBelow(m: int, size: nat, minors: map<int, Minor>, ms: seq<int>, k: nat)
    requires Known(minors, ms) && Packed(m, size, minors, ms) && k <= |ms|
    ensures m + MAJOR_HEADER + Used(minors, ms[..k]) <= Lo(m, minors, ms, k)
  {
    if k > 0 {
      UsedBelow(m, size, minors, ms, k - 1);
      assert ms[..k][..k - 1] == ms[..k - 1];
      assert GapOk(m, size, minors, ms, k - 1);
    }
  }

  /** Everything after gap `k` fits between the gap and the end of the major. */
  lemma {:induction false} UsedAbove(m: int, size: nat, minors: map<int, Minor>, ms: seq<int>, k: nat)
    requires Known(minors, ms) && Packed(m, size, minors, ms) && k <= |ms|
    ensures Hi(m, size, ms, k) + Used(minors, ms[k..]) <= m + size
    decreases |ms| - k
  {
    if k < |ms| {
      UsedAbove(m, size, minors, ms, k + 1);
      assert ms[k..] == [ms[k]] + ms[k + 1..];
      UsedSplit(minors, [ms[k]], ms[k + 1..]);
      assert Used(minors, [ms[k]]) == minors[ms[k]].size + MINOR_HEADER by {
        assert [ms[k]][..0] == [];
      }
      assert GapOk(m, size, minors, ms, k + 1);
    }
  }

  /** A gap is never larger than the free total that the header advertises. */
  lemma FreeBound(s: Shape, m: int, k: nat)
    requires Layout(s) && m in s.majors && k <= |s.parts[m]|
    ensures Gap(s, m, k) <= s.majors[m].size - s.majors[m].usage
  {
    var ms := s.parts[m];
    UsedBelow(m, s.majors[m].size, s.minors, ms, k);
    UsedAbove(m, s.majors[m].size, s.minors, ms, k);
    UsedSplit(s.minors, ms[..k], ms[k..]);
    assert ms == ms[..k] + ms[k..];
  }

  lemma UsageInBounds(s: Shape, m: int)
    requires Layout(s) && m in s.majors
    ensures MAJOR_HEADER <= s.majors[m].usage <= s.majors[m].size
  {
    var ms := s.parts[m];
    UsedAbove(m, s.majors[m].size, s.minors, ms, 0);
    assert ms[0..] == ms;
    assert GapOk(m, s.majors[m].size, s.minors, ms, 0);
  }

  // ---------------------------------------------------------------- geometry

  lemma {:induction false} Sorted(m: int, size: nat, minors: map<int, Minor>, ms: seq<int>, i: nat, j: nat)
    requires Known(minors, ms) && Packed(m, size, minors, ms) && i < j <= |ms|
    ensures ms[i] + MINOR_HEADER + minors[ms[i]].size <= Hi(m, size, ms, j)
    decreases j
  {
    assert GapOk(m, size, minors, ms, j);
    if i < j - 1 {
      Sorted(m, size, minors, ms, i, j - 1);
    }
  }

  /** Every allocation lies inside its major, after the major's header. */
  lemma InMajor(s: Shape, a: int) returns (m: int, k: nat)
    requires Layout(s) && a in s.minors
    ensures m == s.minors[a].block && m in s.majors
    ensures k < |s.parts[m]| && s.parts[m][k] == a
    ensures m + MAJOR_HEADER <= a
    ensures a + MINOR_HEADER + s.minors[a].size <= m + s.majors[m].size
  {
    m := s.minors[a].block;
    var ms := s.parts[m];
    k :| 0 <= k < |ms| && ms[k] == a;
    Sorted(m, s.majors[m].size, s.minors, ms, k, |ms|);
    UsedBelow(m, s.majors[m].size, s.minors, ms, k);
    assert GapOk(m, s.majors[m].size, s.minors, ms, k);
  }

  /** The whole extents (header and bytes) of two allocations never overlap. */
  lemma Extents(s: Shape, a: int, b: int)
    requires Layout(s) && a in s.minors && b in s.minors && a != b
    ensures a + MINOR_HEADER + s.minors[a].size <= b || b + MINOR_HEADER + s.minors[b].size <= a
  {
    var m, i := InMajor(s, a);
    var n, j := InMajor(s, b);
    if m == n {
      if i < j {
        Sorted(m, s.majors[m].size, s.minors, s.parts[m], i, j);
      } else {
        Sorted(m, s.majors[m].size, s.minors, s.parts[m], j, i);
      }
    }
  }

  lemma PartDistinct(s: Shape, m: int)
    requires Layout(s) && m in s.majors
    ensures Distinct(s.parts[m])
  {
    var ms := s.parts[m];
    forall i, j | 0 <= i < j < |ms| ensures ms[i] != ms[j] {
      Sorted(m, s.majors[m].size, s.minors, ms, i, j);
    }
  }

  /** Nothing is allocated at the start of a gap that can hold a header. */
  lemma GapIsFree(s: Shape, m: int, k: nat)
    requires Layout(s) && m in s.majors && k <= |s.parts[m]|
    requires MINOR_HEADER <= Gap(s, m, k)
    ensures Lo(m, s.minors, s.parts[m], k) !in s.minors
    ensures 0 < m + MAJOR_HEADER <= Lo(m, s.minors, s.parts[m], k)
  {
    var ms := s.parts[m];
    var a := Lo(m, s.minors, ms, k);
    UsedBelow(m, s.majors[m].size, s.minors, ms, k);
    UsedAbove(m, s.majors[m].size, s.minors, ms, k);
    if a in s.minors {
      var n, j := InMajor(s, a);
      if n == m {
        if j < k {
          Sorted(m, s.majors[m].size, s.minors, ms, j, k);
          if j < k - 1 { Sorted(m, s.majors[m].size, s.minors, ms, j, k - 1); }
        } else {
          if k < j { Sorted(m, s.majors[m].size, s.minors, ms, k, j); }
        }
        assert false;
      }
    }
  }

  // ---------------------------------------------------------------- editing one major

  ghost function Inserted(ms: seq<int>, k: nat, a: int): seq<int>
    requires k <= |ms|
  {
    ms[..k] + [a] + ms[k..]
  }

  ghost function Removed(ms: seq<int>, k: nat): seq<int>
    requires k < |ms|
  {
    ms[..k] + ms[k + 1..]
  }

  /** The neighbours of position `k` are made to point at `a`. */
  ghost function LinkAround(minors: map<int, Minor>, before: int, after: int, a: int, x: Minor): map<int, Minor>
    requires (before != 0 ==> before in minors) && (after != 0 ==> after in minors)
  {
    var m1 := if before != 0 then minors[before := minors[before].(next := a)] else minors;
    var m2 := if after != 0 then m1[after := m1[after].(prev := a)] else m1;
    m2[a := x]
  }

  ghost function UnlinkAround(minors: map<int, Minor>, a: int): map<int, Minor>
    requires a in minors
    requires (minors[a].prev != 0 ==> minors[a].prev in minors) && (minors[a].next != 0 ==> minors[a].next in minors)
  {
    var x := minors[a];
    var m1 := if x.next != 0 then minors[x.next := minors[x.next].(prev := x.prev)] else minors;
    var m2 := if x.prev != 0 then m1[x.prev := m1[x.prev].(next := x.next)] else m1;
    m2 - {a}
  }

  lemma KnownNonNull(s: Shape, m: int)
    requires Layout(s) && m in s.majors
    ensures forall i :: 0 <= i < |s.parts[m]| ==> 0 < s.parts[m][i] && s.parts[m][i] in s.minors
  {
    forall i | 0 <= i < |s.parts[m]| ensures 0 < s.parts[m][i] && s.parts[m][i] in s.minors {
      var n, k := InMajor(s, s.parts[m][i]);
    }
  }

  /** What one allocation does to the headers: a new minor at the start of gap `k` of `m`. */
  ghost function InsertAt(s: Shape, m: int, k: nat, size: nat, req: nat): Shape
    requires Layout(s) && m in s.majors && k <= |s.parts[m]|
  {
    var ms := s.parts[m];
    var a := Lo(m, s.minors, ms, k);
    KnownNonNull(s, m);
    var x := Minor(Nth(ms, k - 1, 0), Nth(ms, k, 0), m, size, req);
    var major := s.majors[m].(usage := s.majors[m].usage + size + MINOR_HEADER,
                              first := if k == 0 then a else s.majors[m].first);
    s.(majors := s.majors[m := major],
       minors := LinkAround(s.minors, Nth(ms, k - 1, 0), Nth(ms, k, 0), a, x),
       parts := s.parts[m := Inserted(ms, k, a)])
  }

  /** What one release does to the headers (the major itself is kept, even if it is now empty). */
  ghost function RemoveAt(s: Shape, m: int, k: nat): Shape
    requires Layout(s) && m in s.majors && k < |s.parts[m]|
  {
    var ms := s.parts[m];
    var a := ms[k];
    KnownNonNull(s, m);
    UsedPositive(s, m, k);
    assert MinorNode(s.minors, ms, k);
    var major := s.majors[m].(usage := s.majors[m].usage - s.minors[a].size - MINOR_HEADER,
                              first := if k == 0 then Nth(ms, 1, 0) else s.majors[m].first);
    s.(majors := s.majors[m := major],
       minors := UnlinkAround(s.minors, a),
       parts := s.parts[m := Removed(ms, k)])
  }

  lemma UsedPositive(s: Shape, m: int, k: nat)
    requires Layout(s) && m in s.majors && k < |s.parts[m]|
    ensures var ms := s.parts[m];
      s.majors[m].usage == MAJOR_HEADER + Used(s.minors, ms[..k]) + s.minors[ms[k]].size + MINOR_HEADER
                           + Used(s.minors, ms[k + 1..])
    ensures Known(s.minors, s.parts[m])
  {
    assert PartOk(m, s.majors[m], s.minors, s.parts[m]);
    hide Layout, Packed, MinorNode;
    var ms := s.parts[m];
    UsedSplit(s.minors, ms[..k + 1], ms[k + 1..]);
    assert ms == ms[..k + 1] + ms[k + 1..];
    assert ms[..k + 1][..k] == ms[..k];
  }

  /** A major none of whose minors changed is still fine. */
  lemma PartFrame(m: int, major: Major, minors: map<int, Minor>, minors': map<int, Minor>, ms: seq<int>)
    requires PartOk(m, major, minors, ms)
    requires forall i :: 0 <= i < |ms| ==> ms[i] in minors' && minors'[ms[i]] == minors[ms[i]]
    ensures PartOk(m, major, minors', ms)
  {
    UsedFrame(minors, minors', ms);
    forall i | 0 <= i < |ms| ensures MinorNode(minors', ms, i) {
      assert MinorNode(minors, ms, i);
    }
    forall i | 0 <= i <= |ms| ensures GapOk(m, major.size, minors', ms, i) {
      assert GapOk(m, major.size, minors, ms, i);
    }
  }

  lemma LinkInsert(m: int, minors: map<int, Minor>, ms: seq<int>, k: nat, a: int, x: Minor)
    requires Linked(m, minors, ms) && Distinct(ms) && k <= |ms| && a !in minors && a != 0
    requires forall i :: 0 <= i < |ms| ==> ms[i] != 0
    requires x.block == m && x.prev == Nth(ms, k - 1, 0) && x.next == Nth(ms, k, 0) && x.req + SLACK <= x.size
    ensures Linked(m, LinkAround(minors, Nth(ms, k - 1, 0), Nth(ms, k, 0), a, x), Inserted(ms, k, a))
  {
    var minors' := LinkAround(minors, Nth(ms, k - 1, 0), Nth(ms, k, 0), a, x);
    var ms' := Inserted(ms, k, a);
    forall i | 0 <= i < |ms'|
      ensures ms'[i] in minors' && minors'[ms'[i]].block == m
        && minors'[ms'[i]].req + SLACK <= minors'[ms'[i]].size
        && MinorNode(minors', ms', i)
    {
      assert i < k ==> MinorNode(minors, ms, i);
      assert i > k ==> MinorNode(minors, ms, i - 1);
    }
  }

  lemma LinkRemove(m: int, minors: map<int, Minor>, ms: seq<int>, k: nat)
    requires Linked(m, minors, ms) && Distinct(ms) && k < |ms|
    requires forall i :: 0 <= i < |ms| ==> ms[i] != 0
    ensures MinorNode(minors, ms, k)
    ensures Linked(m, UnlinkAround(minors, ms[k]), Removed(ms, k))
  {
    assert MinorNode(minors, ms, k);
    var minors' := UnlinkAround(minors, ms[k]);
    var ms' := Removed(ms, k);
    forall i | 0 <= i < |ms'|
      ensures ms'[i] in minors' && minors'[ms'[i]].block == m
        && minors'[ms'[i]].req + SLACK <= minors'[ms'[i]].size
        && MinorNode(minors', ms', i)
    {
      assert ms'[i] != ms[k];
      assert i < k ==> MinorNode(minors, ms, i);
      assert i >= k ==> MinorNode(minors, ms, i + 1);
    }
  }

  ghost predicate SameSizes(minors: map<int, Minor>, minors': map<int, Minor>, ms: seq<int>) {
    Known(minors, ms) && Known(minors', ms)
    && forall i :: 0 <= i < |ms| ==> minors'[ms[i]].size == minors[ms[i]].size
  }

  lemma PackInsert(m: int, size: nat, minors: map<int, Minor>, minors': map<int, Minor>, ms: seq<int>, k: nat, a: int)
    requires SameSizes(minors, minors', ms) && Packed(m, size, minors, ms) && k <= |ms| && a in minors'
    requires a == Lo(m, minors, ms, k) && a + MINOR_HEADER + minors'[a].size <= Hi(m, size, ms, k)
    ensures Known(minors', Inserted(ms, k, a)) && Packed(m, size, minors', Inserted(ms, k, a))
    ensures Used(minors', Inserted(ms, k, a)) == Used(minors, ms) + minors'[a].size + MINOR_HEADER
  {
    var ms' := Inserted(ms, k, a);
    assert Known(minors', ms');
    forall i | 0 <= i <= |ms'| ensures GapOk(m, size, minors', ms', i) {
      assert i <= k ==> GapOk(m, size, minors, ms, i);
      assert i > k + 1 ==> GapOk(m, size, minors, ms, i - 1);
    }
    UsedSplit(minors, ms[..k], ms[k..]);
    assert ms == ms[..k] + ms[k..];
    UsedFrame(minors, minors', ms[..k]);
    UsedFrame(minors, minors', ms[k..]);
    UsedSplit(minors', ms[..k], [a]);
    UsedSplit(minors', ms[..k] + [a], ms[k..]);
    assert Used(minors', [a]) == minors'[a].size + MINOR_HEADER by { assert [a][..0] == []; }
  }

  lemma PackRemove(m: int, size: nat, minors: map<int, Minor>, minors': map<int, Minor>, ms: seq<int>, k: nat)
    requires Known(minors, ms) && k < |ms| && SameSizes(minors, minors', Removed(ms, k)) && Packed(m, size, minors, ms)
    ensures Packed(m, size, minors', Removed(ms, k))
    ensures Used(minors', Removed(ms, k)) == Used(minors, ms[..k]) + Used(minors, ms[k + 1..])
  {
    var ms' := Removed(ms, k);
    forall i | 0 <= i <= |ms'| ensures GapOk(m, size, minors', ms', i) {
      assert i <= k ==> GapOk(m, size, minors, ms, i);
      assert i >= k ==> GapOk(m, size, minors, ms, i + 1);
      assert i < k ==> ms'[i] == ms[i];
      assert i > 0 ==> minors'[ms'[i - 1]].size == minors[ms'[i - 1]].size;
    }
    UsedFrame(minors, minors', ms');
    UsedSplit(minors, ms[..k], ms[k + 1..]);
  }

  lemma PartOf(s: Shape, m: int)
    requires Layout(s) && m in s.majors
    ensures m in s.parts && PartOk(m, s.majors[m], s.minors, s.parts[m])
    ensures Known(s.minors, s.parts[m])
    ensures MajorList(s.majors, s.root, s.order)
  {
  }

  lemma InsertPart(s: Shape, m: int, k: nat, size: nat, req: nat)
    requires Layout(s) && m in s.majors && k <= |s.parts[m]|
    requires size + MINOR_HEADER <= Gap(s, m, k) && req + SLACK <= size
    ensures var s' := InsertAt(s, m, k, size, req); PartOk(m, s'.majors[m], s'.minors, s'.parts[m])
  {
    hide Layout, Linked, Packed, LinkAround;
    PartOf(s, m);
    var ms := s.parts[m];
    KnownNonNull(s, m);
    assert Known(s.minors, ms);
    var a := Lo(m, s.minors, ms, k);
    var s' := InsertAt(s, m, k, size, req);
    GapIsFree(s, m, k);
    PartDistinct(s, m);
    LinkAroundEffect(s.minors, Nth(ms, k - 1, 0), Nth(ms, k, 0), a,
      Minor(Nth(ms, k - 1, 0), Nth(ms, k, 0), m, size, req));
    LinkInsert(m, s.minors, ms, k, a, s'.minors[a]);
    PackInsert(m, s.majors[m].size, s.minors, s'.minors, ms, k, a);
  }

  lemma RemovePart(s: Shape, m: int, k: nat)
    requires Layout(s) && m in s.majors && k < |s.parts[m]|
    ensures var s' := RemoveAt(s, m, k); PartOk(m, s'.majors[m], s'.minors, s'.parts[m])
    ensures MinorNode(s.minors, s.parts[m], k)
  {
    hide Layout, Linked, Packed, UnlinkAround;
    PartOf(s, m);
    var ms := s.parts[m];
    KnownNonNull(s, m);
    PartDistinct(s, m);
    UsedPositive(s, m, k);
    RemovedContains(ms, k);
    LinkRemove(m, s.minors, ms, k);
    assert MinorNode(s.minors, ms, k);
    UnlinkAroundEffect(s.minors, ms[k]);
    var s' := RemoveAt(s, m, k);
    var ms' := Removed(ms, k);
    assert Known(s.minors, ms');
    forall i | 0 <= i < |ms'| ensures ms'[i] in s'.minors && SameBlock(s.minors[ms'[i]], s'.minors[ms'[i]]) {
      assert ms'[i] in ms';
    }
    PackRemove(m, s.majors[m].size, s.minors, s'.minors, ms, k);
  }

  lemma MajorListFrame(majors: map<int, Major>, root: int, order: seq<int>, m: int, x: Major)
    requires MajorList(majors, root, order) && m in majors
    requires x.prev == majors[m].prev && x.next == majors[m].next && x.size == majors[m].size
        && x.pages == majors[m].pages
    ensures MajorList(majors[m := x], root, order)
  {
    var majors' := majors[m := x];
    forall i | 0 <= i < |order| ensures MajorNode(majors', order, i) {
      assert MajorNode(majors, order, i);
    }
  }

  lemma PartElsewhere(s: Shape, minors': map<int, Minor>, m: int, n: int)
    requires Layout(s) && n in s.majors && n != m
    requires forall b :: b in s.minors && s.minors[b].block != m ==> b in minors' && minors'[b] == s.minors[b]
    ensures PartOk(n, s.majors[n], minors', s.parts[n])
  {
    var ms := s.parts[n];
    assert PartOk(n, s.majors[n], s.minors, ms);
    forall i | 0 <= i < |ms| ensures ms[i] in minors' && minors'[ms[i]] == s.minors[ms[i]] {
      var b := ms[i];
      assert b in s.minors && s.minors[b].block == n;
    }
    PartFrame(n, s.majors[n], s.minors, minors', ms);
  }

  /** An edit confined to one major leaves the rest of the heap in order. */
  lemma EditOneMajor(s: Shape, s': Shape, m: int)
    requires Layout(s) && m in s.majors && s'.majors.Keys == s.majors.Keys && s'.parts.Keys == s.parts.Keys
    requires s'.root == s.root && s'.order == s.order
    requires MajorList(s'.majors, s'.root, s'.order) && s'.majors[m].size == s.majors[m].size
    requires forall n :: n in s.majors && n != m ==> s'.majors[n] == s.majors[n] && s'.parts[n] == s.parts[n]
    requires PartOk(m, s'.majors[m], s'.minors, s'.parts[m])
    requires forall b :: b in s.minors && s.minors[b].block != m ==> b in s'.minors && s'.minors[b] == s.minors[b]
    requires forall b :: b in s'.minors && b !in s'.parts[m] ==> b in s.minors && s.minors[b].block != m
    ensures Layout(s')
  {
    forall n | n in s'.majors && n != m ensures PartOk(n, s'.majors[n], s'.minors, s'.parts[n]) {
      PartElsewhere(s, s'.minors, m, n);
    }
    assert forall n :: n in s'.majors ==> s'.majors[n].size == s.majors[n].size;
    forall b | b in s'.minors
      ensures s'.minors[b].block in s'.majors && b in s'.parts[s'.minors[b].block]
    {
      if b in s'.parts[m] {
        assert s'.minors[b].block == m;
      } else {
        assert b in s.parts[s.minors[b].block];
      }
    }
  }

  lemma BelongsTo(s: Shape, m: int)
    requires Layout(s) && m in s.majors
    ensures forall b :: b in s.minors && s.minors[b].block == m ==> b in s.parts[m]
    ensures forall b :: b in s.parts[m] ==> b in s.minors && s.minors[b].block == m
  {
  }

  lemma InsertedContains(ms: seq<int>, k: nat, a: int)
    requires k <= |ms|
    ensures forall b :: b in Inserted(ms, k, a) <==> b in ms || b == a
  {
    var ms' := Inserted(ms, k, a);
    assert ms'[k] == a;
    forall b | b in ms ensures b in ms' {
      var i :| 0 <= i < |ms| && ms[i] == b;
      assert ms'[if i < k then i else i + 1] == b;
    }
  }

  lemma RemovedContains(ms: seq<int>, k: nat)
    requires k < |ms| && Distinct(ms)
    ensures forall b :: b in Removed(ms, k) <==> b in ms && b != ms[k]
  {
    var ms' := Removed(ms, k);
    forall b | b in ms && b != ms[k] ensures b in ms' {
      var i :| 0 <= i < |ms| && ms[i] == b;
      assert ms'[if i < k then i else i - 1] == b;
    }
    forall b | b in ms' ensures b in ms && b != ms[k] {
      var i :| 0 <= i < |ms'| && ms'[i] == b;
      assert b == ms[if i < k then i else i + 1];
    }
  }

  lemma LinkAroundEffect(minors: map<int, Minor>, before: int, after: int, a: int, x: Minor)
    requires (before != 0 ==> before in minors) && (after != 0 ==> after in minors) && a !in minors
    ensures var minors' := LinkAround(minors, before, after, a, x);
      && minors'.Keys == minors.Keys + {a} && minors'[a] == x
      && (forall b :: b in minors ==> SameBlock(minors[b], minors'[b]))
      && (forall b :: b in minors && b != before && b != after ==> minors'[b] == minors[b])
  {
  }

  lemma UnlinkAroundEffect(minors: map<int, Minor>, a: int)
    requires a in minors
    requires (minors[a].prev != 0 ==> minors[a].prev in minors) && (minors[a].next != 0 ==> minors[a].next in minors)
    ensures var minors' := UnlinkAround(minors, a);
      && minors'.Keys == minors.Keys - {a}
      && (forall b :: b in minors' ==> SameBlock(minors[b], minors'[b]))
      && (forall b :: b in minors' && b != minors[a].prev && b != minors[a].next ==> minors'[b] == minors[b])
  {
  }

  /** Equal up to the list links. */
  ghost predicate SameBlock(x: Minor, y: Minor) {
    x.block == y.block && x.size == y.size && x.req == y.req
  }

  lemma InsertEdit(s: Shape, m: int, k: nat, size: nat, req: nat)
    requires Layout(s) && m in s.majors && k <= |s.parts[m]| && MINOR_HEADER <= Gap(s, m, k)
    ensures var s' := InsertAt(s, m, k, size, req); var a := Lo(m, s.minors, s.parts[m], k);
      && a !in s.minors && s'.minors.Keys == s.minors.Keys + {a}
      && s'.minors[a].size == size && s'.minors[a].req == req && s'.minors[a].block == m
      && (forall b :: b in s.minors ==> SameBlock(s.minors[b], s'.minors[b]))
      && (forall b :: b in s.minors && b !in s.parts[m] ==> s'.minors[b] == s.minors[b])
  {
    var ms := s.parts[m];
    GapIsFree(s, m, k);
    KnownNonNull(s, m);
    var a := Lo(m, s.minors, ms, k);
    LinkAroundEffect(s.minors, Nth(ms, k - 1, 0), Nth(ms, k, 0), a,
      Minor(Nth(ms, k - 1, 0), Nth(ms, k, 0), m, size, req));
  }

  lemma RemoveEdit(s: Shape, m: int, k: nat)
    requires Layout(s) && m in s.majors && k < |s.parts[m]|
    ensures var s' := RemoveAt(s, m, k);
      && s'.minors.Keys == s.minors.Keys - {s.parts[m][k]}
      && (forall b :: b in s'.minors ==> SameBlock(s.minors[b], s'.minors[b]))
      && (forall b :: b in s'.minors && b !in s.parts[m] ==> s'.minors[b] == s.minors[b])
  {
    var ms := s.parts[m];
    KnownNonNull(s, m);
    assert MinorNode(s.minors, ms, k);
    UnlinkAroundEffect(s.minors, ms[k]);
  }

  /** An allocation in a gap that is large enough keeps the layout and claims only that gap. */
  lemma InsertKeepsLayout(s: Shape, m: int, k: nat, size: nat, req: nat)
    requires Layout(s) && m in s.majors && k <= |s.parts[m]|
    requires size + MINOR_HEADER <= Gap(s, m, k) && req + SLACK <= size
    ensures var s' := InsertAt(s, m, k, size, req);
      var a := Lo(m, s.minors, s.parts[m], k);
      && Layout(s')
      && a !in s.minors && s'.minors.Keys == s.minors.Keys + {a}
      && s'.minors[a].size == size && s'.minors[a].req == req && s'.minors[a].block == m
      && (forall b :: b in s.minors ==> SameBlock(s.minors[b], s'.minors[b]))
  {
    hide Layout, LinkAround, MajorList, PartOk;
    PartOf(s, m);
    assert Known(s.minors, s.parts[m]);
    var s' := InsertAt(s, m, k, size, req);
    InsertEdit(s, m, k, size, req);
    BelongsTo(s, m);
    InsertedContains(s.parts[m], k, Lo(m, s.minors, s.parts[m], k));
    InsertPart(s, m, k, size, req);
    MajorListFrame(s.majors, s.root, s.order, m, s'.majors[m]);
    EditOneMajor(s, s', m);
  }

  /** A release keeps the layout and gives up exactly one allocation. */
  lemma RemoveKeepsLayout(s: Shape, m: int, k: nat)
    requires Layout(s) && m in s.majors && k < |s.parts[m]|
    ensures var s' := RemoveAt(s, m, k);
      && Layout(s')
      && s'.minors.Keys == s.minors.Keys - {s.parts[m][k]}
      && (forall b :: b in s'.minors ==> SameBlock(s.minors[b], s'.minors[b]))
  {
    hide Layout, UnlinkAround, MajorList, PartOk;
    PartOf(s, m);
    var s' := RemoveAt(s, m, k);
    RemoveEdit(s, m, k);
    BelongsTo(s, m);
    PartDistinct(s, m);
    RemovedContains(s.parts[m], k);
    RemovePart(s, m, k);
    MajorListFrame(s.majors, s.root, s.order, m, s'.majors[m]);
    EditOneMajor(s, s', m);
  }

  // ---------------------------------------------------------------- editing the list of majors

  /** What the page source may hand out: whole pages that overlap no block already held. */
  predicate FreshBlock(majors: map<int, Major>, g: int, pages: nat) {
    && 0 < g && g % PAGE == 0 && 1 <= pages && g + pages * PAGE <= ADDRESS_LIMIT
    && forall m :: m in majors ==> m + majors[m].size <= g || g + pages * PAGE <= m
  }

  ghost function LinkMajor(majors: map<int, Major>, last: int, g: int, pages: nat): map<int, Major>
    requires last != 0 ==> last in majors
  {
    var linked := if last != 0 then majors[last := majors[last].(next := g)] else majors;
    linked[g := Major(last, 0, pages, pages * PAGE, MAJOR_HEADER, 0)]
  }

  ghost function AppendMajor(s: Shape, g: int, pages: nat): Shape
    requires Layout(s) && g !in s.majors
  {
    Shape(LinkMajor(s.majors, Nth(s.order, |s.order| - 1, 0), g, pages), s.minors,
          if s.root == 0 then g else s.root, s.order + [g], s.parts[g := []])
  }

  ghost function UnlinkMajor(majors: map<int, Major>, m: int): map<int, Major>
    requires m in majors
    requires (majors[m].prev != 0 ==> majors[m].prev in majors) && (majors[m].next != 0 ==> majors[m].next in majors)
  {
    var x := majors[m];
    var m1 := if x.prev != 0 then majors[x.prev := majors[x.prev].(next := x.next)] else majors;
    var m2 := if x.next != 0 then m1[x.next := m1[x.next].(prev := x.prev)] else m1;
    m2 - {m}
  }

  ghost function DropMajor(s: Shape, i: nat): Shape
    requires Layout(s) && i < |s.order| && s.parts[s.order[i]] == []
  {
    var m := s.order[i];
    assert MajorNode(s.majors, s.order, i);
    Shape(UnlinkMajor(s.majors, m), s.minors, if s.root == m then s.majors[m].next else s.root,
          Removed(s.order, i), s.parts - {m})
  }

  lemma LinkMajorEffect(majors: map<int, Major>, last: int, g: int, pages: nat)
    requires g !in majors && (last == 0 || last in majors)
    ensures var majors' := LinkMajor(majors, last, g, pages);
      && majors'.Keys == majors.Keys + {g}
      && majors'[g] == Major(last, 0, pages, pages * PAGE, MAJOR_HEADER, 0)
      && (forall m :: m in majors ==> majors'[m] == majors[m].(next := majors'[m].next))
  {
  }

  lemma FreshIsNew(s: Shape, g: int, pages: nat)
    requires Layout(s) && FreshBlock(s.majors, g, pages)
    ensures g !in s.majors
  {
  }

  lemma AppendMajorNode(majors: map<int, Major>, root: int, order: seq<int>, g: int, pages: nat, i: nat)
    requires MajorList(majors, root, order) && g !in majors && i <= |order|
    ensures var last := Nth(order, |order| - 1, 0);
      (last == 0 || last in majors) && (order + [g])[i] in LinkMajor(majors, last, g, pages)
      && MajorNode(LinkMajor(majors, last, g, pages), order + [g], i)
  {
    assert i < |order| ==> order[i] in majors && MajorNode(majors, order, i);
    assert |order| > 0 ==> order[|order| - 1] in majors && MajorNode(majors, order, |order| - 1);
    hide MajorOk;
    if |order| > 0 { assert MajorNode(majors, order, |order| - 1); }
  }

  lemma AppendMajorList(majors: map<int, Major>, root: int, order: seq<int>, g: int, pages: nat)
    requires MajorList(majors, root, order) && FreshBlock(majors, g, pages) && g !in majors
    ensures Nth(order, |order| - 1, 0) == 0 || Nth(order, |order| - 1, 0) in majors
    ensures MajorList(LinkMajor(majors, Nth(order, |order| - 1, 0), g, pages),
                      if root == 0 then g else root, order + [g])
  {
    hide MajorNode;
    var last := Nth(order, |order| - 1, 0);
    if |order| > 0 {
      assert order[|order| - 1] in majors && order[0] in majors && MajorOk(order[0], majors[order[0]]);
    }
    var majors' := LinkMajor(majors, last, g, pages);
    var order' := order + [g];
    forall i | 0 <= i < |order'| ensures order'[i] in majors' && MajorNode(majors', order', i) {
      AppendMajorNode(majors, root, order, g, pages, i);
    }
    forall m | m in majors' ensures MajorOk(m, majors'[m]) {
      assert m != g ==> MajorOk(m, majors[m]);
    }
    assert forall m :: m in order' <==> m in order || m == g;
  }

  lemma EmptyPartOk(g: int, x: Major, minors: map<int, Minor>)
    requires x.first == 0 && x.usage == MAJOR_HEADER && MAJOR_HEADER <= x.size
    ensures PartOk(g, x, minors, [])
  {
  }

  lemma AppendParts(s: Shape, g: int, pages: nat, n: int)
    requires Layout(s) && g !in s.majors && 1 <= pages && n in AppendMajor(s, g, pages).majors
    ensures var s' := AppendMajor(s, g, pages); n in s'.parts && PartOk(n, s'.majors[n], s'.minors, s'.parts[n])
  {
    hide Layout, LinkMajor, Linked, Packed;
    ApartOf(s);
    LinkMajorEffect(s.majors, Nth(s.order, |s.order| - 1, 0), g, pages);
    if n == g {
      EmptyPartOk(g, AppendMajor(s, g, pages).majors[g], s.minors);
    } else {
      PartOf(s, n);
    }
  }

  lemma ApartOf(s: Shape)
    requires Layout(s)
    ensures Apart(s.majors) && (Nth(s.order, |s.order| - 1, 0) == 0 || Nth(s.order, |s.order| - 1, 0) in s.majors)
  {
    if |s.order| > 0 { assert s.order[|s.order| - 1] in s.majors; }
  }

  lemma AppendApart(s: Shape, g: int, pages: nat)
    requires Layout(s) && FreshBlock(s.majors, g, pages) && g !in s.majors
    ensures Apart(AppendMajor(s, g, pages).majors)
  {
    hide Layout;
    ApartOf(s);
    var s' := AppendMajor(s, g, pages);
    assert forall n :: n in s.majors ==> s'.majors[n].size == s.majors[n].size;
  }

  /** A fresh block joins the end of the list, empty. */
  lemma AppendKeepsLayout(s: Shape, g: int, pages: nat)
    requires Layout(s) && FreshBlock(s.majors, g, pages) && g !in s.majors
    ensures Layout(AppendMajor(s, g, pages))
  {
    hide PartOk, LinkMajor, MajorList, Apart;
    ApartOf(s);
    LinkMajorEffect(s.majors, Nth(s.order, |s.order| - 1, 0), g, pages);
    var s' := AppendMajor(s, g, pages);
    AppendMajorList(s.majors, s.root, s.order, g, pages);
    AppendApart(s, g, pages);
    forall n | n in s'.majors ensures PartOk(n, s'.majors[n], s'.minors, s'.parts[n]) {
      AppendParts(s, g, pages, n);
    }
    forall a | a in s'.minors ensures s'.minors[a].block in s'.majors && a in s'.parts[s'.minors[a].block] {
      assert a in s.parts[s.minors[a].block];
    }
  }

  lemma UnlinkMajorEffect(majors: map<int, Major>, m: int)
    requires m in majors
    requires (majors[m].prev != 0 ==> majors[m].prev in majors) && (majors[m].next != 0 ==> majors[m].next in majors)
    ensures UnlinkMajor(majors, m).Keys == majors.Keys - {m}
    ensures forall n :: n in UnlinkMajor(majors, m) ==>
      UnlinkMajor(majors, m)[n] ==
        majors[n].(prev := UnlinkMajor(majors, m)[n].prev, next := UnlinkMajor(majors, m)[n].next)
  {
  }

  lemma UnlinkMajorNodes(majors: map<int, Major>, root: int, order: seq<int>, i: nat, j: nat)
    requires MajorList(majors, root, order) && i < |order| && j < |order| - 1
    ensures MajorNode(majors, order, i)
    ensures var majors' := UnlinkMajor(majors, order[i]);
      Removed(order, i)[j] in majors' && MajorNode(majors', Removed(order, i), j)
  {
    var k := if j < i then j else j + 1;
    assert MajorNode(majors, order, i) && MajorNode(majors, order, k);
    forall l | 0 <= l < |order| ensures order[l] in majors && order[l] != 0 {
      var m := order[l];
      assert m in order && MajorOk(m, majors[m]);
    }
    UnlinkNode(majors, order, i, j);
  }

  lemma UnlinkNode(majors: map<int, Major>, order: seq<int>, i: nat, j: nat)
    requires i < |order| && j < |order| - 1 && Distinct(order)
    requires forall k :: 0 <= k < |order| ==> order[k] in majors && order[k] != 0
    requires MajorNode(majors, order, i) && MajorNode(majors, order, if j < i then j else j + 1)
    ensures var majors' := UnlinkMajor(majors, order[i]);
      Removed(order, i)[j] in majors' && MajorNode(majors', Removed(order, i), j)
  {
    var order' := Removed(order, i);
    var k := if j < i then j else j + 1;
    assert order'[j] == order[k] && order[k] != order[i];
  }

  lemma MajorNodeLinks(majors: map<int, Major>, order: seq<int>, i: nat)
    requires i < |order| && (forall j :: 0 <= j < |order| ==> order[j] in majors) && MajorNode(majors, order, i)
    ensures majors[order[i]].prev == 0 || majors[order[i]].prev in majors
    ensures majors[order[i]].next == 0 || majors[order[i]].next in majors
  {
  }

  lemma UnlinkRoot(majors: map<int, Major>, root: int, order: seq<int>, i: nat)
    requires MajorList(majors, root, order) && i < |order|
    ensures MajorNode(majors, order, i)
    ensures (if root == order[i] then majors[order[i]].next else root) == Nth(Removed(order, i), 0, 0)
  {
    assert MajorNode(majors, order, i);
  }

  lemma UnlinkMajorList(majors: map<int, Major>, root: int, order: seq<int>, i: nat)
    requires MajorList(majors, root, order) && i < |order|
    ensures MajorNode(majors, order, i)
    ensures var m := order[i];
      MajorList(UnlinkMajor(majors, m), if root == m then majors[m].next else root, Removed(order, i))
  {
    hide MajorNode, UnlinkMajor, Nth;
    var m := order[i];
    UnlinkRoot(majors, root, order, i);
    MajorNodeLinks(majors, order, i);
    var majors' := UnlinkMajor(majors, m);
    var order' := Removed(order, i);
    UnlinkMajorEffect(majors, m);
    RemovedContains(order, i);
    forall n | n in majors' ensures MajorOk(n, majors'[n]) {
      assert MajorOk(n, majors[n]);
    }
    forall j | 0 <= j < |order'| ensures MajorNode(majors', order', j) {
      UnlinkMajorNodes(majors, root, order, i, j);
    }
  }

  lemma DropMajorList(s: Shape, i: nat)
    requires Layout(s) && i < |s.order| && s.parts[s.order[i]] == []
    ensures var s' := DropMajor(s, i);
      && MajorList(s'.majors, s'.root, s'.order)
      && s'.majors.Keys == s.majors.Keys - {s.order[i]}
      && (forall n :: n in s'.majors ==>
            s'.majors[n] == s.majors[n].(prev := s'.majors[n].prev, next := s'.majors[n].next))
  {
    UnlinkMajorList(s.majors, s.root, s.order, i);
    UnlinkMajorEffect(s.majors, s.order[i]);
  }

  /** Giving an empty major back keeps the layout of all the others. */
  lemma DropKeepsLayout(s: Shape, i: nat)
    requires Layout(s) && i < |s.order| && s.parts[s.order[i]] == []
    ensures Layout(DropMajor(s, i))
  {
    var s' := DropMajor(s, i);
    var m := s.order[i];
    DropMajorList(s, i);
    forall n | n in s'.majors ensures PartOk(n, s'.majors[n], s'.minors, s'.parts[n]) {
      assert PartOk(n, s.majors[n], s.minors, s.parts[n]);
    }
    forall a | a in s'.minors ensures s'.minors[a].block in s'.majors {
      assert a in s.parts[s.minors[a].block];
    }
  }

  // ---------------------------------------------------------------- totals

  ghost predicate Weighs(order: seq<int>, w: map<int, int>) {
    forall i :: 0 <= i < |order| ==> order[i] in w
  }

  ghost function Total(order: seq<int>, w: map<int, int>): int
    requires Weighs(order, w)
  {
    if order == [] then 0 else w[order[0]] + Total(order[1..], w)
  }

  lemma {:induction false} TotalFrame(order: seq<int>, w: map<int, int>, w': map<int, int>)
    requires Weighs(order, w) && Weighs(order, w')
    requires forall i :: 0 <= i < |order| ==> w[order[i]] == w'[order[i]]
    ensures Total(order, w) == Total(order, w')
  {
    if order != [] {
      TotalFrame(order[1..], w, w');
    }
  }

  lemma {:induction false} TotalUpdate(order: seq<int>, w: map<int, int>, i: nat, v: int)
    requires Distinct(order) && i < |order| && Weighs(order, w)
    ensures Total(order, w[order[i] := v]) == Total(order, w) - w[order[i]] + v
  {
    if i == 0 {
      TotalFrame(order[1..], w, w[order[0] := v]);
    } else {
      TotalUpdate(order[1..], w, i - 1, v);
    }
  }

  lemma {:induction false} TotalSplit(a: seq<int>, b: seq<int>, w: map<int, int>)
    requires Weighs(a, w) && Weighs(b, w)
    ensures Weighs(a + b, w) && Total(a + b, w) == Total(a, w) + Total(b, w)
  {
    if a == [] {
      assert a + b == b;
    } else {
      TotalSplit(a[1..], b, w);
      assert (a + b)[1..] == a[1..] + b;
    }
  }

  lemma TotalRemove(order: seq<int>, w: map<int, int>, i: nat)
    requires i < |order| && Weighs(order, w)
    ensures Weighs(Removed(order, i), w)
    ensures Total(Removed(order, i), w) == Total(order, w) - w[order[i]]
  {
    TotalSplit(order[..i], order[i + 1..], w);
    TotalSplit(order[..i], order[i..], w);
    assert order == order[..i] + order[i..];
    assert order[i..][1..] == order[i + 1..];
  }

  ghost function Sizes(s: Shape): map<int, int> {
    map m | m in s.majors :: s.majors[m].size
  }

  /** Bytes given to the allocations of each major, headers excluded. */
  ghost function Loads(s: Shape): map<int, int>
    requires Layout(s)
  {
    map m | m in s.majors :: Used(s.minors, s.parts[m]) - MINOR_HEADER * |s.parts[m]|
  }

  /** Bytes held from the page source. */
  ghost function Capacity(s: Shape): int
    requires Layout(s)
  {
    Total(s.order, Sizes(s))
  }

  /** Bytes given to allocations. */
  ghost function InUse(s: Shape): int
    requires Layout(s)
  {
    Total(s.order, Loads(s))
  }

  lemma LoadIsUsage(s: Shape, m: int)
    requires Layout(s) && m in s.majors
    ensures m in s.parts
    ensures Loads(s)[m] == s.majors[m].usage - MAJOR_HEADER - MINOR_HEADER * |s.parts[m]|
  {
    assert PartOk(m, s.majors[m], s.minors, s.parts[m]);
  }

  lemma Listed(s: Shape)
    requires Layout(s)
    ensures Distinct(s.order) && forall m :: m in s.majors <==> m in s.order
    ensures s.parts.Keys == s.majors.Keys
    ensures Weighs(s.order, Sizes(s)) && Weighs(s.order, Loads(s))
  {
  }

  lemma OneWeightChanged(order: seq<int>, w: map<int, int>, w': map<int, int>, m: int, delta: int)
    requires Distinct(order) && Weighs(order, w) && Weighs(order, w') && m in order && m in w && m in w'
    requires w'[m] == w[m] + delta && forall n :: n in order && n != m ==> w'[n] == w[n]
    ensures Total(order, w') == Total(order, w) + delta
  {
    var i :| 0 <= i < |order| && order[i] == m;
    TotalUpdate(order, w, i, w[m] + delta);
    TotalFrame(order, w[m := w[m] + delta], w');
  }

  /** A change confined to the load of one major moves the total by the same amount. */
  lemma OneLoadChanged(s: Shape, s': Shape, m: int, delta: int)
    requires Layout(s) && Layout(s') && s'.order == s.order && m in s.majors && s'.majors.Keys == s.majors.Keys
    requires s.parts.Keys == s.majors.Keys && s'.parts.Keys == s.majors.Keys
    requires forall n :: n in s.majors && n != m ==> s'.majors[n] == s.majors[n] && s'.parts[n] == s.parts[n]
    requires s'.majors[m].usage - MINOR_HEADER * |s'.parts[m]| ==
        s.majors[m].usage - MINOR_HEADER * |s.parts[m]| + delta
    requires s'.majors[m].size == s.majors[m].size
    ensures Capacity(s') == Capacity(s) && InUse(s') == InUse(s) + delta
  {
    hide Layout;
    Listed(s);
    Listed(s');
    TotalFrame(s.order, Sizes(s), Sizes(s'));
    LoadIsUsage(s, m);
    LoadIsUsage(s', m);
    forall n | n in s.order && n != m ensures Loads(s')[n] == Loads(s)[n] {
      LoadIsUsage(s, n);
      LoadIsUsage(s', n);
    }
    OneWeightChanged(s.order, Loads(s), Loads(s'), m, delta);
  }

  lemma InsertTotals(s: Shape, m: int, k: nat, size: nat, req: nat)
    requires Layout(s) && m in s.majors && k <= |s.parts[m]|
    requires Layout(InsertAt(s, m, k, size, req))
    ensures var s' := InsertAt(s, m, k, size, req);
      Capacity(s') == Capacity(s) && InUse(s') == InUse(s) + size
  {
    hide Layout, LinkAround, Capacity, InUse;
    Listed(s);
    OneLoadChanged(s, InsertAt(s, m, k, size, req), m, size);
  }

  lemma RemoveTotals(s: Shape, m: int, k: nat)
    requires Layout(s) && m in s.majors && k < |s.parts[m]|
    requires Layout(RemoveAt(s, m, k))
    ensures var s' := RemoveAt(s, m, k);
      Capacity(s') == Capacity(s) && InUse(s') == InUse(s) - s.minors[s.parts[m][k]].size
  {
    hide Layout, UnlinkAround, Capacity, InUse;
    Listed(s);
    UsedPositive(s, m, k);
    OneLoadChanged(s, RemoveAt(s, m, k), m, 0 - s.minors[s.parts[m][k]].size);
  }

  lemma AppendTotals(s: Shape, g: int, pages: nat)
    requires Layout(s) && g !in s.majors && Layout(AppendMajor(s, g, pages))
    ensures var s' := AppendMajor(s, g, pages);
      Capacity(s') == Capacity(s) + pages * PAGE && InUse(s') == InUse(s)
  {
    hide Layout, AppendMajor, Sizes, Loads;
    AppendLeaves(s, g, pages);
    var s' := AppendMajor(s, g, pages);
    Listed(s);
    Listed(s');
    TotalSplit(s.order, [g], Sizes(s'));
    TotalSplit(s.order, [g], Loads(s'));
    TotalFrame(s.order, Sizes(s), Sizes(s'));
    TotalFrame(s.order, Loads(s), Loads(s'));
  }

  lemma WeighsAll(order: seq<int>, w: map<int, int>)
    requires forall m :: m in order ==> m in w
    ensures Weighs(order, w)
  {
    forall i | 0 <= i < |order| ensures order[i] in w {
      var m := order[i];
      assert m in order;
    }
  }

  lemma AppendLeaves(s: Shape, g: int, pages: nat)
    requires Layout(s) && g !in s.majors && Layout(AppendMajor(s, g, pages))
    ensures var s' := AppendMajor(s, g, pages);
      && s'.order == s.order + [g]
      && Weighs(s.order, Sizes(s')) && Weighs(s.order, Loads(s')) && Weighs([g], Sizes(s')) && Weighs([g], Loads(s'))
      && Sizes(s')[g] == pages * PAGE && Loads(s')[g] == 0
      && (forall i :: 0 <= i < |s.order| ==>
            Sizes(s')[s.order[i]] == Sizes(s)[s.order[i]] && Loads(s')[s.order[i]] == Loads(s)[s.order[i]])
  {
    hide Layout, LinkMajor, Weighs;
    var s' := AppendMajor(s, g, pages);
    Listed(s);
    Listed(s');
    LinkMajorEffect(s.majors, Nth(s.order, |s.order| - 1, 0), g, pages);
    assert Used(s'.minors, []) == 0;
    forall i | 0 <= i < |s.order|
      ensures s.order[i] in s.majors && Sizes(s')[s.order[i]] == Sizes(s)[s.order[i]]
          && Loads(s')[s.order[i]] == Loads(s)[s.order[i]]
    {
      assert s.order[i] in s.order;
    }
    WeighsAll(s.order, Sizes(s'));
    WeighsAll(s.order, Loads(s'));
    WeighsAll([g], Sizes(s'));
    WeighsAll([g], Loads(s'));
  }

  lemma DropLeaves(s: Shape, i: nat)
    requires Layout(s) && i < |s.order| && s.parts[s.order[i]] == [] && Layout(DropMajor(s, i))
    ensures var s' := DropMajor(s, i);
      && s'.order == Removed(s.order, i)
      && Weighs(s'.order, Sizes(s)) && Weighs(s'.order, Loads(s))
      && Sizes(s)[s.order[i]] == s.majors[s.order[i]].size
      && Loads(s)[s.order[i]] == 0
      && (forall j :: 0 <= j < |s'.order| ==>
            Sizes(s')[s'.order[j]] == Sizes(s)[s'.order[j]] && Loads(s')[s'.order[j]] == Loads(s)[s'.order[j]])
  {
    hide Layout, UnlinkMajor;
    Listed(s);
    Listed(DropMajor(s, i));
    DropMajorList(s, i);
    assert Used(s.minors, []) == 0;
  }

  lemma DropTotals(s: Shape, i: nat)
    requires Layout(s) && i < |s.order| && s.parts[s.order[i]] == [] && Layout(DropMajor(s, i))
    ensures var s' := DropMajor(s, i);
      Capacity(s') == Capacity(s) - s.majors[s.order[i]].size && InUse(s') == InUse(s)
  {
    hide Layout, DropMajor, Sizes, Loads;
    DropLeaves(s, i);
    var s' := DropMajor(s, i);
    Listed(s);
    Listed(s');
    TotalRemove(s.order, Sizes(s), i);
    TotalRemove(s.order, Loads(s), i);
    TotalFrame(s'.order, Sizes(s), Sizes(s'));
    TotalFrame(s'.order, Loads(s), Loads(s'));
  }

  // ---------------------------------------------------------------- changing a requested size

  ghost function Shrink(s: Shape, a: int, req: nat): Shape
    requires a in s.minors
  {
    s.(minors := s.minors[a := s.minors[a].(req := req)])
  }

  lemma ShrinkPart(s: Shape, a: int, req: nat, m: int)
    requires Layout(s) && a in s.minors && req <= s.minors[a].req && m == s.minors[a].block
    ensures m in s.majors && PartOk(m, s.majors[m], Shrink(s, a, req).minors, s.parts[m])
  {
    var ms, minors' := s.parts[m], Shrink(s, a, req).minors;
    PartOf(s, m);
    hide Layout;
    UsedFrame(s.minors, minors', ms);
    forall i | 0 <= i < |ms| ensures MinorNode(minors', ms, i) {
      assert MinorNode(s.minors, ms, i);
    }
    forall i | 0 <= i <= |ms| ensures GapOk(m, s.majors[m].size, minors', ms, i) {
      assert GapOk(m, s.majors[m].size, s.minors, ms, i);
    }
  }

  /** Lowering the requested size of one allocation changes nothing else. */
  lemma ShrinkKeepsLayout(s: Shape, a: int, req: nat)
    requires Layout(s) && a in s.minors && req <= s.minors[a].req
    ensures Layout(Shrink(s, a, req))
    ensures Capacity(Shrink(s, a, req)) == Capacity(s) && InUse(Shrink(s, a, req)) == InUse(s)
  {
    hide Layout, PartOk, MajorList, Capacity, InUse;
    var m, k := InMajor(s, a);
    PartOf(s, m);
    BelongsTo(s, m);
    ShrinkPart(s, a, req, m);
    EditOneMajor(s, Shrink(s, a, req), m);
    Listed(s);
    OneLoadChanged(s, Shrink(s, a, req), m, 0);
  }
}
