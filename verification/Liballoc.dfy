/** The kernel heap of src/mem/malloc.c: `malloc`, `free` and `realloc` over linked
  headers, with the page source as a parameter.  Each call that may need pages is
  given `grant`, the answer the page source would make if asked: null or a block
  that overlaps nothing held so far (the contract of src/mem/malloc.h:43-50). */
module Liballoc {
  import opened Basics
  import opened HeapLayout
  import opened Payloads

  /** How many pages a request for `size` bytes asks for. */
  function PagesFor(size: nat): (st: nat)
    ensures PAGE_COUNT <= st && size + MAJOR_HEADER + MINOR_HEADER <= st * PAGE
    ensures st == PAGE_COUNT || (st - 1) * PAGE < size + MAJOR_HEADER + MINOR_HEADER
  {
    var st := size + MAJOR_HEADER + MINOR_HEADER;
    var pages := if st % PAGE == 0 then st / PAGE else st / PAGE + 1;
    if pages < PAGE_COUNT then PAGE_COUNT else pages
  }

  /** Requests for which no size computed by the allocator reaches 2^32. */
  predicate Small(req: nat) {
    req + SLACK + MAJOR_HEADER + MINOR_HEADER + PAGE < ADDRESS_LIMIT
  }

  /** A C `int` made from an unsigned 32-bit value. */
  function AsInt(x: int): int {
    if x >= 0x8000_0000 then x - 0x1_0000_0000 else x
  }

  /** One more allocation, at header `a`: every other allocation keeps its header data and its bytes. */
  ghost predicate Added(minors: map<int, Minor>, mem: map<int, int>, minors': map<int, Minor>, mem': map<int, int>,
                        a: int, req: nat) {
    && a !in minors && minors'.Keys == minors.Keys + {a}
    && minors'[a].req == req && minors'[a].size == req + SLACK
    && Stamped(minors', mem')
    && (forall b :: b in minors ==> SameBlock(minors[b], minors'[b]))
    && Blocks(minors', mem') - {a} == Blocks(minors, mem)
  }

  /** One allocation fewer: every other allocation keeps its header data and its bytes. */
  ghost predicate Gone(minors: map<int, Minor>, minors': map<int, Minor>, mem: map<int, int>, a: int) {
    && a in minors && minors'.Keys == minors.Keys - {a}
    && (forall b :: b in minors' ==> SameBlock(minors[b], minors'[b]))
    && Blocks(minors', mem) == Blocks(minors, mem) - {a}
  }

  lemma BlocksPlusOne(minors: map<int, Minor>, mem: map<int, int>, minors': map<int, Minor>, mem': map<int, int>,
      a: int)
    requires a !in minors && minors'.Keys == minors.Keys + {a}
    requires forall b :: b in minors ==> minors'[b].req == minors[b].req
    requires forall b :: b in minors ==>
      BytesAt(mem', Pointer(b), minors[b].req) == BytesAt(mem, Pointer(b), minors[b].req)
    ensures Blocks(minors', mem') - {a} == Blocks(minors, mem)
  {
  }

  lemma LinkSteps(majors: map<int, Major>, last: int, g: int, pages: nat)
    requires g !in majors && (last != 0 ==> last in majors)
    ensures var m1 := majors[g := Major(0, 0, pages, pages * PAGE, MAJOR_HEADER, 0)];
      var m2 := if last == 0 then m1 else m1[last := m1[last].(next := g)];
      var m3 := if last == 0 then m1 else m2[g := m2[g].(prev := last)];
      m3 == LinkMajor(majors, last, g, pages)
  {
  }

  lemma StampNew(s: Shape, mem: map<int, int>, s': Shape, a: int, req: nat)
    requires Layout(s') && Stamped(s.minors, mem)
    requires a !in s.minors && s'.minors.Keys == s.minors.Keys + {a}
    requires s'.minors[a].req == req && s'.minors[a].size == req + SLACK
    requires forall b :: b in s.minors ==> SameBlock(s.minors[b], s'.minors[b])
    ensures var mem' := mem[Pointer(a) - ALIGN_INFO := Pointer(a) - (a + MINOR_HEADER)];
      Added(s.minors, mem, s'.minors, mem', a, req)
  {
    hide Layout;
    var mem' := mem[Pointer(a) - ALIGN_INFO := Pointer(a) - (a + MINOR_HEADER)];
    PayloadInside(s', a);
    WritesStayInside(s', a, mem, mem');
    BlocksPlusOne(s.minors, mem, s'.minors, mem', a);
  }

  /** The layout, the running totals and the stored distances all agree; the best bet may be null. */
  ghost predicate Agree(s: Shape, mem: map<int, int>, bestBet: int, held: int, inuse: int) {
    && Layout(s)
    && Stamped(s.minors, mem)
    && (bestBet == 0 || bestBet in s.majors)
    && held == Capacity(s)
    && inuse == InUse(s)
  }

  ghost predicate NoneEmpty(s: Shape) {
    s.parts.Keys == s.majors.Keys && forall m :: m in s.majors ==> s.parts[m] != []
  }

  lemma AppendAgrees(s: Shape, mem: map<int, int>, bestBet: int, held: int, inuse: int, g: int, pages: nat)
    requires Agree(s, mem, bestBet, held, inuse) && FreshBlock(s.majors, g, pages)
    ensures Layout(s) && g !in s.majors && g != 0
    ensures Nth(s.order, |s.order| - 1, 0) == 0 || Nth(s.order, |s.order| - 1, 0) in s.majors
    ensures s.root == 0 <==> Nth(s.order, |s.order| - 1, 0) == 0
    ensures Agree(AppendMajor(s, g, pages), mem, bestBet, held + pages * PAGE, inuse)
    ensures var s' := AppendMajor(s, g, pages);
      && s'.order == s.order + [g] && s'.minors == s.minors && s'.majors.Keys == s.majors.Keys + {g}
      && s'.majors[g] == Major(Nth(s.order, |s.order| - 1, 0), 0, pages, pages * PAGE, MAJOR_HEADER, 0)
      && s'.parts == s.parts[g := []]
  {
    FreshIsNew(s, g, pages);
    AppendKeepsLayout(s, g, pages);
    AppendTotals(s, g, pages);
    RootIsFirst(s);
    ApartOf(s);
    LinkMajorEffect(s.majors, Nth(s.order, |s.order| - 1, 0), g, pages);
  }

  lemma RootIsFirst(s: Shape)
    requires Layout(s)
    ensures s.root == Nth(s.order, 0, 0)
    ensures s.order == [] <==> s.root == 0
    ensures s.order == [] ==> s.majors == map[]
    ensures s.order == [] <==> Nth(s.order, |s.order| - 1, 0) == 0
  {
    if s.order != [] {
      var m, n := s.order[0], s.order[|s.order| - 1];
      assert m in s.majors && MajorOk(m, s.majors[m]);
      assert n in s.majors && MajorOk(n, s.majors[n]);
    } else {
      forall m ensures m !in s.majors {
        assert m in s.majors ==> m in s.order;
      }
    }
  }

  lemma InsertAgrees(s: Shape, mem: map<int, int>, bestBet: int, held: int, inuse: int,
                     m: int, k: nat, size: nat, req: nat)
    requires Agree(s, mem, bestBet, held, inuse) && m in s.majors && m in s.parts && k <= |s.parts[m]|
    requires Known(s.minors, s.parts[m]) && size + MINOR_HEADER <= Gap(s, m, k) && size == req + SLACK
    ensures Layout(s)
    ensures var s' := InsertAt(s, m, k, size, req);
      var a := Lo(m, s.minors, s.parts[m], k);
      var mem' := mem[Pointer(a) - ALIGN_INFO := Pointer(a) - (a + MINOR_HEADER)];
      && 0 < m + MAJOR_HEADER <= a
      && Agree(s', mem', bestBet, held, inuse + size)
      && Added(s.minors, mem, s'.minors, mem', a, req)
      && s'.majors.Keys == s.majors.Keys
  {
    hide Layout, LinkAround, Capacity, InUse, Stamped, Added;
    AgreeLayout(s, mem, bestBet, held, inuse);
    GapIsFree(s, m, k);
    InsertKeepsLayout(s, m, k, size, req);
    InsertTotals(s, m, k, size, req);
    StampNew(s, mem, InsertAt(s, m, k, size, req), Lo(m, s.minors, s.parts[m], k), req);
    var a := Lo(m, s.minors, s.parts[m], k);
    AddedStamps(s, mem, InsertAt(s, m, k, size, req), mem[Pointer(a) - ALIGN_INFO := Pointer(a) - (a + MINOR_HEADER)],
      a, req);
  }

  lemma AddedStamps(s: Shape, mem: map<int, int>, s': Shape, mem': map<int, int>, a: int, req: nat)
    requires Added(s.minors, mem, s'.minors, mem', a, req)
    ensures Stamped(s'.minors, mem')
  {
  }

  lemma AgreeLayout(s: Shape, mem: map<int, int>, bestBet: int, held: int, inuse: int)
    requires Agree(s, mem, bestBet, held, inuse)
    ensures Layout(s) && Stamped(s.minors, mem)
    ensures bestBet != 0 ==> bestBet in s.majors
    ensures forall b :: b in s.majors ==> Agree(s, mem, b, held, inuse)
  {
  }

  /** What the search reads from the header of the `i`-th major. */
  lemma MajorFacts(s: Shape, i: nat)
    requires Layout(s) && i < |s.order|
    ensures s.order[i] in s.majors && s.order[i] in s.parts
    ensures 0 < s.order[i]
    ensures s.majors[s.order[i]].next == Nth(s.order, i + 1, 0)
    ensures i + 1 < |s.order| <==> s.majors[s.order[i]].next != 0
    ensures s.majors[s.order[i]].first == Nth(s.parts[s.order[i]], 0, 0)
    ensures s.parts[s.order[i]] == [] <==> s.majors[s.order[i]].first == 0
    ensures Known(s.minors, s.parts[s.order[i]])
    ensures s.majors[s.order[i]].usage <= s.majors[s.order[i]].size
  {
    var m := s.order[i];
    assert m in s.majors && MajorNode(s.majors, s.order, i) && MajorOk(m, s.majors[m]);
    if i + 1 < |s.order| {
      var n := s.order[i + 1];
      assert n in s.majors && MajorOk(n, s.majors[n]);
    }
    PartOf(s, m);
    KnownNonNull(s, m);
    UsageInBounds(s, m);
  }

  /** What the search reads from the header of the `k`-th minor of `m`. */
  lemma MinorFacts(s: Shape, m: int, k: nat)
    requires Layout(s) && m in s.majors && m in s.parts && k < |s.parts[m]|
    ensures s.parts[m][k] in s.minors && 0 < s.parts[m][k]
    ensures s.minors[s.parts[m][k]].next == Nth(s.parts[m], k + 1, 0)
    ensures s.minors[s.parts[m][k]].prev == Nth(s.parts[m], k - 1, 0)
    ensures s.minors[s.parts[m][k]].block == m
    ensures k + 1 < |s.parts[m]| <==> s.minors[s.parts[m][k]].next != 0
    ensures k > 0 <==> s.minors[s.parts[m][k]].prev != 0
  {
    PartOf(s, m);
    KnownNonNull(s, m);
    var ms := s.parts[m];
    assert MinorNode(s.minors, ms, k);
    if k > 0 { assert 0 < ms[k - 1]; }
    if k + 1 < |ms| { assert 0 < ms[k + 1]; }
  }

  /** The first `n` majors of the list have no gap for `need` bytes. */
  ghost predicate TightUpTo(s: Shape, n: nat, need: int)
    requires Layout(s)
  {
    n <= |s.order| && forall i :: 0 <= i < n ==> s.order[i] in s.majors && Tight(s, s.order[i], need)
  }

  lemma TightNext(s: Shape, n: nat, need: int)
    requires Layout(s) && n < |s.order| && TightUpTo(s, n, need)
    requires s.order[n] in s.majors && Tight(s, s.order[n], need)
    ensures TightUpTo(s, n + 1, need)
    ensures n + 1 == |s.order| ==> NoRoom(s, need)
  {
    hide Tight;
    if n + 1 == |s.order| {
      forall m | m in s.majors ensures Tight(s, m, need) {
        var i :| 0 <= i < |s.order| && s.order[i] == m;
      }
    }
  }

  lemma FreeTight(s: Shape, m: int, need: int)
    requires Layout(s) && m in s.majors && s.majors[m].size - s.majors[m].usage < need
    ensures Tight(s, m, need)
  {
    hide Layout;
    PartOf(s, m);
    forall k | 0 <= k <= |s.parts[m]| ensures Gap(s, m, k) < need {
      FreeBound(s, m, k);
    }
  }

  /** A block just appended takes the request it was sized for. */
  lemma FreshGap(s: Shape, g: int, need: int)
    requires Layout(s) && g in s.majors && g in s.parts && s.parts[g] == []
    requires s.majors[g].size - MAJOR_HEADER >= need
    ensures Known(s.minors, s.parts[g]) && Gap(s, g, 0) >= need && Lo(g, s.minors, s.parts[g], 0) == g + MAJOR_HEADER
  {
  }

  lemma NotTight(s: Shape, m: int, k: nat, need: int)
    requires Layout(s) && m in s.majors && m in s.parts && k <= |s.parts[m]| && Gap(s, m, k) >= need
    ensures !Tight(s, m, need)
  {
  }

  lemma SomeRoom(s: Shape, m: int, need: int)
    requires Layout(s) && m in s.majors && !Tight(s, m, need)
    ensures !NoRoom(s, need)
  {
  }

  lemma Ends(s: Shape, m: int)
    requires Layout(s) && m in s.majors
    ensures m in s.parts && Known(s.minors, s.parts[m])
    ensures s.majors[m].first == Nth(s.parts[m], 0, 0)
    ensures s.parts[m] == [] <==> s.majors[m].first == 0
    ensures s.parts[m] != [] ==> s.parts[m][0] in s.minors && Gap(s, m, 0) == s.majors[m].first - m - MAJOR_HEADER
    ensures Lo(m, s.minors, s.parts[m], 0) == m + MAJOR_HEADER
    ensures MAJOR_HEADER <= s.majors[m].usage
  {
    PartOf(s, m);
    KnownNonNull(s, m);
    UsageInBounds(s, m);
  }

  lemma AfterMinor(s: Shape, m: int, k: nat)
    requires Layout(s) && m in s.majors && m in s.parts && 0 < k <= |s.parts[m]|
    ensures Known(s.minors, s.parts[m])
    ensures var min := s.parts[m][k - 1];
      && min != 0 && min == Nth(s.parts[m], k - 1, 0)
      && s.minors[min].next == Nth(s.parts[m], k, 0)
      && (s.minors[min].next != 0 ==> s.minors[min].next in s.minors)
      && Lo(m, s.minors, s.parts[m], k) == min + MINOR_HEADER + s.minors[min].size
  {
    MinorFacts(s, m, k - 1);
    if k < |s.parts[m]| { MinorFacts(s, m, k); }
  }

  lemma InsertNoneEmpty(s: Shape, m: int, k: nat, size: nat, req: nat)
    requires Layout(s) && m in s.majors && m in s.parts && k <= |s.parts[m]|
    requires OthersFull(s, m)
    ensures NoneEmpty(InsertAt(s, m, k, size, req))
  {
    hide Layout;
  }

  ghost predicate OthersFull(s: Shape, m: int) {
    s.parts.Keys == s.majors.Keys && forall n :: n in s.majors && n != m ==> s.parts[n] != []
  }

  lemma AppendOthersFull(s: Shape, g: int, pages: nat)
    requires Layout(s) && NoneEmpty(s) && g !in s.majors
    ensures OthersFull(AppendMajor(s, g, pages), g)
  {
    hide Layout;
    ApartOf(s);
    LinkMajorEffect(s.majors, Nth(s.order, |s.order| - 1, 0), g, pages);
  }

  lemma FullIsNonEmpty(s: Shape, m: int)
    requires NoneEmpty(s) && m in s.majors
    ensures OthersFull(s, m) && m in s.parts && s.parts[m] != []
  {
  }

  lemma TightNone(s: Shape, need: int)
    requires Layout(s)
    ensures TightUpTo(s, 0, need)
  {
  }

  lemma IndexOf(s: Shape, m: int) returns (i: nat)
    requires Layout(s) && m in s.majors
    ensures i < |s.order| && s.order[i] == m
  {
    i :| 0 <= i < |s.order| && s.order[i] == m;
  }

  lemma AddedIsNew(minors: map<int, Minor>, mem: map<int, int>, minors': map<int, Minor>, mem': map<int, int>, a: int,
      req: nat)
    requires Added(minors, mem, minors', mem', a, req)
    ensures a !in minors && a in minors'
  {
  }

  /** Free bytes of a major, as its header counts them; null has none. */
  ghost function FreeOf(s: Shape, m: int): int {
    if m in s.majors then s.majors[m].size - s.majors[m].usage else 0
  }

  /** The allocation went into gap `k` of `m`, the first one that takes it. */
  ghost predicate FirstGap(s: Shape, s': Shape, m: int, k: nat, size: nat, req: nat) {
    && Layout(s) && m in s.majors && k <= |s.parts[m]| && size + MINOR_HEADER <= Gap(s, m, k)
    && (forall j :: 0 <= j < k ==> Gap(s, m, j) < size + MINOR_HEADER)
    && s' == InsertAt(s, m, k, size, req)
  }

  /** The majors before the `i`-th in the order in which the search takes them: from the `from`-th on, and if that was
      the best bet, from the root once more. */
  predicate Before(bet: bool, startedBet: bool, from: nat, i: nat, j: nat) {
    if startedBet then from <= j < i else j < i || (bet && from <= j)
  }

  /** None of the majors before the `i`-th has a gap for `need` bytes, nor more free bytes than `best`. */
  ghost predicate Passed(s: Shape, bet: bool, startedBet: bool, from: nat, i: nat, need: int, best: int) {
    && Layout(s) && (startedBet ==> bet && from <= i)
    && forall j: nat :: j < |s.order| && Before(bet, startedBet, from, i, j) ==> PassedBy(s, j, need, best)
  }

  ghost predicate PassedBy(s: Shape, j: nat, need: int, best: int)
    requires Layout(s) && j < |s.order|
  {
    s.order[j] in s.majors && Tight(s, s.order[j], need) && FreeOf(s, s.order[j]) <= FreeOf(s, best)
  }

  /** No major of the list has more free bytes than `best`. */
  ghost predicate BestOf(s: Shape, order: seq<int>, best: int) {
    forall m :: m in order ==> FreeOf(s, m) <= FreeOf(s, best)
  }

  lemma PassedNext(s: Shape, bet: bool, startedBet: bool, from: nat, i: nat, need: int, best: int)
    requires Passed(s, bet, startedBet, from, i, need, best) && i < |s.order| && PassedBy(s, i, need, best)
    ensures Passed(s, bet, startedBet, from, i + 1, need, best)
    ensures startedBet && i + 1 == |s.order| ==> Passed(s, bet, false, from, 0, need, best)
    ensures !startedBet && i + 1 == |s.order| ==> BestOf(s, s.order, best)
  {
    hide Layout, PassedBy;
    if !startedBet && i + 1 == |s.order| {
      forall m | m in s.order ensures FreeOf(s, m) <= FreeOf(s, best) {
        var j :| 0 <= j < |s.order| && s.order[j] == m;
        assert PassedBy(s, j, need, best);
        PassedFree(s, j, need, best);
      }
    }
  }

  lemma PassedFree(s: Shape, j: nat, need: int, best: int)
    requires Layout(s) && j < |s.order| && PassedBy(s, j, need, best)
    ensures Tight(s, s.order[j], need) && FreeOf(s, s.order[j]) <= FreeOf(s, best)
  {
  }

  lemma PassedBetter(s: Shape, bet: bool, startedBet: bool, from: nat, i: nat, need: int, best: int, best': int)
    requires Passed(s, bet, startedBet, from, i, need, best) && FreeOf(s, best) <= FreeOf(s, best')
    ensures Passed(s, bet, startedBet, from, i, need, best')
  {
    hide Layout, Tight;
  }

  lemma PassedNone(s: Shape, bet: bool, from: nat, need: int, best: int)
    requires Layout(s) && (!bet ==> from == 0)
    ensures Passed(s, bet, bet, from, from, need, best)
  {
    hide Layout;
  }

  /** Pages at the end of the list change no older major's free bytes. */
  lemma AppendBest(s: Shape, g: int, pages: nat, best: int)
    requires Layout(s) && g !in s.majors && (best == 0 || best in s.majors) && BestOf(s, s.order, best)
    requires g != 0
    ensures FreeOf(AppendMajor(s, g, pages), best) == FreeOf(s, best)
    ensures BestOf(AppendMajor(s, g, pages), s.order, best)
  {
    hide Layout, LinkMajor;
    ApartOf(s);
    NoneAtNull(s);
    LinkMajorEffect(s.majors, Nth(s.order, |s.order| - 1, 0), g, pages);
    Listed(s);
  }

  lemma NoneAtNull(s: Shape)
    requires Layout(s)
    ensures 0 !in s.majors
  {
    assert 0 in s.majors ==> MajorOk(0, s.majors[0]);
  }

  /** Where an allocation went: into the first fitting gap of the first fitting major, in the order of the search; or,
      after no major of the list had one, into the pages that were asked for.  `best` is then the best bet: of the
      majors looked at, none has more free bytes. */
  ghost predicate FirstFit(s0: Shape, s': Shape, bet: bool, from: nat, at: nat, k: nat, asked: bool, grant: int,
      size: nat, req: nat, best: int) {
    && Layout(s0)
    && if asked then
         && grant !in s0.majors && at == |s0.order|
         && var s := AppendMajor(s0, grant, PagesFor(size));
         FirstGap(s, s', grant, k, size, req) && BestOf(s, s0.order, best)
       else
         && at < |s0.order| && FirstGap(s0, s', s0.order[at], k, size, req)
         && Passed(s0, bet, bet && from <= at, from, at, size + MINOR_HEADER, best)
         && FreeOf(s0, s0.order[at]) <= FreeOf(s0, best)
  }

  lemma FitsFirst(s0: Shape, s: Shape, s': Shape, asked: bool, bet: bool, startedBet: bool, from: nat, i: nat, k: nat,
      size: nat, req: nat, grant: int, best: int)
    requires Searching(s0, s, asked, startedBet, i, size + MINOR_HEADER, grant, PagesFor(size))
    requires FirstGap(s, s', s.order[i], k, size, req)
    requires if asked then BestOf(s, s0.order, best)
             else FreeOf(s0, s0.order[i]) <= FreeOf(s0, best)
                  && Passed(s0, bet, startedBet, from, i, size + MINOR_HEADER, best)
    ensures FirstFit(s0, s', bet, from, i, k, asked, grant, size, req, best)
  {
    hide Layout, NoneEmpty, NoRoom, FreshBlock, FreeOf, PagesFor, Gap, InsertAt, LinkMajor;
    if !asked && !startedBet {
      StillAhead(s, s', bet, from, i, k, size, req, best);
    }
  }

  /** In the second round a fitting major stands before the one that the first round began with. */
  lemma StillAhead(s: Shape, s': Shape, bet: bool, from: nat, i: nat, k: nat, size: nat, req: nat, best: int)
    requires Passed(s, bet, false, from, i, size + MINOR_HEADER, best) && i < |s.order|
    requires FirstGap(s, s', s.order[i], k, size, req)
    ensures !(bet && from <= i)
  {
    hide Layout, Gap, InsertAt, FreeOf;
    PassedAt(s, bet, from, i, size + MINOR_HEADER, best);
  }

  lemma PassedAt(s: Shape, bet: bool, from: nat, i: nat, need: int, best: int)
    requires Passed(s, bet, false, from, i, need, best) && i < |s.order|
    ensures bet && from <= i ==> s.order[i] in s.majors && Tight(s, s.order[i], need)
  {
    hide Layout, Tight, FreeOf;
    assert Before(bet, false, from, i, i) <==> bet && from <= i;
  }

  /** What the search knows of the majors it has looked at. */
  ghost predicate Looked(s0: Shape, s: Shape, asked: bool, bet: bool, startedBet: bool, from: nat, i: nat, need: int,
      best: int) {
    if asked then BestOf(s, s0.order, best) else Passed(s0, bet, startedBet, from, i, need, best)
  }

  lemma LookedBetter(s0: Shape, s: Shape, asked: bool, bet: bool, startedBet: bool, from: nat, i: nat, need: int,
      best: int, best': int)
    requires Looked(s0, s, asked, bet, startedBet, from, i, need, best) && FreeOf(s, best) <= FreeOf(s, best')
    requires !asked ==> s == s0
    ensures Looked(s0, s, asked, bet, startedBet, from, i, need, best')
  {
    hide Passed, FreeOf;
    if !asked {
      PassedBetter(s0, bet, startedBet, from, i, need, best, best');
    }
  }

  lemma FreeIs(s: Shape, m: int)
    requires m in s.majors
    ensures FreeOf(s, m) == s.majors[m].size - s.majors[m].usage
  {
  }

  /** Where a major stands in the list. */
  function Index(order: seq<int>, m: int): (i: nat)
    ensures m in order ==> i < |order| && order[i] == m
  {
    if order == [] || order[0] == m then 0 else 1 + Index(order[1..], m)
  }

  lemma IndexIs(s: Shape, m: int)
    requires Layout(s) && m in s.majors
    ensures m in s.order
  {
  }

  /** Before the search the best bet is nothing or a major of the list; if there is no list yet, it is nothing. */
  lemma BetFacts(s0: Shape, s: Shape, best: int, grown: bool)
    requires Layout(s0) && (best == 0 || best in s.majors) && (grown ==> s0.majors == map[] && s0.order == [])
    requires best == 0 || best in s0.majors
    requires Layout(s) && (!grown ==> s == s0)
    ensures best == 0 ==> FreeOf(s, best) == FreeOf(s0, best) == 0
    ensures best != 0 ==> !grown && FreeOf(s0, best) == s0.majors[best].size - s0.majors[best].usage
    ensures grown ==> BestOf(s, s0.order, best)
  {
    NoneAtNull(s);
    NoneAtNull(s0);
  }

  /** What the search knows when it looks at the `i`-th major: the list is the original one, or that
      list with one fresh major at its end once every original gap was found too small. */
  ghost predicate Searching(s0: Shape, s: Shape, asked: bool, startedBet: bool, i: nat,
                            need: int, grant: int, pages: nat) {
    && Layout(s0) && Layout(s) && NoneEmpty(s0) && i < |s.order|
    && (!asked ==> s == s0)
    && (asked ==> !startedBet && grant != 0 && FreshBlock(s0.majors, grant, pages) && grant !in s0.majors
                  && s == AppendMajor(s0, grant, pages) && NoRoom(s0, need) && i + 1 == |s.order|
                  && pages * PAGE - MAJOR_HEADER >= need)
    && (!asked && !startedBet ==> TightUpTo(s0, i, need))
  }

  lemma SearchingFacts(s0: Shape, s: Shape, asked: bool, startedBet: bool, i: nat, need: int, grant: int, pages: nat)
    requires Searching(s0, s, asked, startedBet, i, need, grant, pages)
    ensures Layout(s0) && Layout(s) && i < |s.order|
    ensures s.order[i] in s.majors && 0 < s.order[i]
    ensures s.majors[s.order[i]].next == Nth(s.order, i + 1, 0)
    ensures i + 1 < |s.order| <==> s.majors[s.order[i]].next != 0
    ensures asked ==> need <= s.majors[s.order[i]].size - s.majors[s.order[i]].usage
    ensures !asked ==> s == s0
  {
    hide AppendMajor, FreshBlock, NoRoom, TightUpTo, Layout, NoneEmpty;
    MajorFacts(s, i);
    if asked { FreshLast(s0, s, need, grant, pages); }
  }

  lemma FreshLast(s0: Shape, s: Shape, need: int, grant: int, pages: nat)
    requires Layout(s0) && NoneEmpty(s0) && grant !in s0.majors && FreshBlock(s0.majors, grant, pages)
    requires s == AppendMajor(s0, grant, pages) && Layout(s)
    requires pages * PAGE - MAJOR_HEADER >= need
    ensures |s.order| == |s0.order| + 1 && s.order[|s0.order|] == grant
    ensures grant in s.majors && !Tight(s, grant, need) && OthersFull(s, grant)
    ensures need <= s.majors[grant].size - s.majors[grant].usage
    ensures s.minors == s0.minors && s.majors.Keys == s0.majors.Keys + {grant}
  {
    hide Layout, NoneEmpty, OthersFull, Tight;
    AppendOthersFull(s0, grant, pages);
    ApartOf(s0);
    LinkMajorEffect(s0.majors, Nth(s0.order, |s0.order| - 1, 0), grant, pages);
    FreshGap(s, grant, need);
    NotTight(s, grant, 0, need);
  }

  /** A major without a fitting gap: hop on, restart from the root, or ask for pages. */
  lemma FullMajor(s0: Shape, s: Shape, asked: bool, startedBet: bool, i: nat, need: int, grant: int, pages: nat)
    requires Searching(s0, s, asked, startedBet, i, need, grant, pages)
    requires s.order[i] in s.majors && Layout(s) && Tight(s, s.order[i], need)
    requires grant != 0 ==> FreshBlock(s0.majors, grant, pages) && pages * PAGE - MAJOR_HEADER >= need
    ensures !asked && s == s0 && i < |s.order|
    ensures s.majors[s.order[i]].next != 0 ==> i + 1 < |s.order| && s.order[i + 1] == s.majors[s.order[i]].next
    ensures s.majors[s.order[i]].next != 0 ==> Searching(s0, s, asked, startedBet, i + 1, need, grant, pages)
    ensures startedBet ==> Searching(s0, s, asked, false, 0, need, grant, pages)
    ensures s.root == s.order[0] && s.root != 0
    ensures s.majors[s.order[i]].next == 0 ==> i + 1 == |s.order| && s.order[i] == Nth(s.order, |s.order| - 1, 0)
    ensures !startedBet && s.majors[s.order[i]].next == 0 ==> NoRoom(s0, need)
    ensures !startedBet && s.majors[s.order[i]].next == 0 && grant != 0 ==>
      && grant !in s0.majors && AppendMajor(s0, grant, pages).order == s0.order + [grant]
      && Searching(s0, AppendMajor(s0, grant, pages), true, startedBet, i + 1, need, grant, pages)
  {
    hide Layout, NoneEmpty, OthersFull, Tight, FreshBlock, AppendMajor, NoRoom, TightUpTo;
    if asked {
      FreshLast(s0, s, need, grant, pages);
      assert false;
    }
    MajorFacts(s, i);
    MajorFacts(s, 0);
    RootIsFirst(s);
    TightNone(s0, need);
    if !startedBet { TightNext(s0, i, need); }
    if grant != 0 {
      FreshIsNew(s0, grant, pages);
      AppendKeepsLayout(s0, grant, pages);
      AppendOrder(s0, grant, pages);
    }
  }

  lemma AppendOrder(s: Shape, g: int, pages: nat)
    requires Layout(s) && g !in s.majors
    ensures AppendMajor(s, g, pages).order == s.order + [g]
  {
    hide Layout, LinkMajor;
    ApartOf(s);
  }

  lemma FoundMajor(s0: Shape, s: Shape, asked: bool, startedBet: bool, i: nat, need: int, grant: int, pages: nat)
    requires Searching(s0, s, asked, startedBet, i, need, grant, pages)
    requires s.order[i] in s.majors && Layout(s) && !Tight(s, s.order[i], need)
    ensures asked <==> NoRoom(s0, need)
    ensures asked ==> grant != 0
    ensures s.minors == s0.minors && s.majors.Keys == s0.majors.Keys + (if asked && grant != 0 then {grant} else {})
    ensures OthersFull(s, s.order[i])
  {
    hide Layout, NoneEmpty, OthersFull, Tight, FreshBlock, AppendMajor, NoRoom, TightUpTo;
    if asked {
      FreshLast(s0, s, need, grant, pages);
    } else {
      SomeRoom(s0, s.order[i], need);
      FullIsNonEmpty(s0, s.order[i]);
    }
  }

  lemma SearchingFromRoot(s0: Shape, s: Shape, asked: bool, need: int, grant: int, pages: nat)
    requires Layout(s0) && Layout(s) && NoneEmpty(s0)
    requires pages * PAGE - MAJOR_HEADER >= need
    requires if asked
      then s0.root == 0 && NoRoom(s0, need) && grant != 0 && FreshBlock(s0.majors, grant, pages)
        && grant !in s0.majors && s == AppendMajor(s0, grant, pages)
      else s == s0 && s.root != 0
    ensures |s.order| > 0 && s.order[0] == s.root
    ensures Searching(s0, s, asked, false, 0, need, grant, pages)
  {
    hide Layout;
    TightNone(s0, need);
    RootIsFirst(s0);
    RootIsFirst(s);
    if asked { AppendOrder(s0, grant, pages); }
  }

  lemma SearchingFromBet(s0: Shape, s: Shape, asked: bool, i: nat, need: int, grant: int, pages: nat)
    requires Searching(s0, s, asked, false, 0, need, grant, pages) && i < |s.order|
    requires !asked
    ensures Searching(s0, s, asked, true, i, need, grant, pages)
  {
  }

  lemma RemoveAgrees(s: Shape, mem: map<int, int>, bestBet: int, held: int, inuse: int, m: int, k: nat)
    requires Agree(s, mem, bestBet, held, inuse) && m in s.majors && m in s.parts && k < |s.parts[m]|
    ensures Layout(s) && s.parts[m][k] in s.minors
    ensures var a := s.parts[m][k]; var x := s.minors[a]; var s' := RemoveAt(s, m, k);
      && Agree(s', mem, bestBet, held, inuse - x.size)
      && Gone(s.minors, s'.minors, mem, a)
      && s'.majors.Keys == s.majors.Keys
      && x.size + MINOR_HEADER <= s.majors[m].usage
      && (x.prev == 0 <==> k == 0) && x.next == Nth(s.parts[m], k + 1, 0)
      && (x.prev != 0 ==> x.prev in s.minors) && (x.next != 0 ==> x.next in s.minors)
  {
    hide Layout, UnlinkAround, Capacity, InUse;
    AgreeLayout(s, mem, bestBet, held, inuse);
    MinorFacts(s, m, k);
    if k > 0 { MinorFacts(s, m, k - 1); }
    if k + 1 < |s.parts[m]| { MinorFacts(s, m, k + 1); }
    UsedPositive(s, m, k);
    RemoveKeepsLayout(s, m, k);
    RemoveTotals(s, m, k);
    BlocksMinusOne(s.minors, RemoveAt(s, m, k).minors, mem, s.parts[m][k]);
  }

  lemma BlocksMinusOne(minors: map<int, Minor>, minors': map<int, Minor>, mem: map<int, int>, a: int)
    requires a in minors && minors'.Keys == minors.Keys - {a}
    requires forall b :: b in minors' ==> SameBlock(minors[b], minors'[b])
    ensures Gone(minors, minors', mem, a)
    ensures Stamped(minors, mem) ==> Stamped(minors', mem)
  {
  }

  lemma DropAgrees(s: Shape, mem: map<int, int>, bestBet: int, held: int, inuse: int, i: nat)
    requires Agree(s, mem, bestBet, held, inuse) && i < |s.order| && s.order[i] in s.majors
    requires s.order[i] in s.parts && s.parts[s.order[i]] == []
    ensures Layout(s)
    ensures var m := s.order[i]; var x := s.majors[m]; var s' := DropMajor(s, i);
      && Agree(s', mem, if bestBet == m then 0 else bestBet, held - x.size, inuse)
      && s'.majors.Keys == s.majors.Keys - {m}
      && (x.prev != 0 ==> x.prev in s.majors) && (x.next != 0 ==> x.next in s.majors)
  {
    hide Layout, UnlinkMajor, Capacity, InUse;
    AgreeLayout(s, mem, bestBet, held, inuse);
    MajorNeighbours(s, i);
    DropKeepsLayout(s, i);
    DropTotals(s, i);
    DropMajorList(s, i);
  }

  lemma MajorNeighbours(s: Shape, i: nat)
    requires Layout(s) && i < |s.order| && s.order[i] in s.majors
    ensures s.majors[s.order[i]].prev != 0 ==> s.majors[s.order[i]].prev in s.majors
    ensures s.majors[s.order[i]].next != 0 ==> s.majors[s.order[i]].next in s.majors
  {
    assert MajorNode(s.majors, s.order, i);
  }

  /** `a` is the only allocation of its block. */
  ghost predicate OnlyOne(s: Shape, a: int) {
    a in s.minors && s.minors[a].block in s.parts && s.parts[s.minors[a].block] == [a]
  }

  lemma AfterRemove(s: Shape, m: int, k: nat)
    requires Layout(s) && NoneEmpty(s) && m in s.majors && m in s.parts && k < |s.parts[m]|
    ensures var s' := RemoveAt(s, m, k);
      && OthersFull(s', m) && m in s'.parts
      && (s'.parts[m] != [] ==> NoneEmpty(s'))
      && (s'.parts[m] == [] <==> OnlyOne(s, s.parts[m][k]))
      && s'.minors.Keys <= s.minors.Keys
  {
    hide Layout;
    MinorFacts(s, m, k);
    PartOf(s, m);
    RemoveEdit(s, m, k);
    var ms := s.parts[m];
    if |ms| == 1 { assert ms == [ms[k]]; }
  }

  lemma AfterDrop(s: Shape, i: nat)
    requires Layout(s) && i < |s.order| && s.order[i] in s.majors && s.order[i] in s.parts && s.parts[s.order[i]] == []
    requires OthersFull(s, s.order[i])
    ensures NoneEmpty(DropMajor(s, i)) && DropMajor(s, i).minors == s.minors && s.order[i] > 0
  {
    hide Layout, UnlinkMajor;
    MajorFacts(s, i);
    DropMajorList(s, i);
  }

  lemma WriteInside(s: Shape, mem: map<int, int>, a: int, k: nat, v: int)
    requires Layout(s) && Stamped(s.minors, mem) && a in s.minors && k < s.minors[a].req
    ensures var mem' := mem[Pointer(a) + k := v];
      && a in Blocks(s.minors, mem) && |Blocks(s.minors, mem)[a]| == s.minors[a].req
      && Stamped(s.minors, mem') && HeaderOf(mem', Pointer(a)) == HeaderOf(mem, Pointer(a))
      && Blocks(s.minors, mem') == Blocks(s.minors, mem)[a := Blocks(s.minors, mem)[a][k := v]]
  {
    hide Layout;
    var mem' := mem[Pointer(a) + k := v];
    PayloadInside(s, a);
    WritesStayInside(s, a, mem, mem');
    assert BytesAt(mem', Pointer(a), s.minors[a].req) == BytesAt(mem, Pointer(a), s.minors[a].req)[k := v];
  }

  lemma WriteAgrees(s: Shape, mem: map<int, int>, mem': map<int, int>, bestBet: int, held: int, inuse: int)
    requires Agree(s, mem, bestBet, held, inuse) && Stamped(s.minors, mem')
    ensures Agree(s, mem', bestBet, held, inuse)
  {
  }

  /** The first `n` bytes at `src` have been copied to `dst`; nothing else changed. */
  ghost predicate Copied(mem: map<int, int>, mem': map<int, int>, dst: int, src: int, n: nat) {
    && (forall x :: dst <= x < dst + n ==> ByteAt(mem', x) == ByteAt(mem, src + (x - dst)))
    && (forall x :: !(dst <= x < dst + n) ==> ByteAt(mem', x) == ByteAt(mem, x))
  }

  lemma CopyMore(mem0: map<int, int>, mem: map<int, int>, mem': map<int, int>, dst: int, src: int, n: nat, done: nat,
      k: nat)
    requires dst + n <= src || src + n <= dst
    requires Copied(mem0, mem, dst, src, done) && done + k <= n
    requires BytesAt(mem', dst + done, k) == BytesAt(mem, src + done, k)
    requires forall x :: !(dst + done <= x < dst + done + k) ==> ByteAt(mem', x) == ByteAt(mem, x)
    ensures Copied(mem0, mem', dst, src, done + k)
  {
    forall x | dst <= x < dst + done + k ensures ByteAt(mem', x) == ByteAt(mem0, src + (x - dst)) {
      if x >= dst + done {
        var j := x - dst - done;
        assert BytesAt(mem', dst + done, k)[j] == ByteAt(mem', x);
        assert BytesAt(mem, src + done, k)[j] == ByteAt(mem, src + (x - dst));
      }
    }
  }

  lemma CopiedNone(mem: map<int, int>, dst: int, src: int)
    ensures Copied(mem, mem, dst, src, 0)
  {
  }

  lemma CopiedBytes(mem: map<int, int>, mem': map<int, int>, dst: int, src: int, n: nat)
    requires Copied(mem, mem', dst, src, n)
    ensures BytesAt(mem', dst, n) == BytesAt(mem, src, n)
    ensures forall x :: !(dst <= x < dst + n) ==> ByteAt(mem', x) == ByteAt(mem, x)
  {
    var r, r' := BytesAt(mem, src, n), BytesAt(mem', dst, n);
    forall i | 0 <= i < n ensures r'[i] == r[i] {
      var x := dst + i;
      assert ByteAt(mem', x) == ByteAt(mem, src + (x - dst));
    }
  }

  /** Allocation `a` has become allocation `b`: its bytes are a prefix of the new ones, all else is kept. */
  ghost predicate Grown(minors: map<int, Minor>, mem: map<int, int>, minors': map<int, Minor>, mem': map<int, int>,
                        a: int, b: int, req: nat) {
    && a in minors && b !in minors && minors[a].req <= req
    && minors'.Keys == minors.Keys - {a} + {b}
    && minors'[b].req == req && minors'[b].size == req + SLACK
    && (forall c :: c in minors && c != a ==> SameBlock(minors[c], minors'[c]))
    && Blocks(minors', mem') - {b} == Blocks(minors, mem) - {a}
    && Blocks(minors', mem')[b][..minors[a].req] == Blocks(minors, mem)[a]
  }

  /** An older allocation stays live when another one is added. */
  lemma AddedLive(minors: map<int, Minor>, mem: map<int, int>, minors': map<int, Minor>, mem': map<int, int>,
                  b: int, req: nat, a: int)
    requires Added(minors, mem, minors', mem', b, req) && a in minors
    ensures a in minors' && a != b && b in minors' && minors'[b].req == req && minors'[a].req == minors[a].req
    ensures minors'[a].size == minors[a].size
    ensures HeaderOf(mem', Pointer(a)) == a && HeaderOf(mem', Pointer(b)) == b
    ensures BytesAt(mem', Pointer(a), minors[a].req) == BytesAt(mem, Pointer(a), minors[a].req)
  {
    UnalignRecovers(minors', mem', a);
    UnalignRecovers(minors', mem', b);
    assert Blocks(minors, mem)[a] == (Blocks(minors', mem') - {b})[a];
  }

  /** Copying the bytes of `a` into `b` leaves every stored distance and every other block alone. */
  lemma CopyInto(s: Shape, mem: map<int, int>, mem': map<int, int>, a: int, b: int, n: nat)
    requires Layout(s) && Stamped(s.minors, mem) && a in s.minors && b in s.minors && a != b
    requires n == s.minors[a].req <= s.minors[b].req
    requires forall x :: !(Pointer(b) <= x < Pointer(b) + n) ==> ByteAt(mem', x) == ByteAt(mem, x)
    ensures Stamped(s.minors, mem') && Blocks(s.minors, mem') - {b} == Blocks(s.minors, mem) - {b}
    ensures HeaderOf(mem', Pointer(a)) == HeaderOf(mem, Pointer(a))
        && HeaderOf(mem', Pointer(b)) == HeaderOf(mem, Pointer(b))
    ensures BytesAt(mem', Pointer(a), n) == BytesAt(mem, Pointer(a), n)
  {
    hide Layout;
    PayloadInside(s, b);
    WritesStayInside(s, b, mem, mem');
    UnalignRecovers(s.minors, mem', a);
    UnalignRecovers(s.minors, mem', b);
    UnalignRecovers(s.minors, mem, a);
    UnalignRecovers(s.minors, mem, b);
    var m, m' := Blocks(s.minors, mem), Blocks(s.minors, mem');
    assert m'.Keys == m.Keys && forall c :: c in m && c != b ==> m'[c] == m[c];
  }

  lemma AddedBlocks(minors: map<int, Minor>, mem: map<int, int>, minors': map<int, Minor>, mem': map<int, int>,
      b: int, req: nat)
    requires Added(minors, mem, minors', mem', b, req)
    ensures b !in minors && minors'.Keys == minors.Keys + {b} && Blocks(minors', mem') - {b} == Blocks(minors, mem)
    ensures minors'[b].size == req + SLACK && forall c :: c in minors ==> SameBlock(minors[c], minors'[c])
  {
  }

  lemma LiveNonNull(s: Shape, a: int)
    requires Layout(s) && a in s.minors
    ensures Pointer(a) != 0
  {
    hide Layout, Pointer;
    var m, k := InMajor(s, a);
    PartOf(s, m);
    MinorFacts(s, m, k);
    PointerPositive(a);
  }

  /** `realloc` to a smaller size keeps the heap valid and truncates one block. */
  lemma ShrinkAgrees(s: Shape, mem: map<int, int>, bestBet: int, held: int, inuse: int, a: int, req: nat)
    requires Agree(s, mem, bestBet, held, inuse) && a in s.minors && req <= s.minors[a].req
    ensures Agree(Shrink(s, a, req), mem, bestBet, held, inuse)
    ensures NoneEmpty(s) ==> NoneEmpty(Shrink(s, a, req))
    ensures Blocks(Shrink(s, a, req).minors, mem) == Blocks(s.minors, mem)[a := Blocks(s.minors, mem)[a][..req]]
  {
    hide Layout, Capacity, InUse;
    ShrinkKeepsLayout(s, a, req);
    assert BytesAt(mem, Pointer(a), req) == BytesAt(mem, Pointer(a), s.minors[a].req)[..req];
  }

  lemma GrowDone(minors0: map<int, Minor>, mem0: map<int, int>, minors: map<int, Minor>, mem: map<int, int>,
                 minors': map<int, Minor>, a: int, b: int, req: nat)
    requires a in minors0 && b !in minors0 && minors.Keys == minors0.Keys + {b}
    requires minors[b].req == req && minors[b].size == req + SLACK && minors0[a].req <= req
    requires forall c :: c in minors0 ==> SameBlock(minors0[c], minors[c])
    requires Blocks(minors, mem) - {b} == Blocks(minors0, mem0)
    requires BytesAt(mem, Pointer(b), minors0[a].req) == BytesAt(mem, Pointer(a), minors0[a].req)
    requires Gone(minors, minors', mem, a)
    ensures Grown(minors0, mem0, minors', mem, a, b, req)
  {
    var m0, m, m' := Blocks(minors0, mem0), Blocks(minors, mem), Blocks(minors', mem);
    assert m'[b] == m[b] && m[b][..minors0[a].req] == BytesAt(mem, Pointer(b), minors0[a].req);
    assert m0[a] == (m - {b})[a] == m[a];
  }

  lemma NoRoomInNothing(s: Shape, need: int)
    requires Layout(s) && s.majors == map[]
    ensures NoRoom(s, need)
  {
  }

  lemma PointerPositive(a: int)
    requires 0 < a
    ensures Pointer(a) > 0 && Pointer(a) == Payload(a + MINOR_HEADER)
  {
  }

  class Heap {
    var majors: map<int, Major>
    var minors: map<int, Minor>
    var memRoot: int
    var bestBet: int
    var held: int
    var inuse: int
    var mem: map<int, int>
    ghost var order: seq<int>
    ghost var parts: map<int, seq<int>>

    ghost function View(): Shape
      reads this
    {
      Shape(majors, minors, memRoot, order, parts)
    }

    /** The caller-visible bytes: for each allocation, keyed by header address, its requested bytes. */
    ghost function Contents(): map<int, seq<int>>
      reads this
    {
      Blocks(minors, mem)
    }

    ghost predicate Consistent()
      reads this
    {
      Agree(View(), mem, bestBet, held, inuse)
    }

    ghost predicate Valid()
      reads this
    {
      Consistent() && NoneEmpty(View())
    }

    /** `p` is the pointer some live allocation was handed out as. */
    ghost predicate Live(p: int)
      reads this
    {
      HeaderOf(mem, p) in minors && p == Pointer(HeaderOf(mem, p))
    }

    constructor ()
      ensures Valid() && Contents() == map[] && majors == map[]
    {
      majors, minors, memRoot, bestBet, held, inuse := map[], map[], 0, 0, 0, 0;
      mem := map[];
      order, parts := [], map[];
    }

    /** ALIGN: stores the distance and returns the aligned pointer. */
    method Align(base: int) returns (p: int)
      modifies this`mem
      ensures p == Payload(base)
      ensures mem == old(mem)[p - ALIGN_INFO := p - base]
    {
      p := base + ALIGN_INFO;
      var diff := p % ALIGNMENT;
      if diff != 0 {
        diff := ALIGNMENT - diff;
        p := p + diff;
      }
      mem := mem[p - ALIGN_INFO := diff + ALIGN_INFO];
    }

    /** `allocate_new_page` (src/mem/malloc.c:184-234): an unlinked, empty major. */
    method AllocateNewPage(size: nat, grant: int) returns (block: int)
      modifies this`majors, this`held
      ensures block == grant
      ensures grant == 0 ==> majors == old(majors) && held == old(held)
      ensures grant != 0 ==> held == old(held) + PagesFor(size) * PAGE
      ensures var st := PagesFor(size);
        grant != 0 ==> majors == old(majors)[grant := Major(0, 0, st, st * PAGE, MAJOR_HEADER, 0)]
    {
      block := grant;
      if block != 0 {
        var pages := PagesFor(size);
        majors := majors[block := Major(0, 0, pages, pages * PAGE, MAJOR_HEADER, 0)];
        held := held + pages * PAGE;
      }
    }

    /** A new page linked behind `last`, as both `maj->next = allocate_new_page(size)` sites do it;
        with `last` null it becomes the root. */
    method Extend(last: int, size: nat, grant: int) returns (block: int)
      requires Consistent() && last == Nth(order, |order| - 1, 0)
      requires grant == 0 || FreshBlock(majors, grant, PagesFor(size))
      modifies this`majors, this`memRoot, this`held, this`order, this`parts
      ensures block == grant
      ensures grant == 0 ==> View() == old(View())
      ensures grant != 0 ==> grant !in old(majors) && View() == AppendMajor(old(View()), grant, PagesFor(size))
      ensures Consistent()
    {
      hide Agree, PagesFor, FreshBlock, LinkMajor;
      ghost var s, pages := View(), PagesFor(size);
      if grant != 0 {
        AppendAgrees(s, mem, bestBet, held, inuse, grant, pages);
        LinkSteps(majors, last, grant, pages);
      }
      block := AllocateNewPage(size, grant);
      if block != 0 {
        if last == 0 {
          memRoot := block;
        } else {
          majors := majors[last := majors[last].(next := block)];
          majors := majors[block := majors[block].(prev := last)];
        }
        order, parts := order + [block], parts[block := []];
        assert View() == AppendMajor(s, grant, pages);
      }
    }

    /** The header updates shared by all placements: a minor at `a` between two neighbours. */
    method Place(maj: int, before: int, after: int, a: int, size: nat, req: nat, ghost k: nat) returns (p: int)
      requires Consistent() && maj in majors && maj in parts && k <= |parts[maj]|
      requires Known(minors, parts[maj])
      requires before == Nth(parts[maj], k - 1, 0) && after == Nth(parts[maj], k, 0)
      requires (before != 0 ==> before in minors) && (after != 0 ==> after in minors)
      requires k > 0 <==> before != 0
      requires a == Lo(maj, minors, parts[maj], k)
      requires size + MINOR_HEADER <= Gap(View(), maj, k) && size == req + SLACK
      modifies this`majors, this`minors, this`parts, this`inuse, this`mem
      ensures Layout(old(View())) && View() == InsertAt(old(View()), maj, k, size, req)
      ensures Consistent()
      ensures p == Pointer(a) && p != 0 && HeaderOf(mem, p) == a
      ensures Added(old(minors), old(mem), minors, mem, a, req) && inuse == old(inuse) + size
      ensures majors.Keys == old(majors.Keys)
      ensures OthersFull(old(View()), maj) ==> NoneEmpty(View())
    {
      hide Agree, Added, Layout, Gap, Pointer, NoneEmpty, OthersFull, HeaderOf, Stamped;
      ghost var s := View();
      if OthersFull(s, maj) {
        AgreeLayout(s, mem, bestBet, held, inuse);
        InsertNoneEmpty(s, maj, k, size, req);
      }
      InsertAgrees(s, mem, bestBet, held, inuse, maj, k, size, req);
      PointerPositive(a);
      if before != 0 {
        minors := minors[before := minors[before].(next := a)];
      }
      if after != 0 {
        minors := minors[after := minors[after].(prev := a)];
      }
      minors := minors[a := Minor(before, after, maj, size, req)];
      majors := majors[maj := majors[maj].(usage := majors[maj].usage + size + MINOR_HEADER,
                                           first := if before == 0 then a else majors[maj].first)];
      inuse := inuse + size;
      parts := parts[maj := Inserted(parts[maj], k, a)];
      p := Align(a + MINOR_HEADER);
      AgreeLayout(View(), mem, bestBet, held, inuse);
      UnalignRecovers(minors, mem, a);
    }

    /** CASE 4: the first minor of `maj` that is followed by a gap of at least `need` bytes. */
    method ScanMinors(maj: int, need: nat) returns (min: int, ghost k: nat)
      requires Layout(View()) && maj in majors && maj in parts && parts[maj] != []
      requires majors[maj].first == Nth(parts[maj], 0, 0)
      requires Known(minors, parts[maj]) && Gap(View(), maj, 0) < need
      ensures min != 0 ==> 0 < k <= |parts[maj]| && min == parts[maj][k - 1] && need <= Gap(View(), maj, k)
      ensures min == 0 ==> Tight(View(), maj, need)
      ensures min != 0 ==> forall j :: 0 <= j < k ==> Gap(View(), maj, j) < need
    {
      hide Layout;
      ghost var s, ms := View(), parts[maj];
      k := 1;
      MinorFacts(s, maj, 0);
      min := majors[maj].first;
      while min != 0
        invariant 1 <= k <= |ms| + 1
        invariant min == Nth(ms, k - 1, 0) && (min == 0 <==> k == |ms| + 1)
        invariant forall j :: 0 <= j < k && j <= |ms| ==> Gap(s, maj, j) < need
        decreases |ms| - k
      {
        MinorFacts(s, maj, k - 1);
        if k < |ms| { MinorFacts(s, maj, k); }
        if minors[min].next == 0 {
          var diff := maj + majors[maj].size - min - MINOR_HEADER - minors[min].size;
          assert diff == Gap(s, maj, k);
          if diff >= need {
            return;
          }
        }
        if minors[min].next != 0 {
          var diff := minors[min].next - min - MINOR_HEADER - minors[min].size;
          assert diff == Gap(s, maj, k);
          if diff >= need {
            return;
          }
        }
        min := minors[min].next;
        k := k + 1;
      }
    }

    /** CASES 2 to 4 of the search, for a major whose free total is large enough. */
    method TryMajor(maj: int, size: nat, req: nat) returns (p: int, ghost k: nat)
      requires Consistent() && maj in majors && size == req + SLACK
      requires size + MINOR_HEADER <= majors[maj].size - majors[maj].usage
      modifies this`majors, this`minors, this`parts, this`inuse, this`mem
      ensures Consistent() && Layout(old(View()))
      ensures p == 0 <==> Tight(old(View()), maj, size + MINOR_HEADER)
      ensures p == 0 ==> View() == old(View()) && mem == old(mem)
      ensures inuse == old(inuse) + (if p != 0 then size else 0)
      ensures majors.Keys == old(majors.Keys)
      ensures p != 0 ==>
        && p == Pointer(HeaderOf(mem, p))
        && Added(old(minors), old(mem), minors, mem, HeaderOf(mem, p), req)
        && FirstGap(old(View()), View(), maj, k, size, req)
      ensures p != 0 && OthersFull(old(View()), maj) ==> NoneEmpty(View())
    {
      hide Agree, Added, Layout, Gap, Pointer, Tight, Stamped, HeaderOf, NoneEmpty, OthersFull, Known, InsertAt, Lo;
      ghost var s := View();
      k := 0;
      AgreeLayout(s, mem, bestBet, held, inuse);
      Ends(s, maj);
      if majors[maj].first == 0 {
        FreshGap(s, maj, size + MINOR_HEADER);
        NotTight(s, maj, 0, size + MINOR_HEADER);
        p := Place(maj, 0, 0, maj + MAJOR_HEADER, size, req, 0);
        return;
      }
      if majors[maj].first - maj - MAJOR_HEADER >= size + MINOR_HEADER {
        NotTight(s, maj, 0, size + MINOR_HEADER);
        p := Place(maj, 0, majors[maj].first, maj + MAJOR_HEADER, size, req, 0);
        return;
      }
      var min;
      min, k := ScanMinors(maj, size + MINOR_HEADER);
      if min == 0 {
        p := 0;
        return;
      }
      NotTight(s, maj, k, size + MINOR_HEADER);
      AfterMinor(s, maj, k);
      p := Place(maj, min, minors[min].next, min + MINOR_HEADER + minors[min].size, size, req, k);
    }

    /** What follows a major without a fitting gap (CASES 1 and 5): the next major, the root again if the
        search began at the best bet, or a new block of pages linked at the end. */
    method Advance(maj: int, bet: bool, size: nat, grant: int, ghost idx: nat, ghost s0: Shape,
        ghost began: bool, ghost from: nat)
        returns (next: int, startedBet: bool, asked: bool, ghost at: nat)
      requires Consistent()
      requires grant == 0 || FreshBlock(s0.majors, grant, PagesFor(size))
      requires Searching(s0, View(), false, bet, idx, size + MINOR_HEADER, grant, PagesFor(size)) && order[idx] == maj
      requires maj in majors && Tight(View(), maj, size + MINOR_HEADER)
      requires FreeOf(s0, maj) <= FreeOf(s0, bestBet) && Passed(s0, began, bet, from, idx, size + MINOR_HEADER, bestBet)
      modifies this`majors, this`memRoot, this`held, this`order, this`parts
      ensures Consistent()
      ensures next == 0 <==> asked && grant == 0
      ensures next == 0 ==> View() == s0 && NoRoom(s0, size + MINOR_HEADER)
      ensures FreeOf(View(), bestBet) == FreeOf(s0, bestBet) && (asked ==> BestOf(View(), s0.order, bestBet))
      ensures !asked ==> Passed(s0, began, startedBet, from, at, size + MINOR_HEADER, bestBet)
      ensures next != 0 ==>
        && Searching(s0, View(), asked, startedBet, at, size + MINOR_HEADER, grant, PagesFor(size))
        && at < |order| && order[at] == next
        && (asked ==> !bet && !startedBet)
        && (asked || (bet && !startedBet) || (startedBet == bet && |order| - at < old(|order|) - idx))
    {
      hide Agree, Layout, NoRoom, Tight, FreshBlock, PagesFor, AppendMajor, Searching, Passed, BestOf, FreeOf;
      AgreeLayout(View(), mem, bestBet, held, inuse);
      FullMajor(s0, View(), false, bet, idx, size + MINOR_HEADER, grant, PagesFor(size));
      PassedNext(s0, began, bet, from, idx, size + MINOR_HEADER, bestBet);
      asked, startedBet, at := false, bet, idx + 1;
      next := majors[maj].next;
      if next == 0 {
        if startedBet {
          next, startedBet, at := memRoot, false, 0;
        } else {
          asked := true;
          next := Extend(maj, size, grant);
          if next != 0 {
            AppendBest(s0, grant, PagesFor(size), bestBet);
          }
        }
      }
    }

    /** The rest of one round: a placement in `maj`, or on to the next major (CASE 5). */
    method PlaceOrPass(maj: int, bet: bool, asked: bool, size: nat, req: nat, grant: int, ghost idx: nat,
        ghost s0: Shape, ghost began: bool, ghost from: nat)
        returns (p: int, next: int, startedBet: bool, asked': bool, ghost at: nat, ghost k: nat)
      requires Consistent() && size == req + SLACK
      requires grant == 0 || FreshBlock(s0.majors, grant, PagesFor(size))
      requires Searching(s0, View(), asked, bet, idx, size + MINOR_HEADER, grant, PagesFor(size)) && order[idx] == maj
      requires maj in majors && size + MINOR_HEADER <= majors[maj].size - majors[maj].usage
      requires if asked then BestOf(View(), s0.order, bestBet)
               else FreeOf(s0, maj) <= FreeOf(s0, bestBet)
                    && Passed(s0, began, bet, from, idx, size + MINOR_HEADER, bestBet)
      modifies this
      ensures bestBet == old(bestBet)
      ensures Consistent() && (p == 0 ==> mem == old(mem))
      ensures inuse == old(inuse) + (if p != 0 then size else 0)
      ensures p != 0 ==>
        && asked' == asked && (asked <==> NoRoom(s0, size + MINOR_HEADER)) && (asked ==> grant != 0)
        && majors.Keys == s0.majors.Keys + (if asked && grant != 0 then {grant} else {})
        && NoneEmpty(View())
        && p == Pointer(HeaderOf(mem, p))
        && Added(s0.minors, old(mem), minors, mem, HeaderOf(mem, p), req)
        && FirstFit(s0, View(), began, from, at, k, asked, grant, size, req, bestBet)
      ensures p == 0 && next != 0 ==> FreeOf(View(), bestBet) == FreeOf(s0, bestBet)
      ensures p == 0 && next != 0 ==>
        if asked' then BestOf(View(), s0.order, bestBet)
        else Passed(s0, began, startedBet, from, at, size + MINOR_HEADER, bestBet)
      ensures p == 0 ==> !asked && (next == 0 <==> asked' && grant == 0)
      ensures p == 0 && next == 0 ==> View() == s0 && NoRoom(s0, size + MINOR_HEADER)
      ensures p == 0 && next != 0 ==>
        && Searching(s0, View(), asked', startedBet, at, size + MINOR_HEADER, grant, PagesFor(size))
        && at < |order| && order[at] == next
        && (asked' ==> !bet && !startedBet)
        && (asked' || (bet && !startedBet) || (startedBet == bet && |order| - at < old(|order|) - idx))
    {
      hide Agree, Added, Layout, Gap, Pointer, NoRoom, Tight, Stamped, FreshBlock, PagesFor, HeaderOf,
           NoneEmpty, OthersFull, Known, AppendMajor, InsertAt, Lo, Searching, Passed, BestOf, FreeOf, FirstGap,
           FirstFit;
      ghost var s1, need, pages := View(), size + MINOR_HEADER, PagesFor(size);
      SearchingFacts(s0, s1, asked, bet, idx, need, grant, pages);
      next, startedBet, asked', at := 0, bet, asked, idx;
      p, k := TryMajor(maj, size, req);
      if p != 0 {
        FoundMajor(s0, s1, asked, bet, idx, need, grant, pages);
        assert majors.Keys == s1.majors.Keys;
        FitsFirst(s0, s1, View(), asked, began, bet, from, idx, k, size, req, grant, bestBet);
        return;
      }
      FullMajor(s0, s1, asked, bet, idx, need, grant, pages);
      next, startedBet, asked', at := Advance(maj, bet, size, grant, idx, s0, began, from);
    }

    /** The search loop of `malloc`, from major `start`. */
    method Search(start: int, bet: bool, best: int, size: nat, req: nat, grant: int, grown: bool,
                  ghost from: nat, ghost s0: Shape) returns (p: int, asked: bool, ghost at: nat, ghost k: nat)
      requires Consistent() && size == req + SLACK
      requires grant == 0 || FreshBlock(s0.majors, grant, PagesFor(size))
      requires Searching(s0, View(), grown, bet, from, size + MINOR_HEADER, grant, PagesFor(size))
          && order[from] == start
      requires best == FreeOf(View(), bestBet) && (!bet ==> from == 0) && (grown ==> BestOf(View(), s0.order, bestBet))
      modifies this
      ensures Consistent() && Layout(s0)
      ensures asked <==> NoRoom(s0, size + MINOR_HEADER)
      ensures majors.Keys == s0.majors.Keys + if asked && grant != 0 then {grant} else {}
      ensures p == 0 <==> asked && grant == 0
      ensures p == 0 ==> View() == s0 && mem == old(mem)
      ensures inuse == old(inuse) + (if p != 0 then size else 0)
      ensures p != 0 ==>
        && NoneEmpty(View())
        && p == Pointer(HeaderOf(mem, p))
        && Added(s0.minors, old(mem), minors, mem, HeaderOf(mem, p), req)
        && FirstFit(s0, View(), bet, from, at, k, asked, grant, size, req, bestBet)
    {
      hide Agree, Added, Layout, Gap, Pointer, NoRoom, Tight, Stamped, FreshBlock, PagesFor, HeaderOf,
           NoneEmpty, OthersFull, Known, AppendMajor, InsertAt, Lo, Searching, Passed, BestOf, FreeOf, FirstGap,
           FirstFit;
      ghost var need, pages := size + MINOR_HEADER, PagesFor(size);
      at, k := 0, 0;
      var maj, startedBet, bestSize := start, bet, best;
      ghost var idx: nat := from;
      asked := grown;
      p := 0;
      SearchingFacts(s0, View(), asked, startedBet, idx, need, grant, pages);
      if !grown {
        PassedNone(s0, bet, from, need, bestBet);
      }
      while maj != 0
        invariant Consistent() && mem == old(mem) && inuse == old(inuse) && p == 0
        invariant maj == 0 ==> asked && grant == 0 && View() == s0 && NoRoom(s0, need)
        invariant maj != 0 ==>
                    && Searching(s0, View(), asked, startedBet, idx, need, grant, pages)
                    && idx < |order| && order[idx] == maj
                    && Looked(s0, View(), asked, bet, startedBet, from, idx, need, bestBet)
                    && bestSize == FreeOf(View(), bestBet)
        decreases maj != 0, startedBet, !asked, |order| - idx
      {
        SearchingFacts(s0, View(), asked, startedBet, idx, need, grant, pages);
        AgreeLayout(View(), mem, bestBet, held, inuse);
        var diff := majors[maj].size - majors[maj].usage;
        ghost var best0 := bestBet;
        FreeIs(View(), maj);
        if bestSize < diff {
          bestBet := maj;
          bestSize := diff;
        }
        LookedBetter(s0, View(), asked, bet, startedBet, from, idx, need, best0, bestBet);
        if diff < size + MINOR_HEADER {
          // CASE 1: not enough space in this major
          FreeTight(View(), maj, need);
          maj, startedBet, asked, idx := Advance(maj, startedBet, size, grant, idx, s0, bet, from);
          if maj == 0 || !asked {
            continue;
          }
          SearchingFacts(s0, View(), asked, startedBet, idx, need, grant, pages);
        }
        p, maj, startedBet, asked, idx, k := PlaceOrPass(maj, startedBet, asked, size, req, grant, idx, s0, bet, from);
        if p != 0 {
          at := idx;
          return;
        }
      }
    }

    /** `malloc` (src/mem/malloc.c:240-583). */
    method Malloc(req: nat, grant: int) returns (p: int, asked: bool, ghost at: nat, ghost k: nat)
      requires Valid() && Small(req)
      requires grant == 0 || FreshBlock(majors, grant, PagesFor(req + SLACK))
      modifies this
      ensures Valid() && Layout(old(View()))
      // pages are requested exactly when no gap of any major takes the request
      ensures asked <==> NoRoom(old(View()), req + SLACK + MINOR_HEADER)
      ensures majors.Keys == old(majors.Keys) + if asked && grant != 0 then {grant} else {}
      // null is returned exactly when the page source refuses
      ensures p == 0 <==> asked && grant == 0
      ensures p == 0 ==> View() == old(View()) && mem == old(mem)
      ensures inuse == old(inuse) + (if p != 0 then req + SLACK else 0)
      ensures p != 0 ==>
        && p == Pointer(HeaderOf(mem, p))
        && Added(old(minors), old(mem), minors, mem, HeaderOf(mem, p), req)
      // the search begins at the best bet if that has more free bytes than needed, and at the root otherwise
      ensures p != 0 ==>
        var need := req + SLACK + MINOR_HEADER;
        var bet := old(FreeOf(View(), bestBet)) > need;
        FirstFit(old(View()), View(), bet, if bet then Index(old(order), old(bestBet)) else 0, at, k, asked, grant,
                 req + SLACK, req, bestBet)
    {
      hide Agree, Added, Layout, Gap, Pointer, NoRoom, Stamped, FreshBlock, PagesFor, HeaderOf,
           NoneEmpty, AppendMajor, Searching, BestOf, FirstFit, FreeOf;
      at, k := 0, 0;
      ghost var s0 := View();
      var size, grown := req + SLACK, false;
      ghost var need, pages := size + MINOR_HEADER, PagesFor(size);
      AgreeLayout(s0, mem, bestBet, held, inuse);
      RootIsFirst(s0);
      if memRoot == 0 {
        NoRoomInNothing(s0, need);
        grown := true;
        var root := Extend(0, size, grant);
        if root == 0 {
          return 0, true, at, k;
        }
      }
      AgreeLayout(View(), mem, bestBet, held, inuse);
      RootIsFirst(View());
      SearchingFromRoot(s0, View(), grown, need, grant, pages);
      var maj, startedBet, bestSize := memRoot, false, 0;
      ghost var idx: nat := 0;
      BetFacts(s0, View(), bestBet, grown);
      if bestBet != 0 {
        bestSize := majors[bestBet].size - majors[bestBet].usage;
        if bestSize > size + MINOR_HEADER {
          maj := bestBet;
          startedBet := true;
          idx := Index(order, maj);
          IndexIs(s0, maj);
          SearchingFromBet(s0, View(), grown, idx, need, grant, pages);
        }
      }
      p, grown, at, k := Search(maj, startedBet, bestSize, size, req, grant, grown, idx, s0);
      asked := grown;
    }

    /** Takes the minor at `min` out of its list and out of the accounts. */
    method Unlink(min: int, ghost k: nat)
      requires Consistent() && min in minors && minors[min].block in majors && minors[min].block in parts
      requires k < |parts[minors[min].block]| && parts[minors[min].block][k] == min
      modifies this`majors, this`minors, this`parts, this`inuse
      ensures Layout(old(View())) && View() == RemoveAt(old(View()), old(minors[min].block), k)
      ensures Consistent()
      ensures Gone(old(minors), minors, mem, min) && majors.Keys == old(majors.Keys)
      ensures inuse == old(inuse) - old(minors[min].size)
    {
      hide Agree, Layout, Gone;
      ghost var s := View();
      RemoveAgrees(s, mem, bestBet, held, inuse, minors[min].block, k);
      var maj, x := minors[min].block, minors[min];
      inuse := inuse - x.size;
      majors := majors[maj := majors[maj].(usage := majors[maj].usage - (x.size + MINOR_HEADER))];
      if x.next != 0 {
        minors := minors[x.next := minors[x.next].(prev := x.prev)];
      }
      if x.prev != 0 {
        minors := minors[x.prev := minors[x.prev].(next := x.next)];
      }
      if x.prev == 0 {
        majors := majors[maj := majors[maj].(first := x.next)];
      }
      minors := minors - {min};
      parts := parts[maj := Removed(parts[maj], k)];
    }

    /** Gives the empty major `maj` back. */
    method GiveBack(maj: int, ghost i: nat)
      requires Consistent() && i < |order| && order[i] == maj && maj in majors && maj in parts && parts[maj] == []
      modifies this`majors, this`memRoot, this`bestBet, this`held, this`order, this`parts
      ensures Layout(old(View())) && View() == DropMajor(old(View()), i)
      ensures Consistent() && majors.Keys == old(majors.Keys) - {maj}
      ensures bestBet == if old(bestBet) == maj then 0 else old(bestBet)
    {
      hide Agree, Layout;
      ghost var s := View();
      DropAgrees(s, mem, bestBet, held, inuse, i);
      var x := majors[maj];
      if memRoot == maj { memRoot := x.next; }
      if bestBet == maj { bestBet := 0; }
      if x.prev != 0 {
        majors := majors[x.prev := majors[x.prev].(next := x.next)];
      }
      if x.next != 0 {
        majors := majors[x.next := majors[x.next].(prev := x.prev)];
      }
      held := held - x.size;
      majors := majors - {maj};
      order, parts := Removed(order, i), parts - {maj};
    }

    /** `free` (src/mem/malloc.c:593-716); `released` is the block given back to the page source, or null. */
    method Free(p: int) returns (released: int)
      requires Valid() && (p == 0 || Live(p))
      modifies this
      ensures Valid() && Layout(old(View())) && mem == old(mem)
      ensures p == 0 ==> View() == old(View()) && released == 0
      ensures p != 0 ==> Gone(old(minors), minors, mem, old(HeaderOf(mem, p)))
      ensures inuse == old(inuse) - old(SizeOf(p))
      // a block is given back exactly when its last allocation goes
      ensures p != 0 ==> var a := old(HeaderOf(mem, p));
        old(OnlyOne(View(), a)) == (released != 0) && (released != 0 ==> released == old(minors)[a].block)
      ensures majors.Keys == old(majors.Keys) - (if released != 0 then {released} else {})
      // the best bet is forgotten with its block, and gives way to a block that now has more free bytes
      ensures p == 0 ==> bestBet == old(bestBet)
      ensures p != 0 && released != 0 ==> bestBet == if old(bestBet) == released then 0 else old(bestBet)
      ensures p != 0 && released == 0 ==>
        var m := old(minors)[old(HeaderOf(mem, p))].block;
        bestBet == if old(bestBet) != 0 && AsInt(FreeOf(View(), m)) > AsInt(FreeOf(View(), old(bestBet))) then m
                   else old(bestBet)
    {
      hide Agree, Layout, Gone, NoneEmpty, HeaderOf, Pointer, RemoveAt, DropMajor, OnlyOne, Stamped;
      ghost var s0 := View();
      AgreeLayout(s0, mem, bestBet, held, inuse);
      if p == 0 {
        return 0;
      }
      var min := HeaderOf(mem, p);
      ghost var m, k := InMajor(s0, min);
      MinorFacts(s0, m, k);
      FullIsNonEmpty(s0, m);
      var maj := minors[min].block;
      Unlink(min, k);
      ghost var s1 := View();
      AgreeLayout(s1, mem, bestBet, held, inuse);
      Ends(s1, maj);
      AfterRemove(s0, m, k);
      if majors[maj].first == 0 {
        ghost var i := IndexOf(s1, maj);
        released := maj;
        GiveBack(maj, i);
        AfterDrop(s1, i);
      } else {
        released := 0;
        if bestBet != 0 {
          var bestSize := AsInt(majors[bestBet].size - majors[bestBet].usage);
          var majSize := AsInt(majors[maj].size - majors[maj].usage);
          if majSize > bestSize {
            bestBet := maj;
          }
        }
      }
    }

    /** `liballoc_memcpy` (src/mem/malloc.c:114-137): words first, then the remaining bytes. */
    method Memcpy(dst: int, src: int, n: nat)
      requires dst + n <= src || src + n <= dst
      modifies this`mem
      ensures BytesAt(mem, dst, n) == BytesAt(old(mem), src, n)
      ensures forall x :: !(dst <= x < dst + n) ==> ByteAt(mem, x) == old(ByteAt(mem, x))
    {
      hide Copied;
      CopiedNone(mem, dst, src);
      var done := 0;
      while n - done >= 4
        invariant done <= n
        invariant Copied(old(mem), mem, dst, src, done)
      {
        var word := BytesAt(mem, src + done, 4);
        ghost var before := mem;
        var at := dst + done;
        mem := mem[at := word[0]][at + 1 := word[1]][at + 2 := word[2]][at + 3 := word[3]];
        CopyMore(old(mem), before, mem, dst, src, n, done, 4);
        done := done + 4;
      }
      while n - done > 0
        invariant done <= n
        invariant Copied(old(mem), mem, dst, src, done)
      {
        ghost var before := mem;
        mem := mem[dst + done := ByteAt(mem, src + done)];
        CopyMore(old(mem), before, mem, dst, src, n, done, 1);
        done := done + 1;
      }
      CopiedBytes(old(mem), mem, dst, src, n);
    }

    /** A caller writes one byte of its own allocation. */
    method Store(p: int, k: nat, v: int)
      requires Valid() && Live(p) && k < RequestOf(p)
      modifies this`mem
      ensures Valid() && Live(p) && HeaderOf(mem, p) == old(HeaderOf(mem, p))
      ensures var a := HeaderOf(mem, p);
        a in old(Contents()) && k < |old(Contents())[a]|
          && Contents() == old(Contents())[a := old(Contents())[a][k := v]]
    {
      hide Agree, Layout, Pointer, HeaderOf, NoneEmpty, Stamped, Blocks;
      ghost var a := HeaderOf(mem, p);
      AgreeLayout(View(), mem, bestBet, held, inuse);
      WriteInside(View(), mem, a, k, v);
      WriteAgrees(View(), mem, mem[p + k := v], bestBet, held, inuse);
      mem := mem[p + k := v];
    }

    /** The copy made by `realloc`, from live allocation `p` into live allocation `r`. */
    method Move(r: int, p: int, n: nat)
      requires Valid() && Live(p) && Live(r) && p != r
      requires n == RequestOf(p) <= RequestOf(r)
      modifies this`mem
      ensures Valid() && HeaderOf(mem, p) == old(HeaderOf(mem, p)) && HeaderOf(mem, r) == old(HeaderOf(mem, r))
      ensures BytesAt(mem, r, n) == BytesAt(mem, p, n) == BytesAt(old(mem), p, n)
      ensures Contents() - {HeaderOf(mem, r)} == old(Contents()) - {HeaderOf(mem, r)}
    {
      hide Agree, Layout, NoneEmpty, Pointer, HeaderOf, Stamped;
      ghost var a, b, mem1 := HeaderOf(mem, p), HeaderOf(mem, r), mem;
      AgreeLayout(View(), mem, bestBet, held, inuse);
      PayloadsAreSafe(View(), a);
      Memcpy(r, p, n);
      CopyInto(View(), mem1, mem, a, b, n);
      WriteAgrees(View(), mem1, mem, bestBet, held, inuse);
    }

    /** Fills the new allocation `r` from the old one `p` and releases the old one. */
    method Replace(p: int, r: int, n: nat, ghost minors0: map<int, Minor>, ghost mem0: map<int, int>)
        returns (released: int)
      requires Valid() && Live(p) && p != 0 && Live(r)
      requires HeaderOf(mem, p) in minors0 && n == minors0[HeaderOf(mem, p)].req
      requires n <= RequestOf(r)
      requires Added(minors0, mem0, minors, mem, HeaderOf(mem, r), RequestOf(r))
      modifies this
      ensures Valid() && Live(r)
      ensures Grown(minors0, mem0, minors, mem, old(HeaderOf(mem, p)), HeaderOf(mem, r),
                    old(RequestOf(r)))
      ensures inuse == old(inuse) - old(SizeOf(p))
      ensures majors.Keys == old(majors.Keys) - if released != 0 then {released} else {}
      ensures released != 0 ==> released == old(minors[HeaderOf(mem, p)].block)
    {
      hide Agree, Layout, Gone, NoneEmpty, HeaderOf, Pointer, Stamped, Added, OnlyOne, Grown;
      ghost var a, b := HeaderOf(mem, p), HeaderOf(mem, r);
      ghost var size, minors1 := minors[b].req, minors;
      AddedLive(minors0, mem0, minors, mem, b, size, a);
      AddedBlocks(minors0, mem0, minors, mem, b, size);
      Move(r, p, n);
      released := Free(p);
      GrowDone(minors0, mem0, minors1, mem, minors, a, b, size);
    }

    /** The growing half of `realloc`: a new allocation, the copy, the release of the old one.
        A refused request is not checked by the code, so the copy then writes through null; `fault`
        records that the processor stops there. */
    method Grow(p: int, size: nat, grant: int) returns (r: int, asked: bool, fault: bool, released: int)
      requires Valid() && Live(p) && Small(size) && RequestOf(p) < size
      requires grant == 0 || FreshBlock(majors, grant, PagesFor(size + SLACK))
      modifies this
      ensures Valid() && Layout(old(View()))
      ensures asked <==> NoRoom(old(View()), size + SLACK + MINOR_HEADER)
      ensures r == 0 <==> asked && grant == 0
      ensures fault <==> r == 0 && old(RequestOf(p)) > 0
      ensures fault ==> View() == old(View()) && mem == old(mem)
      ensures r == 0 && !fault ==> mem == old(mem) && Gone(old(minors), minors, mem, old(HeaderOf(mem, p)))
      ensures r != 0 ==> Live(r)
      ensures r != 0 ==>
        Grown(old(minors), old(mem), minors, mem, old(HeaderOf(mem, p)), HeaderOf(mem, r), size)
      ensures inuse == old(inuse) + (if r != 0 then size + SLACK else 0) - if fault then 0 else old(SizeOf(p))
      ensures majors.Keys == old(majors.Keys) + (if asked && grant != 0 then {grant} else {})
                                              - if released != 0 then {released} else {}
      ensures released != 0 ==> released == old(minors[HeaderOf(mem, p)].block)
    {
      hide Agree, Layout, Gone, NoneEmpty, HeaderOf, Pointer, Stamped, Added, FreshBlock, PagesFor, NoRoom, OnlyOne,
          Grown;
      ghost var minors0, mem0, a := minors, mem, HeaderOf(mem, p);
      var realSize := minors[HeaderOf(mem, p)].req;
      AgreeLayout(View(), mem, bestBet, held, inuse);
      LiveNonNull(View(), a);
      released := 0;
      ghost var at, k;
      r, asked, at, k := Malloc(size, grant);
      fault := r == 0 && realSize > 0;
      if r != 0 {
        AddedLive(minors0, mem0, minors, mem, HeaderOf(mem, r), size, a);
        released := Replace(p, r, realSize, minors0, mem0);
      } else if !fault {
        released := Free(p);
      }
    }

    /** `realloc` (src/mem/malloc.c:738-827). */
    method Realloc(p: int, size: nat, grant: int) returns (r: int, asked: bool, fault: bool, released: int)
      requires Valid() && (p == 0 || Live(p)) && Small(size)
      requires grant == 0 || FreshBlock(majors, grant, PagesFor(size + SLACK))
      modifies this
      ensures Valid() && Layout(old(View()))
      // size 0 releases
      ensures size == 0 ==> r == 0 && !fault
      ensures size == 0 && p == 0 ==> View() == old(View()) && mem == old(mem)
      // and so does a refused growth of an empty block
      ensures p != 0 && r == 0 && !fault ==>
        mem == old(mem) && Gone(old(minors), minors, mem, old(HeaderOf(mem, p)))
      // pages are requested only for an allocation or a growth, and exactly when no gap takes it
      ensures size > 0 && (p == 0 || size > old(RequestOf(p))) ==>
        (asked <==> NoRoom(old(View()), size + SLACK + MINOR_HEADER))
      // a null pointer allocates
      ensures size > 0 && p == 0 ==> !fault && (r == 0 <==> asked && grant == 0)
      ensures size > 0 && p == 0 && r != 0 ==>
        Live(r) && Added(old(minors), old(mem), minors, mem, HeaderOf(mem, r), size)
      // a request that is not larger keeps the block
      ensures size > 0 && p != 0 && size <= old(RequestOf(p)) ==>
        r == p && !fault && mem == old(mem) && View() == Shrink(old(View()), HeaderOf(mem, p), size)
      // a larger one moves it, keeping its bytes
      ensures p != 0 && size > old(RequestOf(p)) ==>
        && (r == 0 <==> asked && grant == 0)
        && (fault <==> r == 0 && old(RequestOf(p)) > 0)
        && (fault ==> View() == old(View()) && mem == old(mem))
        && (r != 0 ==> Live(r) && Grown(old(minors), old(mem), minors, mem,
                                        old(HeaderOf(mem, p)), HeaderOf(mem, r), size))
      // the account of bytes in use follows: a block that stays keeps its size, a new one takes what it was asked for
      ensures inuse == old(inuse) + if p != 0 && 0 < size <= old(RequestOf(p)) then 0
                                    else (if r != 0 then size + SLACK else 0) - if fault then 0 else old(SizeOf(p))
      // pages come from one answer of the page source and go back with the block that was left
      ensures majors.Keys == old(majors.Keys) + (if asked && grant != 0 then {grant} else {})
                                              - if released != 0 then {released} else {}
      ensures released != 0 ==> p != 0 && released == old(minors[HeaderOf(mem, p)].block)
    {
      hide Agree, Layout, Gone, NoneEmpty, HeaderOf, Pointer, Stamped, Added, FreshBlock, PagesFor, NoRoom, OnlyOne,
          Grown;
      AgreeLayout(View(), mem, bestBet, held, inuse);
      asked, fault, released := false, false, 0;
      if size == 0 {
        released := Free(p);
        return 0, asked, fault, released;
      }
      if p == 0 {
        ghost var at, k;
        r, asked, at, k := Malloc(size, grant);
        if r != 0 {
          AddedIsNew(old(minors), old(mem), minors, mem, HeaderOf(mem, r), size);
        }
        return;
      }
      var min := HeaderOf(mem, p);
      var realSize := minors[min].req;
      if realSize >= size {
        ShrinkAgrees(View(), mem, bestBet, held, inuse, min, size);
        minors := minors[min := minors[min].(req := size)];
        return p, asked, fault, released;
      }
      r, asked, fault, released := Grow(p, size, grant);
    }

    /** The bytes that live allocation `p` takes up behind its header; null takes none. */
    ghost function SizeOf(p: int): int
      reads this
    {
      if p != 0 && HeaderOf(mem, p) in minors then minors[HeaderOf(mem, p)].size else 0
    }

    /** The size last requested for live allocation `p`. */
    ghost function RequestOf(p: int): nat
      reads this
    {
      if HeaderOf(mem, p) in minors then minors[HeaderOf(mem, p)].req else 0
    }
  }
}
