/** Two calls of src/mem/phys.c:87-137 that interrupt each other, one read or write at a time.

  The roots, the words in free memory and the window `SPG` are shared, and no lock keeps the calls apart. */
module FrameRaces {
  import opened Basics
  import opened Frames

  /** Where a call stands; `late` tells that the other one had written a root when this one read its frame. */
  datatype Task =
    | Start                                                     // ppgalloc: is there a single page?
    | PageRead                                                  // p = rootppg
    | PageMap(p: int, late: bool)                               // vpgspecmap(rootppg)
    | PageNext(p: int, late: bool)                              // reads rppg->next
    | PageRoot(p: int, late: bool, next: int)                   // writes rootppg
    | RegionTest                                                // is there a region?
    | RegionRead                                                // p = rootrgn
    | RegionMap(p: int, late: bool)                             // vpgspecmap(rootrgn)
    | RegionLen(p: int, late: bool)                             // rrgn->len == PGLEN?
    | RegionNext(p: int, late: bool)                            // reads rrgn->next
    | RegionRoot(p: int, late: bool, next: int)                 // writes rootrgn
    | RegionCopy(p: int, late: bool)                            // newr = *rrgn
    | RegionStep(p: int, late: bool, next: int, len: int)       // rootrgn += PGLEN
    | RegionRemap(p: int, late: bool, next: int, len: int)      // vpgspecmap(rootrgn)
    | RegionHead(p: int, late: bool, next: int, len: int)       // *rrgn = newr
    | Got(p: int, late: bool)
    | Halted
    | Give(q: int)                                              // ppgfree: vpgspecmap(p)
    | GiveLink(q: int)                                          // pp->next = rootppg
    | GiveRoot(q: int)                                          // rootppg = p
    | Given(q: int)

  /** `wrote`: some call has written a root. */
  datatype Shared = Shared(s: Store, window: int, wrote: bool)

  datatype Race = Race(m: Shared, one: Task, two: Task)

  function Word(w: map<int, int>, a: int): int {
    if a in w then w[a] else 0
  }

  /** One step of one call. */
  function Advance(m: Shared, t: Task): (Shared, Task) {
    match t
    case Start => (m, if m.s.rootppg != NOPHYS then PageRead else RegionTest)
    case PageRead => (m, PageMap(m.s.rootppg, m.wrote))
    case PageMap(p, late) => (m.(window := m.s.rootppg), PageNext(p, late))
    case PageNext(p, late) => (m, PageRoot(p, late, Word(m.s.w0, m.window)))
    case PageRoot(p, late, next) => (m.(s := m.s.(rootppg := next), wrote := true), Got(p, late))
    case RegionTest => (m, if m.s.rootrgn == NOPHYS then Halted else RegionRead)
    case RegionRead => (m, RegionMap(m.s.rootrgn, m.wrote))
    case RegionMap(p, late) => (m.(window := m.s.rootrgn), RegionLen(p, late))
    case RegionLen(p, late) => (m, if Word(m.s.w1, m.window) == PGLEN then RegionNext(p, late) else RegionCopy(p, late))
    case RegionNext(p, late) => (m, RegionRoot(p, late, Word(m.s.w0, m.window)))
    case RegionRoot(p, late, next) => (m.(s := m.s.(rootrgn := next), wrote := true), Got(p, late))
    case RegionCopy(p, late) => (m, RegionStep(p, late, Word(m.s.w0, m.window), Word(m.s.w1, m.window) - PGLEN))
    case RegionStep(p, late, next, len) =>
      (m.(s := m.s.(rootrgn := m.s.rootrgn + PGLEN), wrote := true), RegionRemap(p, late, next, len))
    case RegionRemap(p, late, next, len) => (m.(window := m.s.rootrgn), RegionHead(p, late, next, len))
    case RegionHead(p, late, next, len) =>
      (m.(s := m.s.(w0 := m.s.w0[m.window := next], w1 := m.s.w1[m.window := len])), Got(p, late))
    case Give(q) => (m.(window := q), GiveLink(q))
    case GiveLink(q) => (m.(s := m.s.(w0 := m.s.w0[m.window := m.s.rootppg])), GiveRoot(q))
    case GiveRoot(q) => (m.(s := m.s.(rootppg := q), wrote := true), Given(q))
    case _ => (m, t)
  }

  function Turn(r: Race, first: bool): Race {
    var (m, t) := Advance(r.m, if first then r.one else r.two);
    if first then Race(m, t, r.two) else Race(m, r.one, t)
  }

  function Turns(r: Race, order: seq<bool>): Race
    decreases |order|
  {
    if order == [] then r else Turns(Turn(r, order[0]), order[1..])
  }

  // ------------------------------------------------------------ one call, undisturbed

  /** A call on its own, step by step. */
  function Alone(m: Shared, t: Task, n: nat): (Shared, Task)
    decreases n
  {
    if n == 0 then (m, t) else var (m', t') := Advance(m, t); Alone(m', t', n - 1)
  }

  /** The frame that an undisturbed allocation hands out, and what the root is then. */
  function First(l: Lists): int {
    if l.ps != [] then l.ps[0] else if l.rs != [] then l.rs[0].base else NOPHYS
  }

  /** What the first words say. */
  lemma FirstWords(s: Store, l: Lists)
    requires Describes(s, l.rs, l.ps) && (l.rs != [] || l.ps != [])
    ensures First(l) != NOPHYS && (l.ps == [] <==> s.rootppg == NOPHYS)
    ensures l.ps != [] ==> s.rootppg == First(l) && s.rootrgn != First(l) && Word(s.w0, First(l)) != First(l)
    ensures l.ps == [] ==> s.rootrgn == First(l) && Word(s.w0, First(l)) != First(l)
  {
    if l.ps != [] {
      assert PageLink(s, l.ps, 0) && PageOk(l.ps[0]);
      if l.rs != [] { assert RegionOk(l.rs[0]) && !Inside(l.rs[0], l.ps[0]); }
    } else {
      assert RegionLink(s, l.rs, 0) && RegionOk(l.rs[0]);
      if |l.rs| > 1 { assert Apart(l.rs[0], l.rs[1]) && RegionOk(l.rs[1]); }
    }
  }

  /** With nobody in between, the steps of an allocation are the allocation: nine of them at most hand out the frame
      and leave words that are the lists it should leave. */
  lemma AllocAlone(s: Store, l: Lists, window: int)
    requires Describes(s, l.rs, l.ps) && !Stops(l, DoAlloc)
    ensures var (m, t) := Alone(Shared(s, window, false), Start, 9);
            var (l', e) := Serve(l, DoAlloc);
            e.Took? && t == Got(e.p, false) && Describes(m.s, l'.rs, l'.ps)
  {
    hide Describes, Splice;
    FirstWords(s, l);
    if l.ps != [] {
      PopAlone(s, l, window);
    } else {
      TakeAlone(s, l, window);
    }
  }

  lemma PopAlone(s: Store, l: Lists, window: int)
    requires Describes(s, l.rs, l.ps) && l.ps != []
    ensures var (m, t) := Alone(Shared(s, window, false), Start, 9);
            t == Got(l.ps[0], false) && Describes(m.s, l.rs, l.ps[1..])
  {
    hide Describes;
    FirstWords(s, l);
    Frames.PageRoot(s, l.rs, l.ps);
    PopDescribes(s, l.rs, l.ps);
    var m0, p := Shared(s, window, false), l.ps[0];
    var m1 := Shared(s, p, false);
    var m2 := Shared(s.(rootppg := s.w0[p]), p, true);
    Next(m0, Start, m0, PageRead, 9);
    Next(m0, PageRead, m0, PageMap(p, false), 8);
    Next(m0, PageMap(p, false), m1, PageNext(p, false), 7);
    Next(m1, PageNext(p, false), m1, PageRoot(p, false, s.w0[p]), 6);
    Next(m1, PageRoot(p, false, s.w0[p]), m2, Got(p, false), 5);
    Stays(m2, Got(p, false), 4);
  }

  lemma Next(m: Shared, t: Task, m': Shared, t': Task, n: nat)
    requires Advance(m, t) == (m', t') && n > 0
    ensures Alone(m, t, n) == Alone(m', t', n - 1)
  {
  }

  lemma {:induction false} Stays(m: Shared, t: Task, n: nat)
    requires t.Got? || t.Given?
    ensures Alone(m, t, n) == (m, t)
  {
    if n > 0 {
      Stays(m, t, n - 1);
    }
  }

  lemma TakeAlone(s: Store, l: Lists, window: int)
    requires Describes(s, l.rs, l.ps) && l.ps == [] && l.rs != []
    ensures var (m, t) := Alone(Shared(s, window, false), Start, 9);
            t == Got(l.rs[0].base, false) && Describes(m.s, Splice(l.rs, 0, l.rs[0].base), [])
  {
    hide Describes, Splice, Alone;
    FirstWords(s, l);
    Roots(s, l.rs, l.ps);
    Frames.RegionRoot(s, l.rs, l.ps);
    var m0, p := Shared(s, window, false), l.rs[0].base;
    var m1, len := Shared(s, p, false), s.w1[p];
    Next(m0, Start, m0, RegionTest, 9);
    Next(m0, RegionTest, m0, RegionRead, 8);
    Next(m0, RegionRead, m0, RegionMap(p, false), 7);
    Next(m0, RegionMap(p, false), m1, RegionLen(p, false), 6);
    TakeFirst(s, TakeStore(s, p), l.rs);
    if len == PGLEN {
      LastAlone(s, p);
    } else {
      CutAlone(s, p);
    }
  }

  /** The words after a page was taken off the region at `p`. */
  function TakeStore(s: Store, p: int): Store {
    var next, len := Word(s.w0, p), Word(s.w1, p);
    if len == PGLEN then s.(rootrgn := next)
    else Store(p + PGLEN, s.rootppg, s.w0[p + PGLEN := next], s.w1[p + PGLEN := len - PGLEN])
  }

  lemma LastAlone(s: Store, p: int)
    requires s.rootrgn == p && Word(s.w1, p) == PGLEN
    ensures
      var (m, t) := Alone(Shared(s, p, false), RegionLen(p, false), 5);
      t == Got(p, false) && m.s == TakeStore(s, p)
  {
    hide Alone;
    var m1, next := Shared(s, p, false), Word(s.w0, p);
    var m2 := Shared(s.(rootrgn := next), p, true);
    Next(m1, RegionLen(p, false), m1, RegionNext(p, false), 5);
    Next(m1, RegionNext(p, false), m1, RegionRoot(p, false, next), 4);
    Next(m1, RegionRoot(p, false, next), m2, Got(p, false), 3);
    Stays(m2, Got(p, false), 2);
  }

  lemma CutAlone(s: Store, p: int)
    requires s.rootrgn == p && Word(s.w1, p) != PGLEN
    ensures
      var (m, t) := Alone(Shared(s, p, false), RegionLen(p, false), 5);
      t == Got(p, false) && m.s == TakeStore(s, p)
  {
    hide Alone;
    var m1, next, len, q := Shared(s, p, false), Word(s.w0, p), Word(s.w1, p) - PGLEN, p + PGLEN;
    var m2, m3 := Shared(s.(rootrgn := q), p, true), Shared(s.(rootrgn := q), q, true);
    var m4 := Shared(TakeStore(s, p), q, true);
    Next(m1, RegionLen(p, false), m1, RegionCopy(p, false), 5);
    Next(m1, RegionCopy(p, false), m1, RegionStep(p, false, next, len), 4);
    Next(m1, RegionStep(p, false, next, len), m2, RegionRemap(p, false, next, len), 3);
    Next(m2, RegionRemap(p, false, next, len), m3, RegionHead(p, false, next, len), 2);
    Next(m3, RegionHead(p, false, next, len), m4, Got(p, false), 1);
    Stays(m4, Got(p, false), 0);
  }

  /** And the steps of a free are the free. */
  lemma FreeAlone(s: Store, l: Lists, window: int, q: int)
    requires Describes(s, l.rs, l.ps) && !Stops(l, DoFree(q))
    ensures var (m, t) := Alone(Shared(s, window, false), Give(q), 3);
            var (l', e) := Serve(l, DoFree(q));
            t == Given(q) && Describes(m.s, l'.rs, l'.ps)
  {
    hide Describes;
    PushDescribes(s, l.rs, l.ps, q);
    var m0, m1 := Shared(s, window, false), Shared(s, q, false);
    var m2 := Shared(s.(w0 := s.w0[q := s.rootppg]), q, false);
    var m3 := Shared(Push(s, q), q, true);
    Next(m0, Give(q), m1, GiveLink(q), 3);
    Next(m1, GiveLink(q), m2, GiveRoot(q), 2);
    Next(m2, GiveRoot(q), m3, Given(q), 1);
    Stays(m3, Given(q), 0);
  }

  // ------------------------------------------------------------ two allocations

  predicate Allocating(t: Task) {
    !t.Give? && !t.GiveLink? && !t.GiveRoot? && !t.Given?
  }

  /** The call has not read its frame yet. */
  predicate Unread(t: Task) {
    t.Start? || t.PageRead? || t.RegionTest? || t.RegionRead?
  }

  predicate Written(t: Task) {
    t.RegionRemap? || t.RegionHead? || t.Got?
  }

  /** As long as no root is written, everybody works on the first frame. */
  ghost predicate Before(m: Shared, s: Store, l: Lists, t: Task) {
    && m.s == s && Allocating(t) && !Written(t) && !t.Halted?
    && (if l.ps != [] then t.Start? || t.PageRead? || t.PageMap? || t.PageNext? || t.PageRoot?
        else !t.PageRead? && !t.PageMap? && !t.PageNext? && !t.PageRoot?)
    && (!Unread(t) ==> t.p == First(l) && !t.late)
    && (t.PageNext? || t.RegionLen? || t.RegionNext? || t.RegionCopy? ==> m.window == First(l))
    && (t.PageRoot? || t.RegionRoot? ==> t.next != First(l))
  }

  /** Afterwards, who read early has the first frame and who reads late gets another. */
  ghost predicate After(m: Shared, l: Lists, t: Task) {
    && Allocating(t)
    && (Unread(t) ==> m.s.rootppg != First(l) && m.s.rootrgn != First(l))
    && (!Unread(t) && !t.Halted? ==> (t.p == First(l) <==> !t.late))
  }

  ghost predicate RaceOk(r: Race, s: Store, l: Lists) {
    if !r.m.wrote then Before(r.m, s, l, r.one) && Before(r.m, s, l, r.two)
    else
      && After(r.m, l, r.one) && After(r.m, l, r.two)
      && ((Written(r.one) && !r.one.late) || (Written(r.two) && !r.two.late))
  }

  lemma BeforeTurn(r: Race, first: bool, s: Store, l: Lists)
    requires Describes(s, l.rs, l.ps) && (l.rs != [] || l.ps != []) && !r.m.wrote && RaceOk(r, s, l)
    ensures RaceOk(Turn(r, first), s, l)
  {
    hide Describes;
    FirstWords(s, l);
  }

  lemma AfterStep(m: Shared, l: Lists, t: Task, other: Task)
    requires m.wrote && After(m, l, t) && After(m, l, other)
    requires (Written(t) && !t.late) || (Written(other) && !other.late)
    ensures var (m', t') := Advance(m, t);
            && m'.wrote && After(m', l, t') && After(m', l, other)
            && ((Written(t') && !t'.late) || (Written(other) && !other.late))
  {
  }

  lemma AfterTurn(r: Race, first: bool, s: Store, l: Lists)
    requires r.m.wrote && RaceOk(r, s, l)
    ensures RaceOk(Turn(r, first), s, l)
  {
    hide Advance, After, Written;
    if first { AfterStep(r.m, l, r.one, r.two); } else { AfterStep(r.m, l, r.two, r.one); }
  }

  lemma {:induction false} RaceKeeps(r: Race, order: seq<bool>, s: Store, l: Lists)
    requires Describes(s, l.rs, l.ps) && (l.rs != [] || l.ps != []) && RaceOk(r, s, l)
    ensures RaceOk(Turns(r, order), s, l)
    decreases |order|
  {
    hide Describes, RaceOk, Turn;
    if order != [] {
      if r.m.wrote { AfterTurn(r, order[0], s, l); } else { BeforeTurn(r, order[0], s, l); }
      RaceKeeps(Turn(r, order[0]), order[1..], s, l);
    }
  }

  /** Two allocations, step by step in any order: once both are done, they have the same frame iff each read the root
      before the other one wrote it. */
  lemma RaceIff(s: Store, l: Lists, window: int, order: seq<bool>)
    requires Describes(s, l.rs, l.ps) && (l.rs != [] || l.ps != [])
    ensures var r := Turns(Race(Shared(s, window, false), Start, Start), order);
            r.one.Got? && r.two.Got? ==> (r.one.p == r.two.p <==> !r.one.late && !r.two.late)
  {
    hide Describes, Turns;
    RaceKeeps(Race(Shared(s, window, false), Start, Start), order, s, l);
  }

  // ------------------------------------------------------------ an allocation and a free

  /** A free that runs while an allocation has the first page in the window: the allocation then reads the link of the
      freed page instead, so the frame that it hands out stays first on the list, and the freed one is lost. */
  lemma FreeInTheWindow(s: Store, l: Lists, window: int, q: int)
    requires Describes(s, l.rs, l.ps) && l.ps != [] && PageOk(q) && !Has(l.rs, l.ps, q)
    ensures var r := Turns(Race(Shared(s, window, false), Start, Give(q)),
                           [true, true, true, false, false, false, true, true]);
            r.one == Got(l.ps[0], false) && r.two == Given(q) && r.m.s.rootppg == l.ps[0]
  {
    hide Describes;
    FirstWords(s, l);
    var r0 := Race(Shared(s, window, false), Start, Give(q));
    var r3 := Race(Shared(s, l.ps[0], false), PageNext(l.ps[0], false), Give(q));
    var r6 := Race(Shared(s.(w0 := s.w0[q := l.ps[0]], rootppg := q), q, true), PageNext(l.ps[0], false), Given(q));
    var r7 := r6.(one := PageRoot(l.ps[0], false, l.ps[0]));
    var r8 := Race(r6.m.(s := r6.m.s.(rootppg := l.ps[0])), Got(l.ps[0], false), Given(q));
    assert Turn(Turn(Turn(r0, true), true), true) == r3;
    assert Turn(Turn(Turn(r3, false), false), false) == r6;
    assert Turn(r6, true) == r7 && Turn(r7, true) == r8;
    FromHere(r0, r3, r6, r7, r8);
  }

  lemma FromHere(r0: Race, r3: Race, r6: Race, r7: Race, r8: Race)
    requires Turn(Turn(Turn(r0, true), true), true) == r3 && Turn(Turn(Turn(r3, false), false), false) == r6
    requires Turn(r6, true) == r7 && Turn(r7, true) == r8
    ensures Turns(r0, [true, true, true, false, false, false, true, true]) == r8
  {
    hide Turn;
    var last := [true, true];
    assert [true, true, true, false, false, false, true, true] == [true, true, true] + ([false, false, false] + last);
    Three(r0, true, true, true, [false, false, false] + last);
    Three(r3, false, false, false, last);
    assert last[1..] == [true] && [true][1..] == [];
  }

  lemma Three(r: Race, a: bool, b: bool, c: bool, order: seq<bool>)
    ensures Turns(r, [a, b, c] + order) == Turns(Turn(Turn(Turn(r, a), b), c), order)
  {
    hide Turn, Turns;
    assert [a, b, c] + order == [a] + ([b] + ([c] + order));
    One(r, a, [b] + ([c] + order));
    One(Turn(r, a), b, [c] + order);
    One(Turn(Turn(r, a), b), c, order);
  }

  lemma One(r: Race, a: bool, order: seq<bool>)
    ensures Turns(r, [a] + order) == Turns(Turn(r, a), order)
  {
    assert ([a] + order)[1..] == order;
  }
}
