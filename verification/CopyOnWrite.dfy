/** Address spaces of src/mem/virt.c that share frames copy-on-write.

  A key names one page of one address space; its entry says which Page, and through it which frame, backs it.
  The specification gives every space a full private copy of what it maps.  The theorems say, page by page, that the
  sharing kernel cannot be told from it as long as every fork found the page `Isolating`, and that otherwise it can. */
module CopyOnWrite {
  import opened Basics

  const UPAGES := 786432   // user pages: VIRT(0) / PGLEN
  const NOPHYS := -1

  datatype Key = Key(space: int, page: int)
  type Content = seq<int>

  datatype Pte =
    | Absent
    | Demand(id: int)      // not present; names the Page that backs it on first use
    | Present(frame: int, writeable: bool, cow: bool, noshare: bool, phys: bool)

  /** The kernel's Page object; `frame` is NOPHYS until first use, `init` is what that use fills it with. */
  datatype Page = Page(frame: int, write: bool, noshare: bool, refs: int, init: Content)

  /** `owner` is the reverse map from frames to Pages; `frames` holds the frames handed out by the allocator. */
  datatype Mem = Mem(ptes: map<Key, Pte>, pages: map<int, Page>, owner: map<int, int>, frames: map<int, Content>)

  function At(s: Mem, k: Key): Pte {
    if k in s.ptes then s.ptes[k] else Absent
  }

  function PageOf(s: Mem, id: int): Page {
    if id in s.pages then s.pages[id] else Page(NOPHYS, false, false, 0, [])
  }

  /** The Page behind an entry, found through the reverse map when it is present. */
  function IdOf(s: Mem, p: Pte): int {
    match p
    case Demand(id) => id
    case Present(f, _, _, _, phys) => if !phys && f in s.owner then s.owner[f] else -1
    case Absent => -1
  }

  predicate Backed(p: Pte) {
    p.Demand? || (p.Present? && !p.phys)
  }

  function ContentOf(s: Mem, id: int): Content {
    var pg := PageOf(s, id);
    if pg.frame in s.frames then s.frames[pg.frame] else pg.init
  }

  predicate MayWrite(s: Mem, p: Pte) {
    match p
    case Absent => false
    case Demand(id) => PageOf(s, id).write
    case Present(_, w, cow, _, _) => w || cow
  }

  /** The space can reach a state where it writes this entry's frame without a copy being made first. */
  predicate InPlace(s: Mem, p: Pte) {
    match p
    case Absent => false
    case Demand(id) => PageOf(s, id).write
    case Present(_, w, _, _, _) => w
  }

  // ------------------------------------------------------------ what a space sees

  datatype Cell = Unmapped | Device | Private(content: Content, write: bool)

  function Sees(s: Mem, k: Key): Cell {
    var p := At(s, k);
    if p.Absent? then Unmapped
    else if !Backed(p) then Device
    else Private(ContentOf(s, IdOf(s, p)), MayWrite(s, p))
  }

  // ------------------------------------------------------------ invariants

  predicate EntryOk(s: Mem, p: Pte) {
    && (Backed(p) ==> IdOf(s, p) in s.pages && (p.Present? ==> p.frame in s.owner))
    && (p.Present? && p.phys ==> !p.cow)
  }

  predicate PageOk(s: Mem, id: int, pg: Page) {
    && id >= 0
    && pg.frame >= NOPHYS
    && |pg.init| == PGLEN
    && (pg.frame == NOPHYS || (pg.frame in s.owner && s.owner[pg.frame] == id))
  }

  predicate OwnerOk(s: Mem, f: int, id: int) {
    id in s.pages && s.pages[id].frame == f && f in s.frames && |s.frames[f]| == PGLEN && f >= 0
  }

  ghost predicate Sane(s: Mem) {
    && NOPHYS !in s.frames
    && (forall k :: EntryOk(s, At(s, k)))
    && (forall id :: id in s.pages ==> PageOk(s, id, s.pages[id]))
    && (forall f :: f in s.owner ==> OwnerOk(s, f, s.owner[f]))
  }

  predicate SamePage(s: Mem, k: Key, l: Key) {
    Backed(At(s, k)) && Backed(At(s, l)) && IdOf(s, At(s, k)) == IdOf(s, At(s, l))
  }

  /** Two different entries on one Page, the first of which could be written in place. */
  predicate Clash(s: Mem, k: Key, l: Key) {
    k != l && SamePage(s, k, l) && InPlace(s, At(s, k))
  }

  ghost predicate Exclusive(s: Mem) {
    forall k, l :: !Clash(s, k, l)
  }

  /** The page shares its frame with no other entry, or neither of them can be written in place. */
  ghost predicate Alone(s: Mem, k: Key) {
    forall l :: !Clash(s, k, l) && !Clash(s, l, k)
  }

  /** Entries on one Page sit at one place of their spaces: forks are all that spreads a Page. */
  ghost predicate OnePlace(s: Mem) {
    forall k, l :: SamePage(s, k, l) ==> k.page == l.page
  }

  /** A present entry has kept what its Page says about sharing and writing. */
  predicate MarkOk(s: Mem, p: Pte) {
    p.Present? && Backed(p) ==>
      p.noshare == PageOf(s, IdOf(s, p)).noshare && (p.writeable || p.cow <==> PageOf(s, IdOf(s, p)).write)
  }

  ghost predicate Marked(s: Mem) {
    forall k :: MarkOk(s, At(s, k))
  }

  // ------------------------------------------------------------ fork

  function Ref(s: Mem, id: int): map<int, Page> {
    if id in s.pages then s.pages[id := s.pages[id].(refs := s.pages[id].refs + 1)] else s.pages
  }

  predicate Splits(p: Pte, memshare: bool) {
    p.Present? && !p.phys && p.writeable && (!memshare || p.noshare)
  }

  /** What both spaces hold once the entry has been copied. */
  function Copied(p: Pte, memshare: bool): Pte {
    if Splits(p, memshare) then p.(writeable := false, cow := true) else p
  }

  /** One round of the inner loop of `vpgcopy`. */
  function CopyEntry(s: Mem, parent: int, child: int, v: int, memshare: bool): Mem {
    var p := At(s, Key(parent, v));
    if p.Absent? then s
    else if !Backed(p) then s.(ptes := s.ptes[Key(child, v) := p])
    else
      var q := Copied(p, memshare);
      s.(ptes := s.ptes[Key(parent, v) := q][Key(child, v) := q], pages := Ref(s, IdOf(s, p)))
  }

  function CopyUpTo(s: Mem, parent: int, child: int, n: nat, memshare: bool): Mem {
    if n == 0 then s else CopyEntry(CopyUpTo(s, parent, child, n - 1, memshare), parent, child, n - 1, memshare)
  }

  function Fork(s: Mem, parent: int, child: int, memshare: bool): Mem {
    CopyUpTo(s, parent, child, UPAGES, memshare)
  }

  /** Entries whose copy keeps the two spaces apart. */
  predicate Isolating(s: Mem, p: Pte, memshare: bool) {
    match p
    case Absent => true
    case Demand(id) => !PageOf(s, id).write
    case Present(_, w, _, noshare, phys) => phys || !w || !memshare || noshare
  }

  ghost predicate EmptySpace(s: Mem, a: int) {
    forall v :: At(s, Key(a, v)).Absent?
  }

  ghost predicate SameButRefs(s: Mem, t: Mem) {
    && t.owner == s.owner && t.frames == s.frames && t.pages.Keys == s.pages.Keys
    && forall id :: id in s.pages ==> t.pages[id] == s.pages[id].(refs := t.pages[id].refs)
  }

  function CopiedAt(s: Mem, parent: int, child: int, n: nat, memshare: bool, k: Key): Pte {
    if (k.space == parent || k.space == child) && 0 <= k.page < n then Copied(At(s, Key(parent, k.page)), memshare)
    else At(s, k)
  }

  lemma EntryShape(s: Mem, parent: int, child: int, v: int, memshare: bool)
    requires parent != child
    ensures SameButRefs(s, CopyEntry(s, parent, child, v, memshare))
    ensures forall k :: k != Key(parent, v) && k != Key(child, v) ==>
              At(CopyEntry(s, parent, child, v, memshare), k) == At(s, k)
    ensures !At(s, Key(parent, v)).Absent? || At(s, Key(child, v)).Absent? ==>
              && At(CopyEntry(s, parent, child, v, memshare), Key(parent, v)) == Copied(At(s, Key(parent, v)), memshare)
              && At(CopyEntry(s, parent, child, v, memshare), Key(child, v)) == Copied(At(s, Key(parent, v)), memshare)
  {
  }

  /** Exactly the copied pages of the two spaces change, and only reference counts beside them. */
  lemma {:induction false} CopyShape(s: Mem, parent: int, child: int, n: nat, memshare: bool)
    requires parent != child && EmptySpace(s, child)
    ensures SameButRefs(s, CopyUpTo(s, parent, child, n, memshare))
    ensures forall k :: At(CopyUpTo(s, parent, child, n, memshare), k) == CopiedAt(s, parent, child, n, memshare, k)
  {
    hide CopyEntry;
    if n > 0 {
      CopyShape(s, parent, child, n - 1, memshare);
      var t := CopyUpTo(s, parent, child, n - 1, memshare);
      EntryShape(t, parent, child, n - 1, memshare);
      assert At(t, Key(parent, n - 1)) == CopiedAt(s, parent, child, n - 1, memshare, Key(parent, n - 1));
      assert At(t, Key(child, n - 1)) == CopiedAt(s, parent, child, n - 1, memshare, Key(child, n - 1));
      forall k ensures At(CopyEntry(t, parent, child, n - 1, memshare), k) ==
        CopiedAt(s, parent, child, n, memshare, k) {
        hide CopyUpTo;
        assert At(t, k) == CopiedAt(s, parent, child, n - 1, memshare, k);
      }
    }
  }

  lemma RefsDoNotShow(s: Mem, t: Mem, p: Pte)
    requires SameButRefs(s, t)
    ensures IdOf(t, p) == IdOf(s, p) && ContentOf(t, IdOf(t, p)) == ContentOf(s, IdOf(s, p))
    ensures MayWrite(t, p) == MayWrite(s, p) && InPlace(t, p) == InPlace(s, p)
    ensures EntryOk(s, p) ==> EntryOk(t, p)
    ensures EntryOk(s, p) && MarkOk(s, p) ==> MarkOk(t, p)
  {
  }

  lemma CopiedShowsTheSame(s: Mem, p: Pte, memshare: bool)
    ensures var q := Copied(p, memshare);
            && Backed(q) == Backed(p) && IdOf(s, q) == IdOf(s, p) && MayWrite(s, q) == MayWrite(s, p)
            && (EntryOk(s, p) ==> EntryOk(s, q)) && (p.Absent? <==> q.Absent?)
            && (Backed(p) ==> (Isolating(s, p, memshare) <==> !InPlace(s, q)))
            && (InPlace(s, q) ==> InPlace(s, p))
            && (MarkOk(s, p) ==> MarkOk(s, q)) && (p.Present? ==> q.Present? && q.noshare == p.noshare)
  {
  }

  /** Forking changes what no space sees, and the child sees what the parent sees. */
  lemma ForkShows(s: Mem, parent: int, child: int, memshare: bool, k: Key)
    requires Sane(s) && parent != child && EmptySpace(s, child)
    ensures Sees(Fork(s, parent, child, memshare), k)
            == Sees(s, if k.space == child && 0 <= k.page < UPAGES then Key(parent, k.page) else k)
  {
    hide Sane, CopyUpTo;
    var t := Fork(s, parent, child, memshare);
    CopyShape(s, parent, child, UPAGES, memshare);
    assert At(t, k) == CopiedAt(s, parent, child, UPAGES, memshare, k);
    RefsDoNotShow(s, t, At(t, k));
    CopiedShowsTheSame(s, At(s, Key(parent, k.page)), memshare);
  }

  lemma ForkSane(s: Mem, parent: int, child: int, memshare: bool)
    requires Sane(s) && parent != child && EmptySpace(s, child)
    ensures Sane(Fork(s, parent, child, memshare))
  {
    hide CopyUpTo;
    var t := Fork(s, parent, child, memshare);
    CopyShape(s, parent, child, UPAGES, memshare);
    forall k ensures EntryOk(t, At(t, k)) {
      hide Sane, PageOk, OwnerOk;
      assert At(t, k) == CopiedAt(s, parent, child, UPAGES, memshare, k);
      assert EntryOk(s, At(s, k))
        && EntryOk(s, At(s, Key(parent, k.page))) by { SaneAt(s, k); SaneAt(s, Key(parent, k.page)); }
      CopiedShowsTheSame(s, At(s, Key(parent, k.page)), memshare);
      RefsDoNotShow(s, t, At(t, k));
    }
  }

  lemma SaneAt(s: Mem, k: Key)
    requires Sane(s)
    ensures EntryOk(s, At(s, k))
  {
  }

  /** Where an entry of the forked state came from. */
  function Origin(parent: int, child: int, k: Key): Key {
    if k.space == child && 0 <= k.page < UPAGES then Key(parent, k.page) else k
  }

  /** The fork copies this entry, or it is the copy. */
  predicate Forked(parent: int, child: int, k: Key) {
    (k.space == parent || k.space == child) && 0 <= k.page < UPAGES
  }

  lemma ForkAt(s: Mem, parent: int, child: int, memshare: bool, k: Key)
    requires parent != child && EmptySpace(s, child)
    ensures var t, o := Fork(s, parent, child, memshare), Origin(parent, child, k);
            && SameButRefs(s, t)
            && At(t, k) == if Forked(parent, child, k) then Copied(At(s, o), memshare) else At(s, o)
  {
    hide CopyUpTo;
    CopyShape(s, parent, child, UPAGES, memshare);
    assert At(Fork(s, parent, child, memshare), k) == CopiedAt(s, parent, child, UPAGES, memshare, k);
  }

  /** A clash after a fork was one before, or is between the two copies of an entry that is not `Isolating`. */
  lemma ForkClash(s: Mem, parent: int, child: int, memshare: bool, k: Key, l: Key)
    requires parent != child && EmptySpace(s, child)
    ensures var t, ko, lo := Fork(s, parent, child, memshare), Origin(parent, child, k), Origin(parent, child, l);
            Clash(t, k, l) ==> Clash(s, ko, lo) || (ko == lo && !Isolating(s, At(s, ko), memshare))
  {
    hide CopyUpTo;
    var t, ko, lo := Fork(s, parent, child, memshare), Origin(parent, child, k), Origin(parent, child, l);
    ForkAt(s, parent, child, memshare, k);
    ForkAt(s, parent, child, memshare, l);
    RefsDoNotShow(s, t, At(t, k));
    RefsDoNotShow(s, t, At(t, l));
    CopiedShowsTheSame(s, At(s, ko), memshare);
    CopiedShowsTheSame(s, At(s, lo), memshare);
  }

  /** Through an entry that is not `Isolating` the two spaces clash. */
  lemma CopiesClash(s: Mem, parent: int, child: int, memshare: bool, v: int)
    requires parent != child && EmptySpace(s, child) && 0 <= v < UPAGES
    requires !Isolating(s, At(s, Key(parent, v)), memshare)
    ensures var t := Fork(s, parent, child, memshare);
            Clash(t, Key(parent, v), Key(child, v)) && Clash(t, Key(child, v), Key(parent, v))
  {
    hide CopyUpTo;
    var t, k, l := Fork(s, parent, child, memshare), Key(parent, v), Key(child, v);
    ForkAt(s, parent, child, memshare, k);
    ForkAt(s, parent, child, memshare, l);
    CopiedShowsTheSame(s, At(s, k), memshare);
    RefsDoNotShow(s, t, At(t, k));
  }

  /** A clash with an entry of a third space outlives the fork, as long as that one is the one to be written. */
  lemma ClashStays(s: Mem, parent: int, child: int, memshare: bool, l: Key, k: Key)
    requires parent != child && EmptySpace(s, child) && !Forked(parent, child, l)
    requires Clash(s, l, Origin(parent, child, k))
    ensures Clash(Fork(s, parent, child, memshare), l, k)
  {
    hide CopyUpTo;
    var t, o := Fork(s, parent, child, memshare), Origin(parent, child, k);
    ForkAt(s, parent, child, memshare, k);
    ForkAt(s, parent, child, memshare, l);
    RefsDoNotShow(s, t, At(t, k));
    RefsDoNotShow(s, t, At(t, l));
    CopiedShowsTheSame(s, At(s, o), memshare);
  }

  /** The exact condition for one page, in the parent and in the child: it is alone after a fork iff its entry is
      `Isolating` and no other space could write it in place before.  The page itself may have been shared as long as
      it alone was writeable, because the fork takes that from it. */
  lemma ForkAloneIff(s: Mem, parent: int, child: int, memshare: bool, k: Key)
    requires OnePlace(s) && parent != child && EmptySpace(s, child)
    requires Forked(parent, child, k) && Backed(At(s, Key(parent, k.page)))
    ensures var o := Key(parent, k.page);
            Alone(Fork(s, parent, child, memshare), k)
            <==> Isolating(s, At(s, o), memshare) && forall l :: !Clash(s, l, o)
  {
    hide CopyUpTo;
    var t, o := Fork(s, parent, child, memshare), Key(parent, k.page);
    if !Isolating(s, At(s, o), memshare) {
      CopiesClash(s, parent, child, memshare, k.page);
    } else if l :| Clash(s, l, o) {
      assert SamePage(s, l, o) && l.page == o.page;
      ClashStays(s, parent, child, memshare, l, k);
    } else {
      ForkAt(s, parent, child, memshare, k);
      CopiedShowsTheSame(s, At(s, o), memshare);
      RefsDoNotShow(s, t, At(t, k));
      forall l ensures !Clash(t, k, l) && !Clash(t, l, k) {
        ForkClash(s, parent, child, memshare, l, k);
      }
    }
  }

  const ZEROS := seq(PGLEN, _ => 0)

  /** Such a page: space 1 reads what space 2 may write in place; once space 2 forks, its page is alone. */
  lemma AloneAgain()
    ensures var s := Mem(map[Key(1, 0) := Present(5, false, true, false, false),
                             Key(2, 0) := Present(5, true, false, false, false)],
                         map[7 := Page(5, true, false, 3, ZEROS)], map[5 := 7], map[5 := ZEROS]);
            Sane(s) && OnePlace(s) && !Alone(s, Key(2, 0)) && Alone(Fork(s, 2, 3, false), Key(2, 0))
  {
    hide CopyUpTo;
    var s := Mem(map[Key(1, 0) := Present(5, false, true, false, false),
                     Key(2, 0) := Present(5, true, false, false, false)],
                 map[7 := Page(5, true, false, 3, ZEROS)], map[5 := 7], map[5 := ZEROS]);
    assert Clash(s, Key(2, 0), Key(1, 0));
    ForkAloneIff(s, 2, 3, false, Key(2, 0));
  }

  /** The exact condition for all pages: a fork keeps every frame exclusive iff each page it copies is `Isolating`. */
  lemma ForkIsolatesIff(s: Mem, parent: int, child: int, memshare: bool)
    requires Sane(s) && Exclusive(s) && parent != child && EmptySpace(s, child)
    ensures Exclusive(Fork(s, parent, child, memshare))
            <==> forall v :: 0 <= v < UPAGES ==> Isolating(s, At(s, Key(parent, v)), memshare)
  {
    hide Sane, CopyUpTo;
    var t := Fork(s, parent, child, memshare);
    if v :| 0 <= v < UPAGES && !Isolating(s, At(s, Key(parent, v)), memshare) {
      CopiesClash(s, parent, child, memshare, v);
    } else {
      forall k, l ensures !Clash(t, k, l) {
        var ko, lo := Origin(parent, child, k), Origin(parent, child, l);
        ForkClash(s, parent, child, memshare, k, l);
        assert !Clash(s, ko, lo);
        if ko == lo && k != l {
          assert Isolating(s, At(s, Key(parent, ko.page)), memshare);
        }
      }
    }
  }

  // ------------------------------------------------------------ page faults

  /** A frame and a Page that the allocators may hand out. */
  predicate Unused(s: Mem, f: int, id: int) {
    f >= 0 && f !in s.frames && f !in s.owner && id >= 0 && id !in s.pages
  }

  /** `ensure`: make the page at `k` readable, or writeable; `f` and `id` are what ppgalloc and malloc would
      hand out. None is the fault that halts. */
  function Ensure(s: Mem, k: Key, write: bool, f: int, id: int): Option<Mem> {
    var p := At(s, k);
    match p
    case Absent => None
    case Present(_, w, cow, noshare, phys) =>
      if cow && write then
        var pg := PageOf(s, IdOf(s, p));
        var bytes := ContentOf(s, IdOf(s, p));
        Some(s.(ptes := s.ptes[k := Present(f, true, false, noshare, phys)],
                pages := s.pages[id := Page(f, pg.write, pg.noshare, 2, bytes)],
                owner := s.owner[f := id], frames := s.frames[f := bytes]))
      else if w || !write then Some(s) else None
    case Demand(d) =>
      var pg := PageOf(s, d);
      if pg.frame == NOPHYS then
        Some(s.(ptes := s.ptes[k := Present(f, pg.write, false, pg.noshare, false)],
                pages := s.pages[d := pg.(frame := f, refs := pg.refs + 1)],
                owner := s.owner[f := d], frames := s.frames[f := pg.init]))
      else Some(s.(ptes := s.ptes[k := Present(pg.frame, pg.write, false, pg.noshare, false)]))
  }

  lemma EnsureSane(s: Mem, k: Key, write: bool, f: int, id: int)
    requires Sane(s) && Unused(s, f, id) && Ensure(s, k, write, f, id).Some?
    ensures Sane(Ensure(s, k, write, f, id).value)
  {
    var t := Ensure(s, k, write, f, id).value;
    SaneAt(s, k);
    forall l ensures EntryOk(t, At(t, l)) {
      SaneAt(s, l);
    }
  }

  /** A page fault is refused iff nothing is mapped, or a page in use is to be written that the space may not write.
      At a page in use it changes nothing unless it breaks the sharing, and then the space gets the new frame. */
  lemma EnsureRefusesIff(s: Mem, k: Key, write: bool, f: int, id: int)
    requires Sane(s) && Unused(s, f, id)
    ensures var p, r := At(s, k), Ensure(s, k, write, f, id);
            && (r.None? <==> Sees(s, k) == Unmapped || (write && p.Present? && !MayWrite(s, p)))
            && (r.Some? && p.Present? && !(p.cow && write) ==> r.value == s)
            && (r.Some? && p.Present? && p.cow && write ==>
                  At(r.value, k).Present? && At(r.value, k).frame == f && IdOf(r.value, At(r.value, k)) == id)
  {
    SaneAt(s, k);
  }

  /** A page fault changes what no space sees. */
  lemma EnsureShows(s: Mem, k: Key, write: bool, f: int, id: int, l: Key)
    requires Sane(s) && Unused(s, f, id) && Ensure(s, k, write, f, id).Some?
    ensures Sees(Ensure(s, k, write, f, id).value, l) == Sees(s, l)
  {
    SaneAt(s, k);
    SaneAt(s, l);
  }

  /** A page fault makes no clash. */
  lemma EnsureClash(s: Mem, k: Key, write: bool, f: int, id: int, a: Key, b: Key)
    requires Sane(s) && Unused(s, f, id) && Ensure(s, k, write, f, id).Some?
    ensures var t := Ensure(s, k, write, f, id).value;
            (SamePage(t, a, b) && a != b ==> SamePage(s, a, b)) && (Clash(t, a, b) ==> Clash(s, a, b))
  {
    SaneAt(s, k);
    SaneAt(s, a);
    SaneAt(s, b);
  }

  // ------------------------------------------------------------ stores

  predicate Writeable(p: Pte) {
    p.Present? && p.writeable && !p.phys
  }

  /** What the hardware does with a store through a writeable entry. */
  function Write(s: Mem, f: int, off: int, x: int): Mem {
    if f in s.frames && 0 <= off < |s.frames[f]| then s.(frames := s.frames[f := s.frames[f][off := x]]) else s
  }

  /** A store, with the page fault it may take first; false is a store that is refused. */
  function Store(s: Mem, k: Key, off: int, x: int, f: int, id: int): (Mem, bool) {
    if Writeable(At(s, k)) then (Write(s, At(s, k).frame, off, x), true)
    else
      match Ensure(s, k, true, f, id)
      case None => (s, false)
      case Some(t) => if Writeable(At(t, k)) then (Write(t, At(t, k).frame, off, x), true) else (t, false)
  }

  lemma WriteSane(s: Mem, f: int, off: int, x: int)
    requires Sane(s)
    ensures Sane(Write(s, f, off, x))
  {
    forall k ensures EntryOk(Write(s, f, off, x), At(Write(s, f, off, x), k)) {
      SaneAt(s, k);
    }
  }

  /** A store in place shows in every entry on its Page and in no other. */
  lemma WriteShows(s: Mem, k: Key, off: int, x: int, l: Key)
    requires Sane(s) && Writeable(At(s, k)) && 0 <= off < PGLEN
    ensures var t := Write(s, At(s, k).frame, off, x);
            Sees(t, l) == if SamePage(s, k, l)
                          then Private(ContentOf(s, IdOf(s, At(s, k)))[off := x], MayWrite(s, At(s, l)))
                          else Sees(s, l)
  {
    SaneAt(s, k);
    SaneAt(s, l);
  }

  lemma WriteClash(s: Mem, f: int, off: int, x: int, a: Key, b: Key)
    ensures SamePage(Write(s, f, off, x), a, b) == SamePage(s, a, b)
    ensures Clash(Write(s, f, off, x), a, b) == Clash(s, a, b)
  {
  }

  lemma EnsureGrants(s: Mem, k: Key, f: int, id: int)
    requires Sane(s) && Unused(s, f, id) && !Sees(s, k).Device?
    ensures MayWrite(s, At(s, k)) ==>
              Ensure(s, k, true, f, id).Some? && Writeable(At(Ensure(s, k, true, f, id).value, k))
    ensures !MayWrite(s, At(s, k)) && Ensure(s, k, true, f, id).Some? ==>
              !Writeable(At(Ensure(s, k, true, f, id).value, k))
    ensures Writeable(At(s, k)) ==> MayWrite(s, At(s, k))
  {
  }

  // ------------------------------------------------------------ mapping and unmapping one page

  /** `vpgumap` at one page. */
  function Map(s: Mem, k: Key, id: int, write: bool, noshare: bool, init: Content): Mem {
    s.(ptes := s.ptes[k := Demand(id)], pages := s.pages[id := Page(NOPHYS, write, noshare, 1, init)])
  }

  /** Drop one reference; the last one frees the Page and its frame. */
  function Unref(s: Mem, id: int): Mem {
    var pg := PageOf(s, id);
    if pg.refs > 1 then s.(pages := s.pages[id := pg.(refs := pg.refs - 1)])
    else s.(pages := s.pages - {id}, owner := s.owner - {pg.frame}, frames := s.frames - {pg.frame})
  }

  /** `vpgunmap` at one page: an entry that is not present is left alone. */
  function Unmap(s: Mem, k: Key): Mem {
    var p := At(s, k);
    if !p.Present? then s
    else
      var t := s.(ptes := s.ptes[k := Absent]);
      if p.phys || p.frame !in s.owner then t else Unref(t, IdOf(s, p))
  }

  // ------------------------------------------------------------ reference counts

  function Holders(s: Mem, id: int): set<Key> {
    set k | k in s.ptes.Keys && Backed(s.ptes[k]) && IdOf(s, s.ptes[k]) == id
  }

  function Held(s: Mem, id: int): int {
    |Holders(s, id)| + if PageOf(s, id).frame == NOPHYS then 0 else 1
  }

  /** Every mapping of a Page is counted, and the reverse map counts as one more. */
  ghost predicate Counted(s: Mem) {
    forall id :: id in s.pages ==> s.pages[id].refs >= Held(s, id)
  }

  lemma EntryHolders(s: Mem, parent: int, child: int, v: int, memshare: bool, id: int)
    requires parent != child
    ensures Holders(CopyEntry(s, parent, child, v, memshare), id) <= Holders(s, id) + {Key(child, v)}
    ensures IdOf(s, At(s, Key(parent, v))) != id ==>
              Holders(CopyEntry(s, parent, child, v, memshare), id) <= Holders(s, id)
  {
    hide CopyEntry;
    var t := CopyEntry(s, parent, child, v, memshare);
    EntryShape(s, parent, child, v, memshare);
    forall l | l in Holders(t, id)
      ensures l in Holders(s, id) || (l == Key(child, v) && IdOf(s, At(s, Key(parent, v))) == id)
    {
      RefsDoNotShow(s, t, At(t, l));
      CopiedShowsTheSame(s, At(s, Key(parent, v)), memshare);
      EntryFrame(s, parent, child, v, memshare);
    }
  }

  lemma EntryFrame(s: Mem, parent: int, child: int, v: int, memshare: bool)
    ensures At(s, Key(parent, v)).Absent? ==> CopyEntry(s, parent, child, v, memshare) == s
    ensures var t := CopyEntry(s, parent, child, v, memshare); var i := IdOf(s, At(s, Key(parent, v)));
            forall id :: id in t.pages ==>
              && id in s.pages
              && t.pages[id].refs == s.pages[id].refs + if Backed(At(s, Key(parent, v))) && id == i then 1 else 0
  {
  }

  lemma EntryCounted(s: Mem, parent: int, child: int, v: int, memshare: bool)
    requires Counted(s) && parent != child && At(s, Key(child, v)).Absent?
    ensures Counted(CopyEntry(s, parent, child, v, memshare))
  {
    hide CopyEntry, Holders;
    var t := CopyEntry(s, parent, child, v, memshare);
    EntryShape(s, parent, child, v, memshare);
    EntryFrame(s, parent, child, v, memshare);
    forall id | id in t.pages ensures t.pages[id].refs >= Held(t, id) {
      assert s.pages[id].refs >= Held(s, id);
      EntryHolders(s, parent, child, v, memshare, id);
      SubsetSize(Holders(t, id), Holders(s, id) + {Key(child, v)});
      if IdOf(s, At(s, Key(parent, v))) != id {
        SubsetSize(Holders(t, id), Holders(s, id));
      } else if !Backed(At(s, Key(parent, v))) {
        EntryUnbacked(s, parent, child, v, memshare, id);
        SubsetSize(Holders(t, id), Holders(s, id));
      }
    }
  }

  lemma EntryUnbacked(s: Mem, parent: int, child: int, v: int, memshare: bool, id: int)
    requires !Backed(At(s, Key(parent, v)))
    ensures Holders(CopyEntry(s, parent, child, v, memshare), id) <= Holders(s, id)
  {
  }

  lemma {:induction false} CopyCounted(s: Mem, parent: int, child: int, n: nat, memshare: bool)
    requires Counted(s) && parent != child && EmptySpace(s, child)
    ensures Counted(CopyUpTo(s, parent, child, n, memshare))
  {
    hide Counted, CopyEntry;
    if n > 0 {
      CopyShape(s, parent, child, n - 1, memshare);
      var t := CopyUpTo(s, parent, child, n - 1, memshare);
      assert At(t, Key(child, n - 1)) == CopiedAt(s, parent, child, n - 1, memshare, Key(child, n - 1));
      CopyCounted(s, parent, child, n - 1, memshare);
      EntryCounted(t, parent, child, n - 1, memshare);
    }
  }

  lemma EnsureCounted(s: Mem, k: Key, write: bool, f: int, id: int)
    requires Sane(s) && Counted(s) && Unused(s, f, id) && Ensure(s, k, write, f, id).Some?
    ensures Counted(Ensure(s, k, write, f, id).value)
  {
    var t := Ensure(s, k, write, f, id).value;
    SaneAt(s, k);
    forall i | i in t.pages ensures t.pages[i].refs >= Held(t, i) {
      if i == id {
        assert Holders(t, i) <= {k} by {
          forall l | l in Holders(t, i) ensures l == k { SaneAt(s, l); }
        }
        assert |Holders(t, i)| <= |{k}| by { SubsetSize(Holders(t, i), {k}); }
      } else {
        assert s.pages[i].refs >= Held(s, i);
        assert Holders(t, i) <= Holders(s, i) by {
          forall l | l in Holders(t, i) ensures l in Holders(s, i) { SaneAt(s, l); }
        }
        SubsetSize(Holders(t, i), Holders(s, i));
      }
    }
  }

  lemma {:induction false} SubsetSize(a: set<Key>, b: set<Key>)
    requires a <= b
    ensures |a| <= |b|
  {
    if a != {} {
      var k :| k in a;
      SubsetSize(a - {k}, b - {k});
    }
  }

  /** A mapped Page is referenced at least twice, so dropping one mapping never reaches zero. */
  lemma MappedTwice(s: Mem, k: Key)
    requires Sane(s) && Counted(s) && At(s, k).Present? && Backed(At(s, k))
    ensures PageOf(s, IdOf(s, At(s, k))).refs >= 2
  {
    SaneAt(s, k);
    var id := IdOf(s, At(s, k));
    assert s.pages[id].refs >= Held(s, id);
    assert k in Holders(s, id);
    SubsetSize({k}, Holders(s, id));
  }

  /** Unmapping frees no frame at all: the reverse map's own reference outlives the last mapping. */
  lemma UnmapFreesNothing(s: Mem, k: Key)
    requires Sane(s) && Counted(s)
    ensures Unmap(s, k).frames == s.frames && Unmap(s, k).owner == s.owner && Unmap(s, k).pages.Keys == s.pages.Keys
    ensures SameButRefs(s, Unmap(s, k))
    ensures forall l :: At(Unmap(s, k), l) == if l == k && At(s, k).Present? then Absent else At(s, l)
  {
    SaneAt(s, k);
    if At(s, k).Present? && Backed(At(s, k)) {
      MappedTwice(s, k);
    }
  }

  lemma UnmapKeeps(s: Mem, k: Key)
    requires Sane(s) && Counted(s)
    ensures Sane(Unmap(s, k)) && Counted(Unmap(s, k))
  {
    var t := Unmap(s, k);
    UnmapFreesNothing(s, k);
    SaneAt(s, k);
    forall id | id in t.pages ensures t.pages[id].refs >= Held(t, id) {
      assert s.pages[id].refs >= Held(s, id);
      SubsetSize(Holders(t, id), Holders(s, id));
      if At(s, k).Present? && Backed(At(s, k)) && IdOf(s, At(s, k)) == id {
        assert k in Holders(s, id) && Holders(t, id) <= Holders(s, id) - {k};
        SubsetSize(Holders(t, id), Holders(s, id) - {k});
      }
    }
    forall l ensures EntryOk(t, At(t, l)) {
      SaneAt(s, l);
      RefsDoNotShow(s, t, At(s, l));
    }
  }

  /** Unmapping a page takes it from one space and from no other. */
  lemma UnmapShows(s: Mem, k: Key, l: Key)
    requires Sane(s) && Counted(s)
    ensures Sees(Unmap(s, k), l) == if l == k && At(s, k).Present? then Unmapped else Sees(s, l)
  {
    hide Unmap;
    UnmapFreesNothing(s, k);
    RefsDoNotShow(s, Unmap(s, k), At(s, l));
  }

  lemma UnmapClash(s: Mem, k: Key, a: Key, b: Key)
    requires Sane(s) && Counted(s)
    ensures SamePage(Unmap(s, k), a, b) ==> SamePage(s, a, b)
    ensures Clash(Unmap(s, k), a, b) ==> Clash(s, a, b)
  {
    hide Unmap, Sane, Counted;
    var t := Unmap(s, k);
    UnmapFreesNothing(s, k);
    RefsDoNotShow(s, t, At(s, a));
    RefsDoNotShow(s, t, At(s, b));
  }

  lemma MapKeeps(s: Mem, k: Key, id: int, write: bool, noshare: bool, init: Content)
    requires Sane(s) && Counted(s) && !At(s, k).Present? && id >= 0 && id !in s.pages && |init| == PGLEN
    ensures var t := Map(s, k, id, write, noshare, init); Sane(t) && Counted(t)
  {
    var t := Map(s, k, id, write, noshare, init);
    forall l ensures EntryOk(t, At(t, l)) {
      SaneAt(s, l);
    }
    MapCounted(s, k, id, write, noshare, init);
  }

  lemma MapShows(s: Mem, k: Key, id: int, write: bool, noshare: bool, init: Content, l: Key)
    requires Sane(s) && id >= 0 && id !in s.pages
    ensures Sees(Map(s, k, id, write, noshare, init), l) == if l == k then Private(init, write) else Sees(s, l)
  {
    SaneAt(s, l);
  }

  lemma MapClash(s: Mem, k: Key, id: int, write: bool, noshare: bool, init: Content, a: Key, b: Key)
    requires Sane(s) && id >= 0 && id !in s.pages
    ensures var t := Map(s, k, id, write, noshare, init);
            (SamePage(t, a, b) && a != b ==> SamePage(s, a, b)) && (Clash(t, a, b) ==> Clash(s, a, b))
  {
    SaneAt(s, a);
    SaneAt(s, b);
  }

  lemma MapCounted(s: Mem, k: Key, id: int, write: bool, noshare: bool, init: Content)
    requires Sane(s) && Counted(s) && id !in s.pages
    ensures Counted(Map(s, k, id, write, noshare, init))
  {
    var t := Map(s, k, id, write, noshare, init);
    forall i | i in t.pages ensures t.pages[i].refs >= Held(t, i) {
      if i == id {
        forall l | l in Holders(t, i) ensures l == k { SaneAt(s, l); }
        SubsetSize(Holders(t, i), {k});
      } else {
        assert s.pages[i].refs >= Held(s, i);
        SubsetSize(Holders(t, i), Holders(s, i));
      }
    }
  }

  // ------------------------------------------------------------ what an entry keeps of its Page

  lemma MarkAt(s: Mem, k: Key)
    requires Marked(s)
    ensures MarkOk(s, At(s, k))
  {
  }

  lemma EnsureMarked(s: Mem, k: Key, write: bool, f: int, id: int)
    requires Sane(s) && Marked(s) && Unused(s, f, id) && Ensure(s, k, write, f, id).Some?
    ensures Marked(Ensure(s, k, write, f, id).value)
  {
    var t := Ensure(s, k, write, f, id).value;
    forall l ensures MarkOk(t, At(t, l)) {
      EnsureMarkedAt(s, k, write, f, id, l);
    }
  }

  lemma EnsureMarkedAt(s: Mem, k: Key, write: bool, f: int, id: int, l: Key)
    requires Sane(s) && Marked(s) && Unused(s, f, id) && Ensure(s, k, write, f, id).Some?
    ensures var t := Ensure(s, k, write, f, id).value; MarkOk(t, At(t, l))
  {
    SaneAt(s, k);
    SaneAt(s, l);
    MarkAt(s, k);
    MarkAt(s, l);
  }

  lemma WriteMarked(s: Mem, f: int, off: int, x: int)
    requires Marked(s)
    ensures Marked(Write(s, f, off, x))
  {
    forall l ensures MarkOk(Write(s, f, off, x), At(Write(s, f, off, x), l)) {
      MarkAt(s, l);
    }
  }

  lemma MapMarked(s: Mem, k: Key, id: int, write: bool, noshare: bool, init: Content)
    requires Sane(s) && Marked(s) && id !in s.pages
    ensures Marked(Map(s, k, id, write, noshare, init))
  {
    forall l ensures var t := Map(s, k, id, write, noshare, init); MarkOk(t, At(t, l)) {
      SaneAt(s, l);
      MarkAt(s, l);
    }
  }

  lemma UnmapMarked(s: Mem, k: Key)
    requires Sane(s) && Counted(s) && Marked(s)
    ensures Marked(Unmap(s, k))
  {
    hide Unmap;
    UnmapFreesNothing(s, k);
    forall l ensures MarkOk(Unmap(s, k), At(Unmap(s, k), l)) {
      SaneAt(s, l);
      MarkAt(s, l);
      RefsDoNotShow(s, Unmap(s, k), At(s, l));
    }
  }

  lemma ForkMarked(s: Mem, parent: int, child: int, memshare: bool)
    requires Sane(s) && Marked(s) && parent != child && EmptySpace(s, child)
    ensures Marked(Fork(s, parent, child, memshare))
  {
    hide CopyUpTo, Sane;
    var t := Fork(s, parent, child, memshare);
    forall l ensures MarkOk(t, At(t, l)) {
      var o := Origin(parent, child, l);
      ForkAt(s, parent, child, memshare, l);
      SaneAt(s, o);
      MarkAt(s, o);
      CopiedShowsTheSame(s, At(s, o), memshare);
      RefsDoNotShow(s, t, At(t, l));
    }
  }

  // ------------------------------------------------------------ where references are lost

  /** References of a Page that neither an entry nor the reverse map holds. */
  function Slack(s: Mem, id: int): int {
    PageOf(s, id).refs - Held(s, id)
  }

  /** A fault that breaks the sharing of the entry. */
  predicate Breaks(p: Pte, write: bool) {
    p.Present? && p.cow && write
  }

  /** The holders after a page fault. */
  lemma EnsureHolders(s: Mem, k: Key, write: bool, f: int, id: int, i: int)
    requires Sane(s) && Unused(s, f, id) && Ensure(s, k, write, f, id).Some?
    ensures var t := Ensure(s, k, write, f, id).value;
            Holders(t, i) == if !Breaks(At(s, k), write) then Holders(s, i)
                             else if i == id then {k} else Holders(s, i) - {k}
  {
    var t := Ensure(s, k, write, f, id).value;
    forall l ensures l in Holders(t, i) <==>
        if Breaks(At(s, k), write) && (l == k || i == id) then l == k && i == id else l in Holders(s, i)
    {
      SaneAt(s, k);
      SaneAt(s, l);
    }
  }

  /** A page fault accounts for every reference, but for the one that the shared Page keeps when its copy is made. */
  lemma EnsureSlack(s: Mem, k: Key, write: bool, f: int, id: int, i: int)
    requires Sane(s) && Unused(s, f, id) && Ensure(s, k, write, f, id).Some? && (i in s.pages || i == id)
    ensures var t := Ensure(s, k, write, f, id).value;
            Slack(t, i) == if i == id then if Breaks(At(s, k), write) then 0 else Slack(s, i)
                           else Slack(s, i) + if Breaks(At(s, k), write) && IdOf(s, At(s, k)) == i then 1 else 0
  {
    SaneAt(s, k);
    EnsureHolders(s, k, write, f, id, i);
    if Breaks(At(s, k), write) && i != id {
      assert k in Holders(s, i) <==> IdOf(s, At(s, k)) == i;
    }
  }

  lemma EntryHolds(s: Mem, parent: int, child: int, v: int, memshare: bool, i: int)
    requires parent != child && At(s, Key(child, v)).Absent?
    ensures var t, p := CopyEntry(s, parent, child, v, memshare), At(s, Key(parent, v));
            Holders(t, i) == Holders(s, i) + if Backed(p) && IdOf(s, p) == i then {Key(child, v)} else {}
    ensures Key(child, v) !in Holders(s, i)
  {
    hide CopyEntry;
    var t, p := CopyEntry(s, parent, child, v, memshare), At(s, Key(parent, v));
    EntryShape(s, parent, child, v, memshare);
    CopiedShowsTheSame(s, p, memshare);
    forall l ensures l in Holders(t, i) <==>
        l in Holders(s, i) || (l == Key(child, v) && Backed(p) && IdOf(s, p) == i)
    {
      RefsDoNotShow(s, t, At(t, l));
      HoldsIs(s, l, i);
      HoldsIs(t, l, i);
    }
    HoldsIs(s, Key(child, v), i);
  }

  lemma HoldsIs(s: Mem, l: Key, i: int)
    ensures l in Holders(s, i) <==> Backed(At(s, l)) && IdOf(s, At(s, l)) == i
  {
  }

  lemma EntrySlack(s: Mem, parent: int, child: int, v: int, memshare: bool, i: int)
    requires parent != child && At(s, Key(child, v)).Absent? && i in s.pages
    ensures Slack(CopyEntry(s, parent, child, v, memshare), i) == Slack(s, i)
  {
    hide CopyEntry, Holders;
    EntryHolds(s, parent, child, v, memshare, i);
    EntryShape(s, parent, child, v, memshare);
    EntryFrame(s, parent, child, v, memshare);
  }

  lemma {:induction false} CopySlack(s: Mem, parent: int, child: int, n: nat, memshare: bool, i: int)
    requires parent != child && EmptySpace(s, child) && i in s.pages
    ensures Slack(CopyUpTo(s, parent, child, n, memshare), i) == Slack(s, i)
  {
    hide CopyEntry, Slack;
    if n > 0 {
      CopyShape(s, parent, child, n - 1, memshare);
      var t := CopyUpTo(s, parent, child, n - 1, memshare);
      assert At(t, Key(child, n - 1)) == CopiedAt(s, parent, child, n - 1, memshare, Key(child, n - 1));
      CopySlack(s, parent, child, n - 1, memshare, i);
      EntrySlack(t, parent, child, n - 1, memshare, i);
    }
  }

  lemma UnmapSlack(s: Mem, k: Key, i: int)
    requires Sane(s) && Counted(s) && i in s.pages
    ensures Slack(Unmap(s, k), i) == Slack(s, i)
  {
    var t, p := Unmap(s, k), At(s, k);
    SaneAt(s, k);
    UnmapFreesNothing(s, k);
    if p.Present? && Backed(p) {
      MappedTwice(s, k);
    }
    forall l ensures l in Holders(t, i) <==> l in Holders(s, i) && !(l == k && p.Present?) {
      RefsDoNotShow(s, t, At(t, l));
    }
    assert Holders(t, i) == Holders(s, i) - if p.Present? then {k} else {};
  }

  lemma MapHolders(s: Mem, k: Key, id: int, write: bool, noshare: bool, init: Content, i: int)
    requires Sane(s) && id >= 0 && id !in s.pages
    ensures Holders(Map(s, k, id, write, noshare, init), i) == if i == id then {k} else Holders(s, i) - {k}
  {
    hide Holders;
    var t := Map(s, k, id, write, noshare, init);
    forall l ensures l in Holders(t, i) <==> if i == id then l == k else l in Holders(s, i) && l != k {
      SaneAt(s, l);
      HoldsIs(s, l, i);
      HoldsIs(t, l, i);
    }
  }

  lemma MapSlack(s: Mem, k: Key, id: int, write: bool, noshare: bool, init: Content, i: int)
    requires Sane(s) && !At(s, k).Present? && id >= 0 && id !in s.pages && (i in s.pages || i == id)
    ensures Slack(Map(s, k, id, write, noshare, init), i)
            == if i == id then 0 else Slack(s, i) + if At(s, k) == Demand(i) then 1 else 0
  {
    hide Holders, Sane;
    MapHolders(s, k, id, write, noshare, init, i);
    HoldsIs(s, k, i);
  }

  lemma WriteSlack(s: Mem, f: int, off: int, x: int, i: int)
    ensures Slack(Write(s, f, off, x), i) == Slack(s, i)
  {
    assert Holders(Write(s, f, off, x), i) == Holders(s, i);
  }

  // ------------------------------------------------------------ runs against private copies

  datatype Op =
    | DoMap(k: Key, id: int, write: bool, noshare: bool, init: Content)
    | DoUnmap(k: Key)
    | DoLoad(k: Key, off: int, f: int, id: int)
    | DoStore(k: Key, off: int, x: int, f: int, id: int)
    | DoFork(parent: int, child: int, memshare: bool)

  datatype Answer = Done | Fault | Byte(value: int)

  function Load(s: Mem, k: Key, off: int, f: int, id: int): (Mem, Answer) {
    var r := if At(s, k).Present? then Some(s) else Ensure(s, k, false, f, id);
    if r.None? then (s, Fault)
    else
      var c := Sees(r.value, k);
      (r.value, if c.Private? && 0 <= off < |c.content| then Byte(c.content[off]) else Fault)
  }

  function Step(s: Mem, op: Op): (Mem, Answer) {
    match op
    case DoMap(k, id, write, noshare, init) => (Map(s, k, id, write, noshare, init), Done)
    case DoUnmap(k) => (Unmap(s, k), Done)
    case DoLoad(k, off, f, id) => Load(s, k, off, f, id)
    case DoStore(k, off, x, f, id) => var (t, ok) := Store(s, k, off, x, f, id); (t, if ok then Done else Fault)
    case DoFork(parent, child, memshare) => (Fork(s, parent, child, memshare), Done)
  }

  /** The specification: every space owns what it sees. */
  type View = Key -> Cell

  function PrivateStep(m: View, op: Op): (View, Answer) {
    match op
    case DoMap(k, _, write, _, init) => ((l: Key) => if l == k then Private(init, write) else m(l), Done)
    case DoUnmap(k) => ((l: Key) => if l == k then Unmapped else m(l), Done)
    case DoLoad(k, off, _, _) =>
      (m, if m(k).Private? && 0 <= off < |m(k).content| then Byte(m(k).content[off]) else Fault)
    case DoStore(k, off, x, _, _) =>
      var c: Cell := m(k);
      if c.Private? && c.write && 0 <= off < |c.content|
      then ((l: Key) => if l == k then Private(c.content[off := x], true) else m(l), Done)
      else (m, Fault)
    case DoFork(parent, child, _) =>
      ((l: Key) => if l.space == child && 0 <= l.page < UPAGES then m(Key(parent, l.page)) else m(l), Done)
  }

  /** What the callers and the allocators of the kernel guarantee. */
  ghost predicate Legal(s: Mem, op: Op) {
    match op
    case DoMap(k, id, _, _, init) => !At(s, k).Present? && id >= 0 && id !in s.pages && |init| == PGLEN
    case DoUnmap(_) => true
    case DoLoad(k, off, f, id) => 0 <= off < PGLEN && Unused(s, f, id) && !Sees(s, k).Device?
    case DoStore(k, off, _, f, id) => 0 <= off < PGLEN && Unused(s, f, id) && !Sees(s, k).Device?
    case DoFork(parent, child, _) => parent != child && EmptySpace(s, child)
  }

  /** The pages that are still private after a step: a fork shares what is not `Isolating`, page by page, and an
      unmapping that finds a page untouched leaves it where it is. */
  ghost function Kept(s: Mem, keep: iset<Key>, op: Op): iset<Key> {
    match op
    case DoMap(k, _, _, _, _) => keep + iset{k}
    case DoUnmap(k) => if At(s, k).Demand? then keep - iset{k} else keep + iset{k}
    case DoFork(parent, child, memshare) =>
      iset l | Origin(parent, child, l) in keep
               && (Forked(parent, child, l) ==> Isolating(s, At(s, Origin(parent, child, l)), memshare))
    case _ => keep
  }

  ghost predicate Inv(s: Mem) {
    Sane(s) && Counted(s) && OnePlace(s) && Marked(s)
  }

  /** The pages of `keep` are nobody else's, and hold what the private copies hold. */
  ghost predicate Shows(s: Mem, m: View, keep: iset<Key>) {
    forall k :: k in keep ==> Alone(s, k) && Sees(s, k) == m(k)
  }

  /** The step asks about a private page, or has nothing to tell. */
  ghost predicate AsksKept(keep: iset<Key>, op: Op) {
    match op
    case DoLoad(k, _, _, _) => k in keep
    case DoStore(k, _, _, _, _) => k in keep
    case _ => true
  }

  lemma EnsureKeeps(s: Mem, k: Key, write: bool, f: int, id: int, m: View, keep: iset<Key>)
    requires Inv(s) && Shows(s, m, keep) && Unused(s, f, id) && Ensure(s, k, write, f, id).Some?
    ensures var t := Ensure(s, k, write, f, id).value; Inv(t) && Shows(t, m, keep)
  {
    hide Ensure, Sane, Counted, Sees, Clash, SamePage, Marked;
    var t := Ensure(s, k, write, f, id).value;
    EnsureMarked(s, k, write, f, id);
    EnsureSane(s, k, write, f, id);
    EnsureCounted(s, k, write, f, id);
    forall a, b ensures (SamePage(t, a, b) && a != b ==> SamePage(s, a, b)) && (Clash(t, a, b) ==> Clash(s, a, b)) {
      EnsureClash(s, k, write, f, id, a, b);
    }
    forall l ensures Sees(t, l) == Sees(s, l) {
      EnsureShows(s, k, write, f, id, l);
    }
  }

  lemma LoadKeeps(s: Mem, k: Key, off: int, f: int, id: int, m: View, keep: iset<Key>)
    requires Inv(s) && Shows(s, m, keep) && Legal(s, DoLoad(k, off, f, id))
    ensures Inv(Load(s, k, off, f, id).0) && Shows(Load(s, k, off, f, id).0, m, keep)
    ensures k in keep ==> Load(s, k, off, f, id).1 == PrivateStep(m, DoLoad(k, off, f, id)).1
  {
    hide Sane, Alone, Counted, OnePlace, Marked, ContentOf;
    if !At(s, k).Present? && Ensure(s, k, false, f, id).Some? {
      EnsureKeeps(s, k, false, f, id, m, keep);
    }
  }

  lemma WriteCounted(s: Mem, f: int, off: int, x: int)
    requires Counted(s)
    ensures Counted(Write(s, f, off, x))
  {
    var t := Write(s, f, off, x);
    forall id | id in t.pages ensures t.pages[id].refs >= Held(t, id) {
      assert s.pages[id].refs >= Held(s, id);
      assert Holders(t, id) == Holders(s, id);
    }
  }

  lemma FullContent(s: Mem, k: Key)
    requires Sane(s) && Backed(At(s, k))
    ensures |ContentOf(s, IdOf(s, At(s, k)))| == PGLEN
  {
    SaneAt(s, k);
  }

  /** A store in place, through whichever page, changes no private page but its own. */
  lemma WriteKeeps(s: Mem, k: Key, off: int, x: int, m: View, keep: iset<Key>)
    requires Inv(s) && Shows(s, m, keep) && Writeable(At(s, k)) && 0 <= off < PGLEN
    ensures |ContentOf(s, IdOf(s, At(s, k)))| == PGLEN
    ensures var t := Write(s, At(s, k).frame, off, x);
            Inv(t) && forall l :: l in keep ==>
              && Alone(t, l)
              && Sees(t, l) == if l == k then Private(ContentOf(s, IdOf(s, At(s, k)))[off := x], true) else m(l)
  {
    hide Sane, Counted, Sees, ContentOf, Write, SamePage, Marked;
    FullContent(s, k);
    var f := At(s, k).frame;
    var t := Write(s, f, off, x);
    WriteSane(s, f, off, x);
    WriteCounted(s, f, off, x);
    WriteMarked(s, f, off, x);
    forall a, b ensures SamePage(t, a, b) == SamePage(s, a, b) && Clash(t, a, b) == Clash(s, a, b) {
      WriteClash(s, f, off, x, a, b);
    }
    forall l | l in keep
      ensures Sees(t, l) == if l == k then Private(ContentOf(s, IdOf(s, At(s, k)))[off := x], true) else m(l)
    {
      WriteShows(s, k, off, x, l);
      assert SamePage(s, k, k) by { OwnPage(s, k); }
      assert !Clash(s, k, l);
    }
  }

  lemma OwnPage(s: Mem, k: Key)
    requires Writeable(At(s, k))
    ensures SamePage(s, k, k)
  {
  }

  lemma StoreKeeps(s: Mem, k: Key, off: int, x: int, f: int, id: int, m: View, keep: iset<Key>)
    requires Inv(s) && Shows(s, m, keep) && Legal(s, DoStore(k, off, x, f, id))
    ensures var op := DoStore(k, off, x, f, id);
            && Inv(Step(s, op).0) && Shows(Step(s, op).0, PrivateStep(m, op).0, keep)
            && (k in keep ==> Step(s, op).1 == PrivateStep(m, op).1)
  {
    hide Inv, Alone, ContentOf, Ensure, Write;
    var op := DoStore(k, off, x, f, id);
    InvSane(s);
    EnsureGrants(s, k, f, id);
    var t := s;
    if !Writeable(At(s, k)) && Ensure(s, k, true, f, id).Some? {
      EnsureKeeps(s, k, true, f, id, m, keep);
      t := Ensure(s, k, true, f, id).value;
    }
    if Writeable(At(t, k)) {
      InvSane(t);
      FullContent(t, k);
      WriteKeeps(t, k, off, x, m, keep);
    }
  }

  lemma InvSane(s: Mem)
    requires Inv(s)
    ensures Sane(s)
  {
  }

  lemma MapStep(s: Mem, op: Op, m: View, keep: iset<Key>)
    requires Inv(s) && Shows(s, m, keep) && Legal(s, op) && op.DoMap?
    ensures Inv(Step(s, op).0) && Shows(Step(s, op).0, PrivateStep(m, op).0, Kept(s, keep, op))
  {
    hide Sane, Counted, Sees, Clash, SamePage, Map, Marked;
    var DoMap(k, id, write, noshare, init) := op;
    var t := Map(s, k, id, write, noshare, init);
    MapKeeps(s, k, id, write, noshare, init);
    MapMarked(s, k, id, write, noshare, init);
    forall a, b ensures (SamePage(t, a, b) && a != b ==> SamePage(s, a, b)) && (Clash(t, a, b) ==> Clash(s, a, b)) {
      MapClash(s, k, id, write, noshare, init, a, b);
    }
    forall l ensures Sees(t, l) == if l == k then Private(init, write) else Sees(s, l) {
      MapShows(s, k, id, write, noshare, init, l);
    }
    forall l ensures !Clash(t, k, l) && !Clash(t, l, k) {
      NewPageAlone(s, k, id, write, noshare, init, l);
    }
  }

  lemma NewPageAlone(s: Mem, k: Key, id: int, write: bool, noshare: bool, init: Content, l: Key)
    requires Sane(s) && id >= 0 && id !in s.pages
    ensures var t := Map(s, k, id, write, noshare, init); !Clash(t, k, l) && !Clash(t, l, k)
  {
    SaneAt(s, l);
  }

  lemma UnmapStep(s: Mem, k: Key, m: View, keep: iset<Key>)
    requires Inv(s) && Shows(s, m, keep)
    ensures var op := DoUnmap(k);
            Inv(Step(s, op).0) && Shows(Step(s, op).0, PrivateStep(m, op).0, Kept(s, keep, op))
  {
    hide Sane, Counted, Sees, Clash, SamePage, Unmap, Marked;
    var t := Unmap(s, k);
    UnmapKeeps(s, k);
    UnmapMarked(s, k);
    forall a, b ensures (SamePage(t, a, b) ==> SamePage(s, a, b)) && (Clash(t, a, b) ==> Clash(s, a, b)) {
      UnmapClash(s, k, a, b);
    }
    forall l ensures Sees(t, l) == if l == k && At(s, k).Present? then Unmapped else Sees(s, l) {
      UnmapShows(s, k, l);
    }
    if !At(s, k).Demand? {
      UnmappedAlone(s, k);
    }
  }

  lemma UnmappedAlone(s: Mem, k: Key)
    requires Sane(s) && Counted(s) && !At(s, k).Demand?
    ensures Sees(Unmap(s, k), k) == Unmapped && Alone(Unmap(s, k), k)
  {
    hide Unmap;
    UnmapFreesNothing(s, k);
  }

  lemma ForkStep(s: Mem, op: Op, m: View, keep: iset<Key>)
    requires Inv(s) && Shows(s, m, keep) && Legal(s, op) && op.DoFork?
    ensures Inv(Step(s, op).0) && Shows(Step(s, op).0, PrivateStep(m, op).0, Kept(s, keep, op))
  {
    hide Sane, Counted, Sees, Clash, SamePage, CopyUpTo, Isolating, Marked;
    var DoFork(parent, child, memshare) := op;
    var t := Fork(s, parent, child, memshare);
    ForkSane(s, parent, child, memshare);
    CopyCounted(s, parent, child, UPAGES, memshare);
    ForkOnePlace(s, parent, child, memshare);
    ForkMarked(s, parent, child, memshare);
    forall l | l in Kept(s, keep, op) ensures Alone(t, l) && Sees(t, l) == PrivateStep(m, op).0(l) {
      ForkShows(s, parent, child, memshare, l);
      forall a ensures !Clash(t, a, l) && !Clash(t, l, a) {
        ForkClash(s, parent, child, memshare, a, l);
        ForkClash(s, parent, child, memshare, l, a);
        assert Alone(s, Origin(parent, child, l));
        TwoOrigins(parent, child, a, l);
        SelfClash(t, l);
      }
    }
  }

  lemma SelfClash(s: Mem, k: Key)
    ensures !Clash(s, k, k)
  {
  }

  lemma TwoOrigins(parent: int, child: int, k: Key, l: Key)
    requires parent != child
    ensures Origin(parent, child, k) == Origin(parent, child, l) ==>
              k == l || (Forked(parent, child, k) && Forked(parent, child, l))
  {
  }

  lemma ForkOnePlace(s: Mem, parent: int, child: int, memshare: bool)
    requires OnePlace(s) && parent != child && EmptySpace(s, child)
    ensures OnePlace(Fork(s, parent, child, memshare))
  {
    hide CopyUpTo;
    var t := Fork(s, parent, child, memshare);
    forall k, l | SamePage(t, k, l) ensures k.page == l.page {
      var ko, lo := Origin(parent, child, k), Origin(parent, child, l);
      ForkAt(s, parent, child, memshare, k);
      ForkAt(s, parent, child, memshare, l);
      RefsDoNotShow(s, t, At(t, k));
      RefsDoNotShow(s, t, At(t, l));
      CopiedShowsTheSame(s, At(s, ko), memshare);
      CopiedShowsTheSame(s, At(s, lo), memshare);
      assert SamePage(s, ko, lo);
    }
  }

  /** One step of the kernel is one step of the private copies at every page that is still private, whatever it does
      at the others. */
  lemma StepRefines(s: Mem, op: Op, m: View, keep: iset<Key>)
    requires Inv(s) && Shows(s, m, keep) && Legal(s, op)
    ensures Inv(Step(s, op).0) && Shows(Step(s, op).0, PrivateStep(m, op).0, Kept(s, keep, op))
    ensures AsksKept(keep, op) ==> Step(s, op).1 == PrivateStep(m, op).1
  {
    hide Inv, Shows;
    match op
    case DoMap(_, _, _, _, _) => MapStep(s, op, m, keep);
    case DoUnmap(k) => UnmapStep(s, k, m, keep);
    case DoLoad(k, off, f, id) => LoadKeeps(s, k, off, f, id, m, keep);
    case DoStore(k, off, x, f, id) => StoreKeeps(s, k, off, x, f, id, m, keep);
    case DoFork(_, _, _) => ForkStep(s, op, m, keep);
  }

  /** The reference that a step leaves with nobody: that of the shared Page whose copy a store breaks away, and that of
      an untouched page which another one is mapped over. */
  function Lost(s: Mem, op: Op, i: int): int {
    match op
    case DoMap(k, _, _, _, _) => if At(s, k) == Demand(i) then 1 else 0
    case DoStore(k, _, _, _, _) =>
      if !Writeable(At(s, k)) && Breaks(At(s, k), true) && IdOf(s, At(s, k)) == i then 1 else 0
    case _ => 0
  }

  /** Every step accounts for all other references of every Page, and for all of those of a new one. */
  lemma StepSlack(s: Mem, op: Op, i: int)
    requires Inv(s) && Legal(s, op) && i in Step(s, op).0.pages
    ensures Slack(Step(s, op).0, i) == if i in s.pages then Slack(s, i) + Lost(s, op, i) else 0
  {
    hide Slack, OnePlace, Marked;
    match op
    case DoMap(k, id, write, noshare, init) => MapSlack(s, k, id, write, noshare, init, i);
    case DoUnmap(k) =>
      UnmapFreesNothing(s, k);
      UnmapSlack(s, k, i);
    case DoLoad(k, _, f, id) =>
      if !At(s, k).Present? && Ensure(s, k, false, f, id).Some? { EnsureSlack(s, k, false, f, id, i); }
    case DoStore(k, off, x, f, id) => StoreSlack(s, op, i);
    case DoFork(parent, child, memshare) =>
      CopyShape(s, parent, child, UPAGES, memshare);
      CopySlack(s, parent, child, UPAGES, memshare, i);
  }

  lemma EnsurePages(s: Mem, k: Key, write: bool, f: int, id: int)
    requires Sane(s) && Ensure(s, k, write, f, id).Some?
    ensures Ensure(s, k, write, f, id).value.pages.Keys == s.pages.Keys + if Breaks(At(s, k), write) then {id} else {}
  {
    SaneAt(s, k);
  }

  lemma StoreSlack(s: Mem, op: Op, i: int)
    requires Sane(s) && op.DoStore? && Legal(s, op) && i in Step(s, op).0.pages
    ensures Slack(Step(s, op).0, i) == if i in s.pages then Slack(s, i) + Lost(s, op, i) else 0
  {
    hide Slack, Sane;
    var DoStore(k, off, x, f, id) := op;
    var t := s;
    if !Writeable(At(s, k)) && Ensure(s, k, true, f, id).Some? {
      EnsurePages(s, k, true, f, id);
      EnsureSlack(s, k, true, f, id, i);
      t := Ensure(s, k, true, f, id).value;
    }
    if Writeable(At(t, k)) { WriteSlack(t, At(t, k).frame, off, x, i); }
  }

  ghost predicate LegalRun(s: Mem, ops: seq<Op>)
    decreases |ops|
  {
    ops == [] || (Legal(s, ops[0]) && LegalRun(Step(s, ops[0]).0, ops[1..]))
  }

  function Answers(s: Mem, ops: seq<Op>): (r: seq<Answer>)
    ensures |r| == |ops|
    decreases |ops|
  {
    if ops == [] then [] else [Step(s, ops[0]).1] + Answers(Step(s, ops[0]).0, ops[1..])
  }

  function PrivateAnswers(m: View, ops: seq<Op>): (r: seq<Answer>)
    ensures |r| == |ops|
    decreases |ops|
  {
    if ops == [] then [] else [PrivateStep(m, ops[0]).1] + PrivateAnswers(PrivateStep(m, ops[0]).0, ops[1..])
  }

  /** The pages that are still private before step `i`. */
  ghost function KeptBefore(s: Mem, keep: iset<Key>, ops: seq<Op>, i: nat): iset<Key>
    requires i <= |ops|
    decreases |ops|
  {
    if i == 0 then keep else KeptBefore(Step(s, ops[0]).0, Kept(s, keep, ops[0]), ops[1..], i - 1)
  }

  /** Over every run, with any tree of any forks: at each page that is still private, every load and store is answered
      as private full copies would answer it, whatever is shared at other pages and done there. */
  lemma {:induction false} SharingIsInvisible(s: Mem, m: View, keep: iset<Key>, ops: seq<Op>)
    requires Inv(s) && Shows(s, m, keep) && LegalRun(s, ops)
    ensures forall i :: 0 <= i < |ops| && AsksKept(KeptBefore(s, keep, ops, i), ops[i]) ==>
              Answers(s, ops)[i] == PrivateAnswers(m, ops)[i]
    decreases |ops|
  {
    hide Inv, Shows, Legal, Step, PrivateStep, AsksKept, Kept;
    if ops != [] {
      StepRefines(s, ops[0], m, keep);
      var s', m', keep' := Step(s, ops[0]).0, PrivateStep(m, ops[0]).0, Kept(s, keep, ops[0]);
      SharingIsInvisible(s', m', keep', ops[1..]);
      forall i | 0 <= i < |ops| && AsksKept(KeptBefore(s, keep, ops, i), ops[i])
        ensures Answers(s, ops)[i] == PrivateAnswers(m, ops)[i]
      {
        if i > 0 {
          assert ops[1..][i - 1] == ops[i];
          assert AsksKept(KeptBefore(s', keep', ops[1..], i - 1), ops[1..][i - 1]);
        }
      }
    }
  }

  // ------------------------------------------------------------ pages that are not to be shared

  /** Whether the page may be shared, as its map call said. */
  predicate NoShare(s: Mem, k: Key) {
    PageOf(s, IdOf(s, At(s, k))).noshare
  }

  /** The page that the step makes this one from. */
  function Source(op: Op, k: Key): Key {
    if op.DoFork? then Origin(op.parent, op.child, k) else k
  }

  lemma EnsureNoShare(s: Mem, l: Key, write: bool, f: int, id: int, k: Key)
    requires Sane(s) && Unused(s, f, id) && Backed(At(s, k)) && Ensure(s, l, write, f, id).Some?
    ensures var t := Ensure(s, l, write, f, id).value; Backed(At(t, k)) && NoShare(t, k) == NoShare(s, k)
  {
    SaneAt(s, k);
    SaneAt(s, l);
  }

  lemma StoreNoShare(s: Mem, l: Key, off: int, x: int, f: int, id: int, k: Key)
    requires Sane(s) && Unused(s, f, id) && Backed(At(s, k))
    ensures var t := Store(s, l, off, x, f, id).0; Backed(At(t, k)) && NoShare(t, k) == NoShare(s, k)
  {
    hide Ensure, Sane;
    if Ensure(s, l, true, f, id).Some? { EnsureNoShare(s, l, true, f, id, k); }
  }

  lemma ForkNoShare(s: Mem, parent: int, child: int, memshare: bool, k: Key)
    requires parent != child && EmptySpace(s, child) && Backed(At(s, Origin(parent, child, k)))
    ensures var t := Fork(s, parent, child, memshare);
            Backed(At(t, k)) && NoShare(t, k) == NoShare(s, Origin(parent, child, k))
  {
    hide CopyUpTo;
    ForkAt(s, parent, child, memshare, k);
    CopiedShowsTheSame(s, At(s, Origin(parent, child, k)), memshare);
    RefsDoNotShow(s, Fork(s, parent, child, memshare), At(Fork(s, parent, child, memshare), k));
  }

  lemma MapNoShare(s: Mem, op: Op, k: Key)
    requires op.DoMap? && Legal(s, op) && Sane(s) && (k == op.k || Backed(At(s, k)))
    ensures var t := Step(s, op).0;
            Backed(At(t, k)) && NoShare(t, k) == if k == op.k then op.noshare else NoShare(s, k)
  {
    SaneAt(s, k);
  }

  lemma UnmapNoShare(s: Mem, l: Key, k: Key)
    requires Sane(s) && Counted(s) && Backed(At(s, k)) && k != l
    ensures Backed(At(Unmap(s, l), k)) && NoShare(Unmap(s, l), k) == NoShare(s, k)
  {
    hide Unmap, Counted;
    UnmapFreesNothing(s, l);
    RefsDoNotShow(s, Unmap(s, l), At(s, k));
  }

  /** What the map call says about sharing is never forgotten, and never made up: it goes with the page through every
      use and to every child of every fork. */
  lemma NoShareStays(s: Mem, op: Op, k: Key)
    requires Inv(s) && Legal(s, op) && op != DoUnmap(k)
    requires (op.DoMap? && op.k == k) || Backed(At(s, Source(op, k)))
    ensures Backed(At(Step(s, op).0, k))
    ensures NoShare(Step(s, op).0, k) <==>
              if op.DoMap? && op.k == k then op.noshare else NoShare(s, Source(op, k))
  {
    hide Sane, Counted, OnePlace, Marked, Unmap, Ensure, CopyUpTo, NoShare;
    match op
    case DoMap(_, _, _, _, _) => MapNoShare(s, op, k);
    case DoUnmap(l) => UnmapNoShare(s, l, k);
    case DoLoad(l, _, f, id) =>
      if Ensure(s, l, false, f, id).Some? { EnsureNoShare(s, l, false, f, id, k); }
    case DoStore(l, off, x, f, id) => StoreNoShare(s, l, off, x, f, id, k);
    case DoFork(parent, child, memshare) => ForkNoShare(s, parent, child, memshare, k);
  }

  /** The page is in use and is not to be shared. */
  predicate Guarded(s: Mem, k: Key) {
    At(s, k).Present? && Backed(At(s, k)) && At(s, k).noshare
  }

  /** It stays so until it is unmapped, no fork takes it from the private pages, and the child's copy is such a page. */
  lemma GuardedStep(s: Mem, keep: iset<Key>, op: Op, k: Key)
    requires Inv(s) && Legal(s, op) && Guarded(s, k) && op != DoUnmap(k)
    ensures Guarded(Step(s, op).0, k)
    ensures k in keep ==> k in Kept(s, keep, op)
    ensures op.DoFork? && Origin(op.parent, op.child, Key(op.child, k.page)) == k ==>
              && Guarded(Step(s, op).0, Key(op.child, k.page))
              && (k in keep ==> Key(op.child, k.page) in Kept(s, keep, op))
  {
    hide Sane, Counted, OnePlace, Marked, Unmap, Ensure, Guarded, CopyUpTo, Isolating;
    match op
    case DoMap(l, _, _, _, _) => MapGuarded(s, op, k);
    case DoUnmap(l) => UnmapGuarded(s, l, k);
    case DoLoad(l, _, f, id) => EnsureGuarded(s, l, false, f, id, k);
    case DoStore(l, off, x, f, id) => StoreGuarded(s, l, off, x, f, id, k);
    case DoFork(parent, child, memshare) =>
      ForkGuarded(s, parent, child, memshare, k, k);
      ForkGuarded(s, parent, child, memshare, Key(child, k.page), k);
  }

  lemma MapGuarded(s: Mem, op: Op, k: Key)
    requires op.DoMap? && Legal(s, op) && Guarded(s, k)
    ensures Guarded(Step(s, op).0, k) && op.k != k
  {
  }

  lemma UnmapGuarded(s: Mem, l: Key, k: Key)
    requires Sane(s) && Counted(s) && Guarded(s, k) && l != k
    ensures Guarded(Unmap(s, l), k)
  {
    hide Unmap;
    UnmapFreesNothing(s, l);
  }

  lemma EnsureGuarded(s: Mem, l: Key, write: bool, f: int, id: int, k: Key)
    requires Guarded(s, k)
    ensures Ensure(s, l, write, f, id).Some? ==> Guarded(Ensure(s, l, write, f, id).value, k)
  {
  }

  lemma StoreGuarded(s: Mem, l: Key, off: int, x: int, f: int, id: int, k: Key)
    requires Guarded(s, k)
    ensures Guarded(Store(s, l, off, x, f, id).0, k)
  {
    hide Ensure;
    EnsureGuarded(s, l, true, f, id, k);
  }

  lemma ForkGuarded(s: Mem, parent: int, child: int, memshare: bool, l: Key, k: Key)
    requires parent != child && EmptySpace(s, child) && Guarded(s, k)
    ensures Origin(parent, child, l) == k ==> Guarded(Fork(s, parent, child, memshare), l)
    ensures Isolating(s, At(s, k), memshare) && k.space != child
  {
    hide CopyUpTo;
    ForkAt(s, parent, child, memshare, l);
    CopiedShowsTheSame(s, At(s, k), memshare);
  }

  lemma {:induction false} GuardedStays(s: Mem, keep: iset<Key>, ops: seq<Op>, k: Key)
    requires Inv(s) && LegalRun(s, ops) && Guarded(s, k) && k in keep && DoUnmap(k) !in ops
    ensures forall i :: 0 <= i <= |ops| ==> k in KeptBefore(s, keep, ops, i)
    decreases |ops|
  {
    hide Inv, Legal, Step, Kept, Guarded;
    if ops != [] {
      StepInv(s, ops[0]);
      GuardedStep(s, keep, ops[0], k);
      GuardedStays(Step(s, ops[0]).0, Kept(s, keep, ops[0]), ops[1..], k);
    }
  }

  lemma StepInv(s: Mem, op: Op)
    requires Inv(s) && Legal(s, op)
    ensures Inv(Step(s, op).0)
  {
    hide Inv, Step, PrivateStep, Legal;
    StepRefines(s, op, (k: Key) => Unmapped, iset{});
  }

  /** From the map call alone: a page that was mapped as not to be shared and used once stays private until it is
      unmapped, whatever forks come, sharing memory or not. */
  lemma NoShareIsPrivate(s: Mem, keep: iset<Key>, k: Key, id: int, write: bool, init: Content, use: Op, ops: seq<Op>)
    requires Inv(s) && Legal(s, DoMap(k, id, write, true, init))
    requires var s1 := Map(s, k, id, write, true, init);
             Legal(s1, use) && LegalRun(Step(s1, use).0, ops)
    requires (use.DoLoad? || use.DoStore?) && use.k == k
    requires DoUnmap(k) !in ops
    ensures var s1 := Map(s, k, id, write, true, init);
            forall i :: 0 <= i <= |ops| ==> k in KeptBefore(Step(s1, use).0, keep + iset{k}, ops, i)
  {
    var s1 := Map(s, k, id, write, true, init);
    StepInv(s, DoMap(k, id, write, true, init));
    StepInv(s1, use);
    assert Guarded(Step(s1, use).0, k) by { FirstUseGuards(s, k, id, write, init, use); }
    hide Inv, Legal, Step, Kept, Guarded, Map;
    GuardedStays(Step(s1, use).0, keep + iset{k}, ops, k);
  }

  lemma FirstUseGuards(s: Mem, k: Key, id: int, write: bool, init: Content, use: Op)
    requires Inv(s) && Legal(s, DoMap(k, id, write, true, init))
    requires Legal(Map(s, k, id, write, true, init), use)
    requires (use.DoLoad? || use.DoStore?) && use.k == k
    ensures Guarded(Step(Map(s, k, id, write, true, init), use).0, k)
  {
    hide Inv;
  }

  const EMPTY := Mem(map[], map[], map[], map[])

  ghost const ALL: iset<Key> := iset k: Key | true

  /** At the start every page of every space is private. */
  lemma StartShows()
    ensures Inv(EMPTY) && Exclusive(EMPTY) && Shows(EMPTY, (k: Key) => Unmapped, ALL)
  {
  }

  /** The forks of the run copy `Isolating` pages only, and nothing is unmapped untouched. */
  ghost predicate Separating(s: Mem, ops: seq<Op>)
    decreases |ops|
  {
    ops == [] || (
      && (ops[0].DoUnmap? ==> !At(s, ops[0].k).Demand?)
      && (ops[0].DoFork? ==>
            forall v :: 0 <= v < UPAGES ==> Isolating(s, At(s, Key(ops[0].parent, v)), ops[0].memshare))
      && Separating(Step(s, ops[0]).0, ops[1..]))
  }

  /** Then every page stays private, and all the answers are those of private copies. */
  lemma {:induction false} SeparateAnswers(s: Mem, m: View, ops: seq<Op>)
    requires Inv(s) && Shows(s, m, ALL) && LegalRun(s, ops) && Separating(s, ops)
    ensures Answers(s, ops) == PrivateAnswers(m, ops)
    decreases |ops|
  {
    hide Inv, Shows, Step, PrivateStep;
    if ops != [] {
      StepRefines(s, ops[0], m, ALL);
      assert Kept(s, ALL, ops[0]) == ALL by { AllKept(s, ops); }
      SeparateAnswers(Step(s, ops[0]).0, PrivateStep(m, ops[0]).0, ops[1..]);
    }
  }

  lemma AllKept(s: Mem, ops: seq<Op>)
    requires ops != [] && Separating(s, ops)
    ensures Kept(s, ALL, ops[0]) == ALL
  {
    hide Isolating, At, Step;
  }

  /** The condition is exact: through a page that is not `Isolating`, the parent reads what the child wrote. */
  lemma SharedPageLeaks(s: Mem, parent: int, child: int, memshare: bool, v: int,
                        off: int, x: int, f: int, id: int, f2: int, id2: int)
    requires Sane(s) && parent != child && EmptySpace(s, child) && 0 <= v < UPAGES && 0 <= off < PGLEN
    requires !Isolating(s, At(s, Key(parent, v)), memshare) && Unused(s, f, id)
    ensures var t := Fork(s, parent, child, memshare);
            var (u, ok) := Store(t, Key(child, v), off, x, f, id);
            ok && Load(u, Key(parent, v), off, f2, id2).1 == Byte(x)
  {
    hide CopyUpTo;
    var k, l := Key(parent, v), Key(child, v);
    var t := Fork(s, parent, child, memshare);
    CopyShape(s, parent, child, UPAGES, memshare);
    ForkSane(s, parent, child, memshare);
    assert At(t, k) == CopiedAt(s, parent, child, UPAGES, memshare, k) == At(s, k);
    assert At(t, l) == CopiedAt(s, parent, child, UPAGES, memshare, l) == At(s, k);
    LeakThrough(t, k, l, off, x, f, id, f2, id2);
  }

  lemma LeakThrough(t: Mem, k: Key, l: Key, off: int, x: int, f: int, id: int, f2: int, id2: int)
    requires Sane(t) && k != l && At(t, k) == At(t, l) && Backed(At(t, k)) && InPlace(t, At(t, k))
    requires Unused(t, f, id) && 0 <= off < PGLEN
    ensures var (u, ok) := Store(t, l, off, x, f, id); ok && Load(u, k, off, f2, id2).1 == Byte(x)
  {
    SaneAt(t, k);
  }

  // ------------------------------------------------------------ the kernel's own loops

  /** A skipped page table holds no entry, so skipping it copies what copying it would. */
  lemma {:induction false} SkipEmpty(s: Mem, parent: int, child: int, n: nat, m: nat, memshare: bool)
    requires parent != child && EmptySpace(s, child)
    requires forall v :: n <= v < n + m ==> At(s, Key(parent, v)).Absent?
    ensures CopyUpTo(s, parent, child, n + m, memshare) == CopyUpTo(s, parent, child, n, memshare)
  {
    if m > 0 {
      SkipEmpty(s, parent, child, n, m - 1, memshare);
      CopyShape(s, parent, child, n + m - 1, memshare);
      var k := Key(parent, n + m - 1);
      assert At(CopyUpTo(s, parent, child, n + m - 1, memshare), k)
          == CopiedAt(s, parent, child, n + m - 1, memshare, k);
    }
  }

  lemma CopyNone(s: Mem, parent: int, child: int, memshare: bool)
    ensures CopyUpTo(s, parent, child, 0, memshare) == s
  {
  }

  lemma CopiedSane(s: Mem, parent: int, child: int, n: nat, memshare: bool)
    requires Sane(s) && parent != child && EmptySpace(s, child)
    ensures var t := CopyUpTo(s, parent, child, n, memshare); EntryOk(t, At(t, Key(parent, n)))
  {
    hide CopyUpTo;
    var t := CopyUpTo(s, parent, child, n, memshare);
    CopyShape(s, parent, child, n, memshare);
    assert At(t, Key(parent, n)) == CopiedAt(s, parent, child, n, memshare, Key(parent, n));
    SaneAt(s, Key(parent, n));
    RefsDoNotShow(s, t, At(t, Key(parent, n)));
  }

  /** The mutable tables themselves; `cur` is the space whose directory is loaded, `tables` the page tables
      that exist. */
  class Spaces {
    var ptes: map<Key, Pte>
    var pages: map<int, Page>
    var owner: map<int, int>
    var frames: map<int, Content>
    var tables: set<Key>
    var cur: int

    constructor ()
      ensures Inv(Now()) && Exclusive(Now()) && TablesOk()
    {
      ptes, pages, owner, frames, tables, cur := map[], map[], map[], map[], {}, 0;
    }

    ghost function Now(): Mem
      reads this
    {
      Mem(ptes, pages, owner, frames)
    }

    ghost predicate TablesOk()
      reads this
    {
      forall k :: k in ptes && 0 <= k.page < UPAGES && !ptes[k].Absent? ==> Key(k.space, k.page / 1024) in tables
    }

    function Entry(v: int): Pte
      reads this
    {
      if Key(cur, v) in ptes then ptes[Key(cur, v)] else Absent
    }

    method TakeRef(id: int)
      modifies this`pages
      ensures pages == Ref(old(Now()), id)
    {
      if id in pages {
        pages := pages[id := pages[id].(refs := pages[id].refs + 1)];
      }
    }

    /** One entry of the inner loop of `vpgcopy`. */
    method CopyOne(child: int, v: int, memshare: bool)
      requires child != cur && EntryOk(Now(), Entry(v))
      requires TablesOk() && (0 <= v < UPAGES ==> Key(child, v / 1024) in tables)
      modifies this`ptes, this`pages
      ensures Now() == CopyEntry(old(Now()), cur, child, v, memshare)
      ensures TablesOk()
    {
      var p := Entry(v);
      ghost var s := Now();
      if !p.Present? {
        if p.Demand? {
          TakeRef(p.id);
          ptes := ptes[Key(child, v) := p];
          assert s.ptes[Key(cur, v) := p] == s.ptes;
        }
      } else if p.phys {
        ptes := ptes[Key(child, v) := p];
      } else if p.writeable && (!memshare || p.noshare) {
        var q := p.(writeable := false, cow := true);
        ptes := ptes[Key(cur, v) := q];
        ptes := ptes[Key(child, v) := q];
        TakeRef(owner[q.frame]);
      } else {
        ptes := ptes[Key(child, v) := p];
        TakeRef(owner[p.frame]);
        assert s.ptes[Key(cur, v) := p] == s.ptes;
      }
    }

    /** The inner loop of `vpgcopy`: the 1024 entries of one page table. */
    method CopyTable(child: int, i: int, memshare: bool, ghost s: Mem)
      requires 0 <= i < UPAGES / 1024 && child != cur
      requires Sane(s) && EmptySpace(s, child) && Now() == CopyUpTo(s, cur, child, i * 1024, memshare)
      requires TablesOk() && Key(child, i) in tables
      modifies this`ptes, this`pages
      ensures Now() == CopyUpTo(s, cur, child, (i + 1) * 1024, memshare)
      ensures TablesOk()
    {
      hide Sane, EmptySpace, TablesOk, CopyEntry, EntryOk;
      var j := 0;
      while j < 1024
        invariant 0 <= j <= 1024
        invariant Now() == CopyUpTo(s, cur, child, i * 1024 + j, memshare)
        invariant TablesOk()
      {
        CopiedSane(s, cur, child, i * 1024 + j, memshare);
        assert (i * 1024 + j) / 1024 == i;
        CopyOne(child, i * 1024 + j, memshare);
        j := j + 1;
      }
    }

    /** `vpgcopy`: an absent page table is skipped, the others are copied entry by entry. */
    method VpgCopy(child: int, memshare: bool)
      requires Sane(Now()) && TablesOk() && child != cur && EmptySpace(Now(), child)
      modifies this`ptes, this`pages, this`tables
      ensures Now() == Fork(old(Now()), cur, child, memshare)
      ensures TablesOk()
    {
      hide Sane, CopyUpTo;
      ghost var s := Now();
      CopyNone(s, cur, child, memshare);
      var i := 0;
      while i < UPAGES / 1024
        invariant 0 <= i <= UPAGES / 1024
        invariant Now() == CopyUpTo(s, cur, child, i * 1024, memshare)
        invariant TablesOk()
      {
        if Key(cur, i) in tables {
          tables := tables + {Key(child, i)};
          CopyTable(child, i, memshare, s);
        } else {
          NoTableNoEntry(s, child, i, memshare);
          SkipEmpty(s, cur, child, i * 1024, 1024, memshare);
        }
        i := i + 1;
      }
    }

    lemma NoTableNoEntry(s: Mem, child: int, i: int, memshare: bool)
      requires TablesOk() && child != cur && EmptySpace(s, child) && 0 <= i < UPAGES / 1024
      requires Now() == CopyUpTo(s, cur, child, i * 1024, memshare) && Key(cur, i) !in tables
      ensures forall v :: i * 1024 <= v < i * 1024 + 1024 ==> At(s, Key(cur, v)).Absent?
    {
      hide CopyUpTo;
      CopyShape(s, cur, child, i * 1024, memshare);
      forall v | i * 1024 <= v < i * 1024 + 1024 ensures At(s, Key(cur, v)).Absent? {
        assert v / 1024 == i;
        assert At(Now(), Key(cur, v)) == CopiedAt(s, cur, child, i * 1024, memshare, Key(cur, v));
      }
    }

    /** The copy-on-write branch of `ensure`. */
    method BreakSharing(v: int, f: int, id: int)
      requires Sane(Now()) && Unused(Now(), f, id) && Entry(v).Present? && Entry(v).cow
      modifies this`ptes, this`pages, this`owner, this`frames
      ensures Ensure(old(Now()), Key(cur, v), true, f, id) == Some(Now())
    {
      var k, pe := Key(cur, v), Entry(v);
      SaneAt(Now(), k);
      var pg := pages[owner[pe.frame]];
      var bytes := frames[pe.frame];
      pages := pages[id := Page(f, pg.write, pg.noshare, 1, bytes)];
      owner := owner[f := id];
      pages := pages[id := pages[id].(refs := pages[id].refs + 1)];
      assert pages == old(pages)[id := Page(f, pg.write, pg.noshare, 2, bytes)];
      ptes := ptes[k := pe.(frame := f, cow := false, writeable := true)];
      frames := frames[f := bytes];
    }

    /** The demand branch of `ensure`: the page is filled through a writeable mapping, then protected. */
    method FirstUse(v: int, write: bool, f: int, id: int)
      requires Sane(Now()) && Unused(Now(), f, id) && Entry(v).Demand?
      modifies this`ptes, this`pages, this`owner, this`frames
      ensures Ensure(old(Now()), Key(cur, v), write, f, id) == Some(Now())
    {
      var k, d := Key(cur, v), Entry(v).id;
      SaneAt(Now(), k);
      var pg := pages[d];
      if pg.frame == NOPHYS {
        owner := owner[f := d];
        pages := pages[d := pg.(frame := f, refs := pg.refs + 1)];
        ptes := ptes[k := Present(f, true, false, pg.noshare, false)];
        frames := frames[f := pg.init];
        if !pg.write {
          ptes := ptes[k := Present(f, false, false, pg.noshare, false)];
        }
        assert ptes == old(ptes)[k := Present(f, pg.write, false, pg.noshare, false)];
      } else {
        ptes := ptes[k := Present(pg.frame, pg.write, false, pg.noshare, false)];
      }
    }

    /** `ensure`, with the frame and the Page that the allocators return as arguments. */
    method EnsurePage(v: int, write: bool, f: int, id: int) returns (ok: bool)
      requires Sane(Now()) && Unused(Now(), f, id)
      modifies this`ptes, this`pages, this`owner, this`frames
      ensures ok == Ensure(old(Now()), Key(cur, v), write, f, id).Some?
      ensures Now() == if ok then Ensure(old(Now()), Key(cur, v), write, f, id).value else old(Now())
    {
      var pe := Entry(v);
      if pe.Present? {
        if pe.cow && write {
          BreakSharing(v, f, id);
          return true;
        }
        return pe.writeable || !write;
      } else if pe.Demand? {
        FirstUse(v, write, f, id);
        return true;
      }
      return false;
    }
  }
}
