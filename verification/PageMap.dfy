/** The reverse map of src/mem/user.c:11-63: a radix trie from 20-bit frame numbers to Pages, five nibbles
  deep, whose nodes come from malloc.  The specification is a function from frames to Pages. */
module PageMap {
  import opened Basics

  const DEPTH := 5

  /** The union Pmap: sixteen children, or below the last nibble the Page itself; 0 is null. */
  datatype Cell = Inner(ps: seq<int>) | Leaf(page: int)

  type Heap = map<int, Cell>

  function Pow16(n: nat): (r: int)
    ensures r > 0
  {
    if n == 0 then 1 else 16 * Pow16(n - 1)
  }

  /** The leading `d` nibbles of a 20-bit frame number. */
  function Prefix(f: int, d: nat): int {
    if d <= DEPTH then f / Pow16(DEPTH - d) else f
  }

  function Nib(f: int, d: nat): (n: int)
    ensures 0 <= n < 16
  {
    Prefix(f, d + 1) % 16
  }

  predicate FrameOk(f: int) {
    0 <= f < 0x10_0000
  }

  /** The frame number of a 32-bit address. */
  function Frame(p: int): int {
    p / 4096
  }

  /** What `pmapget` finds from node `a` at depth `d`. */
  function Lookup(h: Heap, a: int, d: nat, p: int): int
    decreases DEPTH - d
  {
    if a == 0 || a !in h then 0
    else
      match h[a]
      case Leaf(page) => page
      case Inner(ps) => if d < DEPTH && |ps| == 16 then Lookup(h, ps[Nib(p, d)], d + 1, p) else 0
  }

  // ------------------------------------------------------------ well-formed tries

  /** Depth and prefix of a node: every node stands in exactly one place, so nothing is shared. */
  datatype Spot = Spot(depth: nat, prefix: int)

  predicate ChildOk(place: map<int, Spot>, c: int, at: Spot) {
    c == 0 || (c in place && place[c] == at)
  }

  predicate NodeOk(h: Heap, place: map<int, Spot>, a: int)
    requires a in h && a in place
  {
    var s := place[a];
    if s.depth == DEPTH then h[a].Leaf?
    else s.depth < DEPTH && h[a].Inner? && |h[a].ps| == 16
         && forall n :: 0 <= n < 16 ==> ChildOk(place, h[a].ps[n], Spot(s.depth + 1, 16 * s.prefix + n))
  }

  ghost predicate Trie(h: Heap, place: map<int, Spot>, root: int) {
    && 0 !in h && h.Keys == place.Keys
    && ChildOk(place, root, Spot(0, 0))
    && forall a :: a in h ==> NodeOk(h, place, a)
  }

  lemma PrefixStep(f: int, d: nat)
    requires d < DEPTH
    ensures Prefix(f, d + 1) == 16 * Prefix(f, d) + Nib(f, d)
  {
    var k := Pow16(DEPTH - 1 - d);
    assert Pow16(DEPTH - d) == 16 * k;
    SplitDiv(f, k, 16);
  }

  /** Shifting the address is shifting the frame number. */
  lemma NibOfAddress(p: int, d: nat)
    requires d < DEPTH
    ensures p / Pow16(7 - d) % 16 == Nib(Frame(p), d)
  {
    var k := Pow16(4 - d);
    PowSplit(4 - d);
    SplitDiv(p, 4096, k);
  }

  lemma {:induction false} PowSplit(n: nat)
    ensures Pow16(n + 3) == Pow16(n) * 4096
  {
    if n == 0 {
      assert Pow16(3) == 16 * Pow16(2) && Pow16(2) == 16 * Pow16(1) && Pow16(1) == 16;
    } else {
      PowSplit(n - 1);
    }
  }

  lemma Ends(f: int)
    requires FrameOk(f)
    ensures Prefix(f, 0) == 0 && Prefix(f, DEPTH) == f
  {
    assert Pow16(5) == 16 * Pow16(4) && Pow16(4) == 16 * Pow16(3) && Pow16(3) == 16 * Pow16(2)
      && Pow16(2) == 16 * Pow16(1);
    assert Pow16(5) == 0x10_0000;
  }

  // ------------------------------------------------------------ growing and setting

  /** An empty cell for a node at depth `d`. */
  function Empty(d: nat): Cell {
    if d == DEPTH then Leaf(0) else Inner(seq(16, _ => 0))
  }

  lemma EmptyFindsNothing(h: Heap, a: int, d: nat, p: int)
    requires d <= DEPTH && a in h && h[a] == Empty(d) && 0 !in h
    ensures Lookup(h, a, d, p) == 0
  {
  }

  /** Hanging an empty node into an empty slot changes what no lookup finds. */
  lemma {:induction false} GrowKeeps(h: Heap, place: map<int, Spot>, up: int, slot: int, n: int, a: int, d: nat, p: int)
    requires 0 !in h && h.Keys == place.Keys && (forall b :: b in h ==> NodeOk(h, place, b))
    requires up in h && 0 <= slot < 16 && n != 0 && n !in h && h[up].Inner? && |h[up].ps| == 16 && h[up].ps[slot] == 0
    requires d <= DEPTH && (a == 0 || (a in place && place[a].depth == d))
    ensures var h' := h[n := Empty(place[up].depth + 1)][up := Inner(h[up].ps[slot := n])];
            Lookup(h', a, d, p) == Lookup(h, a, d, p)
    decreases DEPTH - d
  {
    var h' := h[n := Empty(place[up].depth + 1)][up := Inner(h[up].ps[slot := n])];
    assert NodeOk(h, place, up);
    if a != 0 && h[a].Inner? {
      assert NodeOk(h, place, a);
      var c := h[a].ps[Nib(p, d)];
      assert ChildOk(place, c, Spot(d + 1, 16 * place[a].prefix + Nib(p, d)));
      if a == up && Nib(p, d) == slot {
        EmptyFindsNothing(h', n, d + 1, p);
      } else {
        GrowKeeps(h, place, up, slot, n, c, d + 1, p);
      }
    }
  }

  lemma GrowTrie(h: Heap, place: map<int, Spot>, root: int, up: int, slot: int, n: int)
    requires Trie(h, place, root) && n != 0 && n !in h && 0 <= slot < 16
    requires up in h && h[up].Inner? && h[up].ps[slot] == 0
    ensures var at := Spot(place[up].depth + 1, 16 * place[up].prefix + slot);
            Trie(h[n := Empty(at.depth)][up := Inner(h[up].ps[slot := n])], place[n := at], root)
  {
    var at := Spot(place[up].depth + 1, 16 * place[up].prefix + slot);
    var h', place' := h[n := Empty(at.depth)][up := Inner(h[up].ps[slot := n])], place[n := at];
    assert NodeOk(h, place, up);
    forall a | a in h' ensures NodeOk(h', place', a) {
      if a != n {
        assert NodeOk(h, place, a);
        if h[a].Inner? {
          forall k | 0 <= k < 16
            ensures ChildOk(place', h'[a].ps[k], Spot(place[a].depth + 1, 16 * place[a].prefix + k)) {
            assert ChildOk(place, h[a].ps[k], Spot(place[a].depth + 1, 16 * place[a].prefix + k));
          }
        }
      }
    }
  }

  /** Setting the leaf that belongs to frame `x` changes the lookups of that frame and of no other. */
  lemma {:induction false} SetKeeps(h: Heap, place: map<int, Spot>, leaf: int, v: int, a: int, d: nat, p: int)
    requires 0 !in h && h.Keys == place.Keys && (forall b :: b in h ==> NodeOk(h, place, b)) && FrameOk(p)
    requires leaf in h && place[leaf].depth == DEPTH && d <= DEPTH
    requires a == 0 || (a in place && place[a] == Spot(d, Prefix(p, d)))
    ensures Lookup(h[leaf := Leaf(v)], a, d, p) == Lookup(h, a, d, p)
            || (Lookup(h[leaf := Leaf(v)], a, d, p) == v && place[leaf].prefix == p)
    decreases DEPTH - d
  {
    if a != 0 {
      assert NodeOk(h, place, a);
      if h[a].Inner? {
        var c := h[a].ps[Nib(p, d)];
        assert ChildOk(place, c, Spot(d + 1, 16 * place[a].prefix + Nib(p, d)));
        PrefixStep(p, d);
        SetKeeps(h, place, leaf, v, c, d + 1, p);
      } else {
        Ends(p);
      }
    }
  }

  /** Following the nibbles of `p` from node `a` at depth `d` leads to node `b` at depth `k`. */
  predicate Reach(h: Heap, a: int, d: nat, p: int, b: int, k: nat)
    decreases DEPTH - d
  {
    if d >= k then d == k && a == b
    else a in h && h[a].Inner? && d < DEPTH && |h[a].ps| == 16 && Reach(h, h[a].ps[Nib(p, d)], d + 1, p, b, k)
  }

  lemma {:induction false} ReachNext(h: Heap, a: int, d: nat, p: int, b: int, k: nat)
    requires Reach(h, a, d, p, b, k) && k < DEPTH && b in h && h[b].Inner? && |h[b].ps| == 16
    ensures Reach(h, a, d, p, h[b].ps[Nib(p, k)], k + 1)
    decreases DEPTH - d
  {
    if d < k {
      ReachNext(h, h[a].ps[Nib(p, d)], d + 1, p, b, k);
    }
  }

  lemma {:induction false} ReachFinds(h: Heap, a: int, d: nat, p: int, leaf: int, v: int)
    requires Reach(h, a, d, p, leaf, DEPTH) && leaf in h && h[leaf].Leaf? && leaf != 0 && 0 !in h
    ensures Lookup(h[leaf := Leaf(v)], a, d, p) == v
    decreases DEPTH - d
  {
    if d < DEPTH {
      ReachFinds(h, h[a].ps[Nib(p, d)], d + 1, p, leaf, v);
    }
  }

  /** Growing below the end of a path leaves the path. */
  lemma {:induction false} GrowReach(h: Heap, a: int, d: nat, p: int, up: int, k: nat, n: int, c: Cell, ps: seq<int>)
    requires Reach(h, a, d, p, up, k) && n !in h && up in h && h[up].Inner? && |ps| == 16
    requires forall i :: 0 <= i < 16 && i < |h[up].ps| && h[up].ps[i] != 0 ==> ps[i] == h[up].ps[i]
    requires 0 !in h && up != 0
    ensures Reach(h[n := c][up := Inner(ps)], a, d, p, up, k)
    decreases DEPTH - d
  {
    if d < k {
      var b := h[a].ps[Nib(p, d)];
      NonZero(h, b, d + 1, p, up, k);
      GrowReach(h, b, d + 1, p, up, k, n, c, ps);
    }
  }

  lemma NonZero(h: Heap, a: int, d: nat, p: int, up: int, k: nat)
    requires Reach(h, a, d, p, up, k) && 0 !in h && up != 0
    ensures a != 0
  {
  }

  /** Setting a leaf leaves the rest of the trie well formed. */
  lemma SetTrie(h: Heap, place: map<int, Spot>, root: int, leaf: int, v: int)
    requires Trie(h, place, root) && leaf in h && h[leaf].Leaf?
    ensures Trie(h[leaf := Leaf(v)], place, root)
  {
    var h' := h[leaf := Leaf(v)];
    forall a | a in h' ensures NodeOk(h', place, a) {
      assert NodeOk(h, place, a);
    }
  }

  lemma SetLookup(h: Heap, place: map<int, Spot>, root: int, leaf: int, f: int, v: int)
    requires Trie(h, place, root) && FrameOk(f) && leaf in h && leaf != 0
        && place[leaf] == Spot(DEPTH, Prefix(f, DEPTH))
    requires Reach(h, root, 0, f, leaf, DEPTH)
    ensures Trie(h[leaf := Leaf(v)], place, root) && h[leaf].Leaf? && Lookup(h, root, 0, f) == h[leaf].page
    ensures forall g :: FrameOk(g) ==>
        Lookup(h[leaf := Leaf(v)], root, 0, g) == if g == f then v else Lookup(h, root, 0, g)
  {
    assert NodeOk(h, place, leaf);
    Ends(f);
    SetTrie(h, place, root, leaf, v);
    ReachFinds(h, root, 0, f, leaf, v);
    ReachFinds(h, root, 0, f, leaf, h[leaf].page);
    assert h[leaf := Leaf(h[leaf].page)] == h;
    forall g | FrameOk(g)
      ensures Lookup(h[leaf := Leaf(v)], root, 0, g) == if g == f then v else Lookup(h, root, 0, g) {
      Ends(g);
      SetKeeps(h, place, leaf, v, root, 0, g);
    }
  }

  // ------------------------------------------------------------ the reverse map

  class Pmap {
    var root: int             // phys2page
    var heap: Heap
    var brk: int              // where malloc takes its next node from
    var refs: map<int, int>   // what the calls did to the Pages' reference counts
    ghost var place: map<int, Spot>

    constructor ()
      ensures Valid() && forall f :: Get(f) == 0
    {
      root, heap, brk, refs, place := 0, map[], 1, map[], map[];
    }

    ghost predicate Valid()
      reads this
    {
      Trie(heap, place, root) && brk > 0 && forall a :: a in heap ==> a < brk
    }

    /** The map this trie stands for. */
    ghost function Get(f: int): int
      reads this
    {
      Lookup(heap, root, 0, f)
    }

    function Refs(page: int): int
      reads this
    {
      CountOf(refs, page)
    }

    /** `pmapget`. */
    method PmapGet(p: int) returns (page: int)
      requires Valid() && FrameOk(Frame(p))
      ensures page == Get(Frame(p))
    {
      var pm, i := root, 28;
      ghost var d := 0;
      while i >= 12
        invariant i == 28 - 4 * d && 0 <= d <= DEPTH
        invariant pm == 0 || (pm in heap && place[pm] == Spot(d, Prefix(Frame(p), d)))
        invariant Lookup(heap, pm, d, Frame(p)) == Get(Frame(p))
      {
        if pm == 0 {
          return 0;
        }
        assert NodeOk(heap, place, pm);
        NibOfAddress(p, d);
        PrefixStep(Frame(p), d);
        var n := p / Pow16(i / 4) % 16;
        assert ChildOk(place, heap[pm].ps[n], Spot(d + 1, 16 * place[pm].prefix + n));
        pm := heap[pm].ps[n];
        d := d + 1;
        i := i - 4;
      }
      if pm == 0 {
        return 0;
      }
      assert NodeOk(heap, place, pm);
      page := heap[pm].page;
    }

    /** A first node from malloc for the root pointer. */
    method HangRoot() returns (n: int)
      requires Valid() && root == 0
      modifies this`root, this`heap, this`brk, this`place
      ensures Valid() && n != 0 && root == n && heap == old(heap)[n := Empty(0)] && place == old(place)[n := Spot(0, 0)]
      ensures forall f :: Get(f) == old(Get(f))
    {
      n := brk;
      RootTrie(heap, place, n);
      brk := brk + 1;
      heap := heap[n := Empty(0)];
      root := n;
      place := place[n := Spot(0, 0)];
    }

    /** A node from malloc for an empty slot. */
    method Hang(up: int, slot: int, d: nat) returns (n: int)
      requires Valid() && d < DEPTH && up in heap && place[up].depth == d
      requires 0 <= slot < 16 && heap[up].Inner? && heap[up].ps[slot] == 0
      modifies this`heap, this`brk, this`place
      ensures Valid() && n !in old(heap) && n != 0
      ensures place == old(place)[n := Spot(d + 1, 16 * old(place)[up].prefix + slot)]
      ensures heap == old(heap)[n := Empty(d + 1)][up := Inner(old(heap)[up].ps[slot := n])]
      ensures forall f :: Get(f) == old(Get(f))
    {
      n := brk;
      brk := brk + 1;
      ghost var h := heap[n := Empty(d + 1)][up := Inner(heap[up].ps[slot := n])];
      GrowTrie(heap, place, root, up, slot, n);
      forall f ensures Lookup(h, root, 0, f) == Get(f) {
        RootSpot(heap, place, root);
        GrowKeeps(heap, place, up, slot, n, root, 0, f);
      }
      place := place[n := Spot(d + 1, 16 * place[up].prefix + slot)];
      heap := heap[n := Empty(d + 1)];
      heap := heap[up := Inner(heap[up].ps[slot := n])];
    }

    /** The node at depth `d` on the path of frame `f`, made if the slot (or the root pointer) is empty. */
    method NodeAt(pm: int, up: int, slot: int, d: nat, ghost f: int) returns (q: int)
      requires Valid() && d <= DEPTH && FrameOk(f) && OnPath(pm, up, slot, d, f)
      modifies this`root, this`heap, this`brk, this`place
      ensures Valid() && q in heap && q != 0 && place[q] == Spot(d, Prefix(f, d)) && Reach(heap, root, 0, f, q, d)
      ensures forall g :: Get(g) == old(Get(g))
      ensures if pm != 0 then q == pm && heap == old(heap) else heap[q] == Empty(d)
    {
      q := pm;
      if pm == 0 {
        Ends(f);
        if d == 0 {
          q := HangRoot();
        } else {
          ghost var h := heap;
          PrefixStep(f, d - 1);
          q := Hang(up, slot, d - 1);
          GrowReach(h, root, 0, f, up, d - 1, q, Empty(d), h[up].ps[slot := q]);
          ReachNext(heap, root, 0, f, up, d - 1);
        }
      }
    }

    /** `pm` is where the path of `f` leads at depth `d`: the root of the trie, or a slot of `up`. */
    ghost predicate OnPath(pm: int, up: int, slot: int, d: nat, f: int)
      reads this
    {
      && (pm != 0 ==> pm in heap && pm in place && place[pm] == Spot(d, Prefix(f, d)) && Reach(heap, root, 0, f, pm, d))
      && if d == 0 then pm == root
         else up in heap && up in place && up != 0
              && place[up] == Spot(d - 1, Prefix(f, d - 1)) && slot == Nib(f, d - 1)
              && heap[up].Inner? && |heap[up].ps| == 16 && heap[up].ps[slot] == pm && Reach(heap, root, 0, f, up, d - 1)
    }

    lemma StartsAtRoot(f: int)
      requires Valid() && FrameOk(f)
      ensures OnPath(root, 0, 0, 0, f)
    {
      Ends(f);
    }

    lemma Below(up: int, d: nat, f: int)
      requires Valid() && d < DEPTH && FrameOk(f) && up in heap && up != 0 && place[up] == Spot(d, Prefix(f, d))
      requires Reach(heap, root, 0, f, up, d)
      ensures heap[up].Inner? && |heap[up].ps| == 16 && OnPath(heap[up].ps[Nib(f, d)], up, Nib(f, d), d + 1, f)
    {
      assert NodeOk(heap, place, up);
      var c := heap[up].ps[Nib(f, d)];
      assert ChildOk(place, c, Spot(d + 1, 16 * place[up].prefix + Nib(f, d)));
      PrefixStep(f, d);
      ReachNext(heap, root, 0, f, up, d);
    }

    /** `pmapset`: the Page at this frame is replaced, and nothing else is; the new Page gains a reference, the
        old one loses one only if there is a new one. */
    method PmapSet(p: int, np: int)
      requires Valid() && FrameOk(Frame(p))
      modifies this
      ensures Valid()
      ensures forall f :: FrameOk(f) ==> Get(f) == if f == Frame(p) then np else old(Get(f))
      ensures refs == Counted(old(refs), old(Get(Frame(p))), np)
      ensures forall page :: Refs(page) == old(Refs(page)) + (if page == np != 0 then 1 else 0)
                                           - (if np != 0 && page == old(Get(Frame(p))) != 0 then 1 else 0)
    {
      hide Trie, Lookup, Reach, Counted, Pow16, Prefix;
      ghost var f := Frame(p);
      StartsAtRoot(f);
      var pm, up, slot, i, d := root, 0, 0, 28, 0;
      while i >= 12
        invariant i == 28 - 4 * d && 0 <= d <= DEPTH
        invariant Valid() && OnPath(pm, up, slot, d, f) && refs == old(refs)
        invariant forall g :: Get(g) == old(Get(g))
      {
        up := NodeAt(pm, up, slot, d, f);
        NibOfAddress(p, d);
        Below(up, d, f);
        slot := p / Pow16(i / 4) % 16;
        pm := heap[up].ps[slot];
        d := d + 1;
        i := i - 4;
      }
      ghost var refs0 := refs;
      SetLeaf(pm, up, slot, f, np);
      CountsAre(refs0, old(Get(f)), np);
    }

    method SetLeaf(pm: int, up: int, slot: int, ghost f: int, np: int)
      requires Valid() && FrameOk(f) && OnPath(pm, up, slot, DEPTH, f)
      modifies this
      ensures Valid()
      ensures forall g :: FrameOk(g) ==> Get(g) == if g == f then np else old(Get(g))
      ensures refs == Counted(old(refs), old(Get(f)), np)
    {
      hide Trie, Lookup, Reach, Pow16, Counted;
      var leaf := NodeAt(pm, up, slot, DEPTH, f);
      WriteLeaf(leaf, f, np);
    }

    method WriteLeaf(leaf: int, ghost f: int, np: int)
      requires Valid() && FrameOk(f) && leaf in heap && leaf != 0 && place[leaf] == Spot(DEPTH, Prefix(f, DEPTH))
      requires Reach(heap, root, 0, f, leaf, DEPTH)
      modifies this`heap, this`refs
      ensures Valid()
      ensures forall g :: FrameOk(g) ==> Get(g) == if g == f then np else old(Get(g))
      ensures refs == Counted(old(refs), old(Get(f)), np)
    {
      hide Lookup, Reach, Pow16, NodeOk;
      SetLookup(heap, place, root, leaf, f, np);
      var was := heap[leaf].page;
      if np != 0 && was != 0 {
        refs := refs[was := Refs(was) - 1];
      }
      heap := heap[leaf := Leaf(np)];
      if np != 0 {
        refs := refs[np := Refs(np) + 1];
      }
    }

    /** `pmapdel`. */
    method PmapDel(p: int)
      requires Valid() && FrameOk(Frame(p))
      modifies this
      ensures Valid() && refs == old(refs)
      ensures forall f :: FrameOk(f) ==> Get(f) == if f == Frame(p) then 0 else old(Get(f))
    {
      PmapSet(p, 0);
    }
  }

  function Bump(refs: map<int, int>, page: int, n: int): map<int, int> {
    refs[page := CountOf(refs, page) + n]
  }

  function Counted(refs: map<int, int>, was: int, np: int): map<int, int> {
    if np == 0 then refs else Bump(if was != 0 then Bump(refs, was, -1) else refs, np, 1)
  }

  function CountOf(refs: map<int, int>, page: int): int {
    if page in refs then refs[page] else 0
  }

  /** Only the two Pages' counts change, each by one, and not at all if they are the same or there is no new one. */
  lemma CountsAre(refs: map<int, int>, was: int, np: int)
    ensures forall page :: CountOf(Counted(refs, was, np), page) == CountOf(refs, page)
              + (if page == np != 0 then 1 else 0) - (if np != 0 && page == was != 0 then 1 else 0)
  {
  }

  lemma RootSpot(h: Heap, place: map<int, Spot>, root: int)
    requires Trie(h, place, root)
    ensures root == 0 || (root in place && place[root] == Spot(0, 0))
  {
  }

  lemma RootTrie(h: Heap, place: map<int, Spot>, n: int)
    requires Trie(h, place, 0) && n != 0 && n !in h
    ensures Trie(h[n := Empty(0)], place[n := Spot(0, 0)], n)
    ensures forall f {:trigger Lookup(h, 0, 0, f)} :: Lookup(h[n := Empty(0)], n, 0, f) == Lookup(h, 0, 0, f)
  {
    var h', place' := h[n := Empty(0)], place[n := Spot(0, 0)];
    forall a | a in h' ensures NodeOk(h', place', a) {
      if a != n {
        assert NodeOk(h, place, a);
        if h[a].Inner? {
          forall k | 0 <= k < 16
            ensures ChildOk(place', h[a].ps[k], Spot(place[a].depth + 1, 16 * place[a].prefix + k)) {
            assert ChildOk(place, h[a].ps[k], Spot(place[a].depth + 1, 16 * place[a].prefix + k));
          }
        }
      }
    }
    forall f ensures Lookup(h', n, 0, f) == Lookup(h, 0, 0, f) {
      EmptyFindsNothing(h', n, 0, f);
    }
  }
}
