/** The physical frame allocator of src/mem/phys.c.

  The lists live in the free memory itself: word 0 of a free page links it, word 1 is a region's length, and
  the kernel reaches both through one window (`vpgspecmap`, src/mem/virt.c:19-35).  The specification is the
  set of free frames. */
module Frames {
  import opened Basics

  const NOPHYS := 0xffff_ffff

  datatype Region = Region(base: int, len: int)

  /** The two roots and the first two words of every page. */
  datatype Store = Store(rootrgn: int, rootppg: int, w0: map<int, int>, w1: map<int, int>)

  predicate Inside(r: Region, p: int) {
    r.base <= p < r.base + r.len
  }

  predicate PageOk(p: int) {
    0 <= p < NOPHYS && p % PGLEN == 0
  }

  predicate RegionOk(r: Region) {
    PageOk(r.base) && r.len > 0 && r.len % PGLEN == 0 && r.base + r.len <= NOPHYS
  }

  predicate Apart(r: Region, t: Region) {
    r.base + r.len <= t.base || t.base + t.len <= r.base
  }

  /** The list of regions `rs` and the list of single pages `ps` as a set of frames. */
  predicate Has(rs: seq<Region>, ps: seq<int>, p: int) {
    p % PGLEN == 0 && (p in ps || exists i :: 0 <= i < |rs| && Inside(rs[i], p))
  }

  predicate RegionLink(s: Store, rs: seq<Region>, i: int)
    requires 0 <= i < |rs|
  {
    var b := rs[i].base;
    && b in s.w0 && b in s.w1 && s.w1[b] == rs[i].len
    && s.w0[b] == if i + 1 < |rs| then rs[i + 1].base else NOPHYS
  }

  predicate PageLink(s: Store, ps: seq<int>, i: int)
    requires 0 <= i < |ps|
  {
    ps[i] in s.w0 && s.w0[ps[i]] == if i + 1 < |ps| then ps[i + 1] else NOPHYS
  }

  ghost predicate Shapes(rs: seq<Region>) {
    && (forall i :: 0 <= i < |rs| ==> RegionOk(rs[i]))
    && (forall i, j :: 0 <= i < j < |rs| ==> Apart(rs[i], rs[j]))
  }

  ghost predicate Links(s: Store, rs: seq<Region>) {
    && s.rootrgn == (if rs == [] then NOPHYS else rs[0].base)
    && (forall i :: 0 <= i < |rs| ==> RegionLink(s, rs, i))
  }

  ghost predicate PagesOk(s: Store, ps: seq<int>) {
    && s.rootppg == (if ps == [] then NOPHYS else ps[0])
    && (forall i :: 0 <= i < |ps| ==> PageOk(ps[i]))
    && (forall i :: 0 <= i < |ps| ==> PageLink(s, ps, i))
    && (forall i, j :: 0 <= i < j < |ps| ==> ps[i] != ps[j])
  }

  /** The words in memory are exactly these two lists, and no frame is in them twice. */
  ghost predicate Describes(s: Store, rs: seq<Region>, ps: seq<int>) {
    && Shapes(rs) && Links(s, rs) && PagesOk(s, ps)
    && forall i, j :: 0 <= i < |rs| && 0 <= j < |ps| ==> !Inside(rs[i], ps[j])
  }

  // ------------------------------------------------------------ reserving a page of a region

  function Left(r: Region, pg: int): Region {
    Region(r.base, pg - r.base)
  }

  function Right(r: Region, pg: int): Region {
    Region(pg + PGLEN, r.len - (pg - r.base + PGLEN))
  }

  /** What is left of a region without the page. */
  function Pieces(r: Region, pg: int): seq<Region> {
    (if pg > r.base then [Left(r, pg)] else []) + (if Right(r, pg).len > 0 then [Right(r, pg)] else [])
  }

  function Splice(rs: seq<Region>, i: int, pg: int): seq<Region>
    requires 0 <= i < |rs|
  {
    rs[..i] + Pieces(rs[i], pg) + rs[i + 1..]
  }

  /** The header writes of `ppgreserve` on region `i`, in their order. */
  function Cut(s: Store, rs: seq<Region>, i: int, pg: int): Store
    requires 0 <= i < |rs|
  {
    var r := rs[i];
    var next := if i + 1 < |rs| then rs[i + 1].base else NOPHYS;
    var t := s.(w0 := s.w0[r.base := pg + PGLEN], w1 := s.w1[r.base := pg - r.base]);
    var u := if pg > r.base then t
             else if i > 0 then t.(w0 := t.w0[rs[i - 1].base := pg + PGLEN]) else t.(rootrgn := pg + PGLEN);
    var right := Right(r, pg);
    if right.len > 0 then u.(w0 := u.w0[right.base := next], w1 := u.w1[right.base := right.len]) else u
  }

  predicate Hit(rs: seq<Region>, i: int, pg: int) {
    0 <= i < |rs| && pg % PGLEN == 0 && Inside(rs[i], pg)
  }

  /** The guard that decides whether the result is a list again: the page is not the last of its region, or the
      next region happens to start right behind it. */
  predicate Clean(rs: seq<Region>, i: int, pg: int)
    requires Hit(rs, i, pg)
  {
    pg + PGLEN < rs[i].base + rs[i].len || (i + 1 < |rs| && rs[i + 1].base == pg + PGLEN)
  }

  /** The region that page `k` of the spliced list is part of. */
  function Source(rs: seq<Region>, i: int, pg: int, k: int): int
    requires 0 <= i < |rs|
  {
    var n := |Pieces(rs[i], pg)|;
    if k < i then k else if k < i + n then i else k - n + 1
  }

  predicate Part(q: Region, r: Region) {
    RegionOk(q) && r.base <= q.base && q.base + q.len <= r.base + r.len
  }

  lemma SplicePart(rs: seq<Region>, i: int, pg: int, k: int)
    requires Shapes(rs) && Hit(rs, i, pg) && 0 <= k < |Splice(rs, i, pg)|
    ensures 0 <= Source(rs, i, pg, k) < |rs| && Part(Splice(rs, i, pg)[k], rs[Source(rs, i, pg, k)])
    ensures k < i || k >= i + |Pieces(rs[i], pg)| ==> Splice(rs, i, pg)[k] == rs[Source(rs, i, pg, k)]
  {
    assert RegionOk(rs[i]);
  }

  lemma SpliceShapes(rs: seq<Region>, i: int, pg: int)
    requires Shapes(rs) && Hit(rs, i, pg)
    ensures Shapes(Splice(rs, i, pg))
  {
    hide Splice;
    var qs := Splice(rs, i, pg);
    forall k | 0 <= k < |qs| ensures RegionOk(qs[k]) {
      SplicePart(rs, i, pg, k);
    }
    forall k, l | 0 <= k < l < |qs| ensures Apart(qs[k], qs[l]) {
      SplicePart(rs, i, pg, k);
      SplicePart(rs, i, pg, l);
      var ko, lo := Source(rs, i, pg, k), Source(rs, i, pg, l);
      if ko < lo {
        assert Apart(rs[ko], rs[lo]);
      } else {
        PiecesApart(rs, i, pg, k, l);
      }
    }
  }

  lemma PiecesApart(rs: seq<Region>, i: int, pg: int, k: int, l: int)
    requires Hit(rs, i, pg) && 0 <= k < l < |Splice(rs, i, pg)| && Source(rs, i, pg, k) >= Source(rs, i, pg, l)
    ensures Apart(Splice(rs, i, pg)[k], Splice(rs, i, pg)[l])
  {
  }

  lemma SpliceWithin(rs: seq<Region>, i: int, pg: int, k: int, p: int)
    requires Shapes(rs) && Hit(rs, i, pg) && 0 <= k < |Splice(rs, i, pg)| && Inside(Splice(rs, i, pg)[k], p)
    ensures p != pg && exists o :: 0 <= o < |rs| && Inside(rs[o], p)
  {
    SplicePart(rs, i, pg, k);
    var o := Source(rs, i, pg, k);
    assert Inside(rs[o], p);
    if o < i { assert Apart(rs[o], rs[i]); }
    if o > i { assert Apart(rs[i], rs[o]); }
  }

  lemma SpliceKeeps(rs: seq<Region>, i: int, pg: int, o: int, p: int)
    requires Shapes(rs) && Hit(rs, i, pg) && 0 <= o < |rs| && Inside(rs[o], p) && p != pg && p % PGLEN == 0
    ensures exists k :: 0 <= k < |Splice(rs, i, pg)| && Inside(Splice(rs, i, pg)[k], p)
  {
    var qs := Splice(rs, i, pg);
    var n := |Pieces(rs[i], pg)|;
    if o < i {
      assert qs[o] == rs[o];
    } else if o > i {
      assert qs[o + n - 1] == rs[o];
    } else {
      assert RegionOk(rs[i]);
      InPiece(rs[i], pg, p);
      var j :| 0 <= j < n && Inside(Pieces(rs[i], pg)[j], p);
      assert qs[i + j] == Pieces(rs[i], pg)[j];
    }
  }

  /** Splicing removes exactly the page. */
  lemma SpliceHas(rs: seq<Region>, ps: seq<int>, i: int, pg: int, p: int)
    requires Shapes(rs) && Hit(rs, i, pg) && pg !in ps
    ensures Has(Splice(rs, i, pg), ps, p) <==> Has(rs, ps, p) && p != pg
  {
    hide Splice, Shapes;
    var qs := Splice(rs, i, pg);
    if k :| 0 <= k < |qs| && Inside(qs[k], p) {
      SpliceWithin(rs, i, pg, k, p);
    }
    if o :| 0 <= o < |rs| && Inside(rs[o], p) {
      if p != pg && p % PGLEN == 0 {
        SpliceKeeps(rs, i, pg, o, p);
      }
    }
  }

  lemma InPiece(r: Region, pg: int, p: int)
    requires RegionOk(r) && Inside(r, pg) && Inside(r, p) && p != pg && p % PGLEN == 0 && pg % PGLEN == 0
    ensures exists j :: 0 <= j < |Pieces(r, pg)| && Inside(Pieces(r, pg)[j], p)
  {
    var ps := Pieces(r, pg);
    if p < pg {
      assert Inside(ps[0], p);
    } else {
      assert Inside(ps[|ps| - 1], p);
    }
  }

  /** Every header the cut does not mean to change is left alone. */
  lemma CutElsewhere(s: Store, rs: seq<Region>, i: int, pg: int, k: int)
    requires Shapes(rs) && Links(s, rs) && Hit(rs, i, pg) && 0 <= k < |rs| && k != i
    ensures var t, b := Cut(s, rs, i, pg), rs[k].base;
            && b in t.w0 && b in t.w1 && t.w1[b] == rs[k].len
            && t.w0[b] == if k == i - 1 && pg == rs[i].base then pg + PGLEN else s.w0[b]
  {
    assert RegionLink(s, rs, k);
    assert RegionOk(rs[i]) && RegionOk(rs[k]);
    if k < i { assert Apart(rs[k], rs[i]); } else { assert Apart(rs[i], rs[k]); }
    if i > 0 && k != i - 1 {
      assert RegionOk(rs[i - 1]);
      if k < i - 1 { assert Apart(rs[k], rs[i - 1]); } else { assert Apart(rs[i - 1], rs[k]); }
    }
  }

  /** The headers of the pieces themselves. */
  lemma CutPieces(s: Store, rs: seq<Region>, i: int, pg: int)
    requires Shapes(rs) && Hit(rs, i, pg)
    ensures var t, r := Cut(s, rs, i, pg), rs[i];
            && (pg > r.base ==>
                  && r.base in t.w0 && r.base in t.w1 && t.w0[r.base] == pg + PGLEN && t.w1[r.base] == pg - r.base)
            && (Right(r, pg).len > 0 ==>
                  && pg + PGLEN in t.w0 && pg + PGLEN in t.w1 && t.w1[pg + PGLEN] == Right(r, pg).len
                  && t.w0[pg + PGLEN] == if i + 1 < |rs| then rs[i + 1].base else NOPHYS)
            && t.rootrgn == if i == 0 && pg == r.base then pg + PGLEN else s.rootrgn
  {
    assert RegionOk(rs[i]);
    if i > 0 {
      assert RegionOk(rs[i - 1]) && Apart(rs[i - 1], rs[i]);
    }
  }

  lemma CutLink(s: Store, rs: seq<Region>, i: int, pg: int, k: int)
    requires Shapes(rs) && Links(s, rs) && Hit(rs, i, pg) && Clean(rs, i, pg) && 0 <= k < |Splice(rs, i, pg)|
    ensures RegionLink(Cut(s, rs, i, pg), Splice(rs, i, pg), k)
  {
    hide Cut, Shapes, Links;
    var o := Source(rs, i, pg, k);
    var n := |Pieces(rs[i], pg)|;
    CutPieces(s, rs, i, pg);
    LinkAt(s, rs, o);
    LinkAt(s, rs, i);
    if o != i {
      CutElsewhere(s, rs, i, pg, o);
    }
    if k + 1 < |Splice(rs, i, pg)| {
      SplicePart(rs, i, pg, k + 1);
    }
  }

  lemma LinkAt(s: Store, rs: seq<Region>, o: int)
    requires Shapes(rs) && Links(s, rs) && 0 <= o < |rs|
    ensures RegionLink(s, rs, o) && RegionOk(rs[o])
  {
  }

  lemma CutLinks(s: Store, rs: seq<Region>, i: int, pg: int)
    requires Shapes(rs) && Links(s, rs) && Hit(rs, i, pg) && Clean(rs, i, pg)
    ensures Links(Cut(s, rs, i, pg), Splice(rs, i, pg))
  {
    hide Cut;
    CutPieces(s, rs, i, pg);
    assert RegionOk(rs[i]);
    forall k | 0 <= k < |Splice(rs, i, pg)| ensures RegionLink(Cut(s, rs, i, pg), Splice(rs, i, pg), k) {
      CutLink(s, rs, i, pg, k);
    }
  }

  lemma CutPages(s: Store, rs: seq<Region>, ps: seq<int>, i: int, pg: int)
    requires Describes(s, rs, ps) && Hit(rs, i, pg)
    ensures PagesOk(Cut(s, rs, i, pg), ps)
  {
    var t := Cut(s, rs, i, pg);
    assert RegionOk(rs[i]);
    forall j | 0 <= j < |ps| ensures PageLink(t, ps, j) {
      assert PageLink(s, ps, j) && !Inside(rs[i], ps[j]);
      if i > 0 {
        assert RegionOk(rs[i - 1]) && !Inside(rs[i - 1], ps[j]);
      }
    }
  }

  /** Reserving a page of a region leaves exactly the other frames, in lists again, if the guard holds. */
  lemma CutDescribes(s: Store, rs: seq<Region>, ps: seq<int>, i: int, pg: int)
    requires Describes(s, rs, ps) && Hit(rs, i, pg) && Clean(rs, i, pg)
    ensures Describes(Cut(s, rs, i, pg), Splice(rs, i, pg), ps)
    ensures forall p :: Has(Splice(rs, i, pg), ps, p) <==> Has(rs, ps, p) && p != pg
  {
    hide Cut, Splice;
    var qs := Splice(rs, i, pg);
    SpliceShapes(rs, i, pg);
    CutLinks(s, rs, i, pg);
    CutPages(s, rs, ps, i, pg);
    forall k, j | 0 <= k < |qs| && 0 <= j < |ps| ensures !Inside(qs[k], ps[j]) {
      SplicePart(rs, i, pg, k);
      assert !Inside(rs[Source(rs, i, pg, k)], ps[j]);
    }
    assert pg !in ps;
    forall p ensures Has(qs, ps, p) <==> Has(rs, ps, p) && p != pg {
      SpliceHas(rs, ps, i, pg, p);
    }
  }

  // ------------------------------------------------------------ the page that is the last of its region

  /** The list that the words now spell, up to the pointer behind the reserved page. */
  function Spelled(rs: seq<Region>, i: int, pg: int): seq<Region>
    requires 0 <= i < |rs|
  {
    if pg > rs[i].base then rs[..i] + [Left(rs[i], pg)] else rs[..i]
  }

  /** Where the spelled list goes after `k` regions. */
  function SpelledNext(rs: seq<Region>, i: int, pg: int, k: int): int
    requires 0 <= i < |rs| && 0 <= k <= |Spelled(rs, i, pg)|
  {
    if k < |Spelled(rs, i, pg)| then Spelled(rs, i, pg)[k].base else pg + PGLEN
  }

  lemma SpelledLink(s: Store, rs: seq<Region>, i: int, pg: int, k: int)
    requires Shapes(rs) && Links(s, rs) && Hit(rs, i, pg) && 0 <= k <= |Spelled(rs, i, pg)|
    ensures var t := Cut(s, rs, i, pg); var next := SpelledNext(rs, i, pg, k);
            && next != NOPHYS
            && if k == 0 then t.rootrgn == next
               else var r := Spelled(rs, i, pg)[k - 1];
                    r.base in t.w0 && r.base in t.w1 && t.w0[r.base] == next && t.w1[r.base] == r.len
  {
    hide Cut;
    CutPieces(s, rs, i, pg);
    assert RegionOk(rs[i]);
    if k > 0 && k - 1 < i {
      CutElsewhere(s, rs, i, pg, k - 1);
      assert RegionLink(s, rs, k - 1);
    }
    if k < i { assert RegionOk(rs[k]); }
  }

  lemma {:induction false} WalkFront(s: Store, rs: seq<Region>, i: int, pg: int, qs: seq<Region>, k: int)
    requires Shapes(rs) && Links(s, rs) && Hit(rs, i, pg) && Links(Cut(s, rs, i, pg), qs)
    requires 0 <= k <= |Spelled(rs, i, pg)|
    ensures k < |qs| && qs[..k] == Spelled(rs, i, pg)[..k] && qs[k].base == SpelledNext(rs, i, pg, k)
  {
    hide Cut, Spelled;
    var ms := Spelled(rs, i, pg);
    SpelledLink(s, rs, i, pg, k);
    if k > 0 {
      WalkFront(s, rs, i, pg, qs, k - 1);
      assert RegionLink(Cut(s, rs, i, pg), qs, k - 1);
      assert qs[k - 1] == ms[k - 1];
      assert qs[..k] == qs[..k - 1] + [qs[k - 1]] && ms[..k] == ms[..k - 1] + [ms[k - 1]];
    }
  }

  /** If the pointer happens to hit another region of the list, what follows is that region's tail. */
  lemma {:induction false} WalkBack(s: Store, rs: seq<Region>, ps: seq<int>, i: int, pg: int, qs: seq<Region>, o: int,
      j: int)
    requires Describes(s, rs, ps) && Hit(rs, i, pg) && !Clean(rs, i, pg) && Links(Cut(s, rs, i, pg), qs)
    requires Shapes(qs) && i < o < |rs| && rs[o].base == pg + PGLEN && |Spelled(rs, i, pg)| <= j < |qs|
    ensures o + (j - |Spelled(rs, i, pg)|) < |rs| && qs[j] == rs[o + (j - |Spelled(rs, i, pg)|)]
  {
    hide Cut, Spelled, Links, Shapes, Clean;
    var m := |Spelled(rs, i, pg)|;
    WalkHere(s, rs, i, pg, qs, o, m);
    if j > m {
      WalkBack(s, rs, ps, i, pg, qs, o, j - 1);
      WalkStep(s, rs, i, pg, qs, o + (j - 1 - m), j - 1);
    }
  }

  lemma WalkHere(s: Store, rs: seq<Region>, i: int, pg: int, qs: seq<Region>, o: int, m: int)
    requires Shapes(rs) && Links(s, rs) && Hit(rs, i, pg) && Links(Cut(s, rs, i, pg), qs)
    requires i < o < |rs| && rs[o].base == pg + PGLEN && m == |Spelled(rs, i, pg)| < |qs|
    ensures qs[m] == rs[o]
  {
    hide Cut, Spelled;
    WalkFront(s, rs, i, pg, qs, m);
    assert RegionLink(Cut(s, rs, i, pg), qs, m);
    CutElsewhere(s, rs, i, pg, o);
  }

  lemma WalkStep(s: Store, rs: seq<Region>, i: int, pg: int, qs: seq<Region>, o: int, j: int)
    requires Shapes(rs) && Links(s, rs) && Hit(rs, i, pg) && Links(Cut(s, rs, i, pg), qs) && Shapes(qs)
    requires i < o < |rs| && 0 <= j < |qs| - 1 && qs[j] == rs[o]
    ensures o + 1 < |rs| && qs[j + 1] == rs[o + 1]
  {
    hide Cut;
    var t := Cut(s, rs, i, pg);
    assert RegionLink(t, qs, j) && RegionLink(t, qs, j + 1) && RegionOk(qs[j + 1]);
    CutElsewhere(s, rs, i, pg, o);
    assert RegionLink(s, rs, o);
    CutElsewhere(s, rs, i, pg, o + 1);
  }

  lemma {:induction false} PagesAgree(s: Store, ps: seq<int>, qs: seq<int>, k: nat)
    requires PagesOk(s, ps) && PagesOk(s, qs) && k <= |ps|
    ensures k <= |qs| && qs[..k] == ps[..k]
    ensures k < |ps| ==> k < |qs| && qs[k] == ps[k]
    ensures k == |ps| ==> qs == ps
  {
    if k > 0 {
      PagesAgree(s, ps, qs, k - 1);
      assert PageLink(s, ps, k - 1) && PageLink(s, qs, k - 1);
      assert qs[..k] == qs[..k - 1] + [qs[k - 1]] && ps[..k] == ps[..k - 1] + [ps[k - 1]];
    }
    if k < |ps| { assert PageOk(ps[k]); }
    if k < |qs| { assert PageOk(qs[k]); }
  }

  /** Otherwise no reading of the words gives the frames that should be left: the list either runs into a frame
      that is not free, or skips a region. */
  lemma CutLoses(s: Store, rs: seq<Region>, ps: seq<int>, i: int, pg: int, qs: seq<Region>, us: seq<int>)
    requires Describes(s, rs, ps) && Hit(rs, i, pg) && !Clean(rs, i, pg) && Describes(Cut(s, rs, i, pg), qs, us)
    ensures exists p :: Has(qs, us, p) != (Has(rs, ps, p) && p != pg)
  {
    hide Cut;
    var x, m := pg + PGLEN, |Spelled(rs, i, pg)|;
    WalkFront(s, rs, i, pg, qs, m);
    CutPages(s, rs, ps, i, pg);
    PagesAgree(Cut(s, rs, i, pg), ps, us, |ps|);
    assert RegionOk(qs[m]) && RegionOk(rs[i]) && Inside(qs[m], x);
    assert Has(qs, us, x);
    if Has(rs, ps, x) {
      assert x !in ps;
      var o :| 0 <= o < |rs| && Inside(rs[o], x);
      if o < i {
        assert qs[o] == qs[..m][o];
      }
      NotBefore(rs, i, pg, qs, o);
      SkipsNext(s, rs, ps, i, pg, qs, us, o);
    }
  }

  lemma NotBefore(rs: seq<Region>, i: int, pg: int, qs: seq<Region>, o: int)
    requires Hit(rs, i, pg) && Shapes(qs) && 0 <= o < |rs| && |Spelled(rs, i, pg)| < |qs|
    requires Inside(qs[|Spelled(rs, i, pg)|], pg + PGLEN) && (o < i ==> qs[o] == rs[o])
    ensures Inside(rs[o], pg + PGLEN) ==> o >= i
  {
    if o < i {
      assert Apart(qs[o], qs[|Spelled(rs, i, pg)|]);
    }
  }

  /** The region behind the cut one is on no list any more. */
  lemma NextIsLost(s: Store, rs: seq<Region>, ps: seq<int>, i: int, pg: int, qs: seq<Region>, o: int, j: int)
    requires Describes(s, rs, ps) && Hit(rs, i, pg) && !Clean(rs, i, pg) && Shapes(qs) && Links(Cut(s, rs, i, pg), qs)
    requires i + 1 < o < |rs| && rs[o].base == pg + PGLEN && 0 <= j < |qs|
    ensures !Inside(qs[j], rs[i + 1].base)
  {
    hide Cut;
    var m := |Spelled(rs, i, pg)|;
    assert RegionOk(rs[i + 1]) && Apart(rs[i], rs[i + 1]);
    if j < m {
      WalkFront(s, rs, i, pg, qs, m);
      assert qs[j] == qs[..m][j] == Spelled(rs, i, pg)[j];
      if j < i { assert Apart(rs[j], rs[i + 1]); }
    } else {
      WalkBack(s, rs, ps, i, pg, qs, o, j);
      assert Apart(rs[i + 1], rs[o + (j - m)]);
    }
  }

  lemma LostRegion(rs: seq<Region>, i: int, pg: int, o: int)
    requires Shapes(rs) && Hit(rs, i, pg) && !Clean(rs, i, pg) && i <= o < |rs| && Inside(rs[o], pg + PGLEN)
    ensures rs[o].base == pg + PGLEN && o > i + 1
    ensures Inside(rs[i + 1], rs[i + 1].base) && rs[i + 1].base % PGLEN == 0 && rs[i + 1].base != pg
  {
    assert RegionOk(rs[i]) && RegionOk(rs[o]);
    assert o > i;
    assert Apart(rs[i], rs[o]);
    assert RegionOk(rs[i + 1]) && Apart(rs[i], rs[i + 1]);
  }

  lemma SkipsNext(s: Store, rs: seq<Region>, ps: seq<int>, i: int, pg: int, qs: seq<Region>, us: seq<int>, o: int)
    requires Describes(s, rs, ps) && Hit(rs, i, pg) && !Clean(rs, i, pg) && Describes(Cut(s, rs, i, pg), qs, us)
    requires i <= o < |rs| && Inside(rs[o], pg + PGLEN) && us == ps
    ensures exists p :: Has(qs, us, p) != (Has(rs, ps, p) && p != pg)
  {
    hide Cut, Links, Shapes, PagesOk;
    LostRegion(rs, i, pg, o);
    var lost := rs[i + 1].base;
    assert Has(rs, ps, lost) && lost !in ps;
    forall j | 0 <= j < |qs| ensures !Inside(qs[j], lost) {
      NextIsLost(s, rs, ps, i, pg, qs, o, j);
    }
    assert !Has(qs, us, lost);
  }

  /** Reserving a page of a region leaves words that spell exactly the other frames iff the guard holds. */
  lemma ReserveIff(s: Store, rs: seq<Region>, ps: seq<int>, i: int, pg: int)
    requires Describes(s, rs, ps) && Hit(rs, i, pg)
    ensures Clean(rs, i, pg) <==> exists qs, us :: Describes(Cut(s, rs, i, pg), qs, us)
                                    && forall p :: Has(qs, us, p) <==> Has(rs, ps, p) && p != pg
  {
    hide Cut, Describes;
    if Clean(rs, i, pg) {
      CutDescribes(s, rs, ps, i, pg);
    } else {
      forall qs, us | Describes(Cut(s, rs, i, pg), qs, us)
        ensures exists p :: Has(qs, us, p) != (Has(rs, ps, p) && p != pg)
      {
        CutLoses(s, rs, ps, i, pg, qs, us);
      }
    }
  }

  // ------------------------------------------------------------ what a call does to the lists

  /** The two lists in memory: the regions, and the single pages that were given back. */
  datatype Lists = Lists(rs: seq<Region>, ps: seq<int>)

  datatype Call = DoAlloc | DoFree(p: int) | DoReserve(pg: int)

  /** What a call did: a frame was handed out or given back, or the page to reserve was not free. */
  datatype Event = Took(p: int) | Gave(p: int) | NotFree

  /** The region that holds the page, or the number of regions. */
  function Place(rs: seq<Region>, pg: int): (i: nat)
    ensures i <= |rs| && (i < |rs| ==> Inside(rs[i], pg))
    ensures forall k :: 0 <= k < i ==> !Inside(rs[k], pg)
  {
    if rs == [] || Inside(rs[0], pg) then 0
    else
      var i := Place(rs[1..], pg);
      assert forall k :: 1 <= k < i + 1 ==> rs[k] == rs[1..][k - 1];
      i + 1
  }

  function Without(ps: seq<int>, p: int): seq<int> {
    if ps == [] then [] else if ps[0] == p then ps[1..] else [ps[0]] + Without(ps[1..], p)
  }

  /** The calls that the lists do not outlive: an allocation without memory, which halts; a free of a page that is free
      already; a reservation outside the guard. */
  predicate Stops(l: Lists, c: Call) {
    match c
    case DoAlloc => l.rs == [] && l.ps == []
    case DoFree(p) => !PageOk(p) || Has(l.rs, l.ps, p)
    case DoReserve(pg) => pg % PGLEN != 0 || (Place(l.rs, pg) < |l.rs| && !Clean(l.rs, Place(l.rs, pg), pg))
  }

  /** All others: single pages go first and the last one given back is the first one handed out; then the regions go,
      from their front.  A page that is reserved leaves its region or the list of single pages. */
  function Serve(l: Lists, c: Call): (Lists, Event)
    requires !Stops(l, c)
  {
    match c
    case DoAlloc =>
      if l.ps != [] then (l.(ps := l.ps[1..]), Took(l.ps[0]))
      else (l.(rs := Splice(l.rs, 0, l.rs[0].base)), Took(l.rs[0].base))
    case DoFree(p) => (l.(ps := [p] + l.ps), Gave(p))
    case DoReserve(pg) =>
      var i := Place(l.rs, pg);
      if i < |l.rs| then (l.(rs := Splice(l.rs, i, pg)), Took(pg))
      else if pg in l.ps then (l.(ps := Without(l.ps, pg)), Took(pg))
      else (l, NotFree)
  }

  lemma {:induction false} WithoutAt(ps: seq<int>, i: nat)
    requires i < |ps| && forall j, k :: 0 <= j < k < |ps| ==> ps[j] != ps[k]
    ensures Without(ps, ps[i]) == ps[..i] + ps[i + 1..]
  {
    if i > 0 {
      WithoutAt(ps[1..], i - 1);
      assert ps[1..][..i - 1] == ps[1..i] && ps[1..][i..] == ps[i + 1..] && [ps[0]] + ps[1..i] == ps[..i];
      Regroup([ps[0]], ps[1..i], ps[i + 1..]);
    }
  }

  lemma PlaceIs(rs: seq<Region>, pg: int, i: nat)
    requires i <= |rs| && (i < |rs| ==> Inside(rs[i], pg)) && forall k :: 0 <= k < i ==> !Inside(rs[k], pg)
    ensures Place(rs, pg) == i
  {
  }

  // ------------------------------------------------------------ the allocator

  function FramesOf(r: Region): set<int> {
    set p | r.base <= p < r.base + r.len && p % PGLEN == 0
  }

  class Allocator {
    var rootrgn: int
    var rootppg: int
    var w0: map<int, int>   // first and second word of every page of memory
    var w1: map<int, int>
    var window: int         // the frame that SPG shows
    ghost var rs: seq<Region>
    ghost var ps: seq<int>
    ghost var free: set<int>

    constructor ()
      ensures Valid() && free == {}
    {
      rootrgn, rootppg, w0, w1, window := NOPHYS, NOPHYS, map[], map[], 0;
      rs, ps, free := [], [], {};
    }

    ghost function Now(): Store
      reads this
    {
      Store(rootrgn, rootppg, w0, w1)
    }

    ghost function Content(): Lists
      reads this
    {
      Lists(rs, ps)
    }

    ghost predicate Valid()
      reads this
    {
      Describes(Now(), rs, ps) && forall p :: p in free <==> Has(rs, ps, p)
    }

    method SpecMap(pg: int)
      modifies this`window
      ensures window == pg
    {
      window := pg;
    }

    /** One usable region of the boot memory map (`ppginit`). */
    method AddRegion(base: int, len: int)
      requires Valid() && RegionOk(Region(base, len)) && FramesOf(Region(base, len)) !! free
      modifies this
      ensures Valid() && free == old(free) + FramesOf(Region(base, len))
      ensures Content() == Lists([Region(base, len)] + old(rs), old(ps))
    {
      ghost var r := Region(base, len);
      SpecMap(base);
      w0 := w0[window := rootrgn];
      w1 := w1[window := len];
      rootrgn := base;
      AddDescribes(old(Now()), rs, ps, r);
      rs := [r] + rs;
      free := free + FramesOf(r);
      forall p ensures p in free <==> Has(rs, ps, p) {
        AddHas(old(rs), ps, r, p);
      }
    }

    /** The first frame of the list of single pages. */
    method PopPage() returns (p: int)
      requires Valid() && rootppg != NOPHYS
      modifies this`window, this`rootppg, this`ps, this`free
      ensures Valid() && p in old(free) && free == old(free) - {p}
      ensures old(ps) != [] && p == old(ps)[0] && ps == old(ps)[1..]
    {
      hide Describes, Links, Shapes;
      PageRoot(Now(), rs, ps);
      p := rootppg;
      SpecMap(rootppg);
      rootppg := w0[window];
      PopDescribes(old(Now()), rs, ps);
      assert Has(rs, ps, p);
      ps, free := ps[1..], free - {p};
    }

    /** The first frame of the first region. */
    method TakeFromRegion() returns (p: int)
      requires Valid() && rootppg == NOPHYS && rootrgn != NOPHYS
      modifies this`window, this`rootrgn, this`w0, this`w1, this`rs, this`free
      ensures Valid() && p in old(free) && free == old(free) - {p}
      ensures old(ps) == [] && old(rs) != [] && p == old(rs)[0].base && rs == Splice(old(rs), 0, p)
    {
      hide Describes, Links, Shapes, Splice, PagesOk;
      Roots(Now(), rs, ps);
      RegionRoot(Now(), rs, ps);
      p := rootrgn;
      ghost var s := Now();
      SpecMap(rootrgn);
      if w1[window] == PGLEN {
        rootrgn := w0[window];
      } else {
        var next, len := w0[window], w1[window] - PGLEN;
        rootrgn := rootrgn + PGLEN;
        SpecMap(rootrgn);
        w0 := w0[window := next];
        w1 := w1[window := len];
      }
      TakeFirst(s, Now(), rs);
      rs, free := Splice(rs, 0, p), free - {p};
    }

    /** `ppgalloc`: the first frame of the lists leaves the set and nothing else changes; None is the halt without
        memory. */
    method Alloc() returns (r: Option<int>)
      requires Valid()
      modifies this
      ensures Valid()
      ensures r.None? <==> old(free) == {}
      ensures r.None? ==> free == old(free)
      ensures r.Some? ==> r.value in old(free) && free == old(free) - {r.value}
      ensures r.None? <==> Stops(old(Content()), DoAlloc)
      ensures r.Some? ==> (Content(), Took(r.value)) == Serve(old(Content()), DoAlloc)
    {
      hide Describes, Links, Shapes, PagesOk, Splice;
      Roots(Now(), rs, ps);
      if rootppg != NOPHYS {
        var p := PopPage();
        return Some(p);
      }
      if rootrgn == NOPHYS {
        forall p ensures p !in free {
          assert !Has([], [], p);
        }
        return None;
      }
      var p := TakeFromRegion();
      r := Some(p);
    }

    /** The header writes of `ppgreserve` on a region that holds the page; `prev` is the header before it. */
    method CutRegion(cp: int, prev: int, pg: int, ghost i: int)
      requires Describes(Now(), rs, ps) && Hit(rs, i, pg) && cp == rs[i].base
      requires prev == if i > 0 then rs[i - 1].base else NOPHYS
      modifies this`window, this`rootrgn, this`w0, this`w1
      ensures Now() == Cut(old(Now()), rs, i, pg)
    {
      assert RegionLink(Now(), rs, i);
      if i > 0 { assert RegionOk(rs[i - 1]) && Apart(rs[i - 1], rs[i]) && RegionOk(rs[i]); }
      SpecMap(cp);
      var len, next := w1[window] - (pg - cp + PGLEN), w0[window];
      w1 := w1[window := pg - cp];
      w0 := w0[window := pg + PGLEN];
      if w1[window] == 0 {
        if prev != NOPHYS {
          SpecMap(prev);
          w0 := w0[window := pg + PGLEN];
        } else {
          rootrgn := pg + PGLEN;
        }
      }
      if len > 0 {
        SpecMap(pg + PGLEN);
        w0 := w0[window := next];
        w1 := w1[window := len];
      }
    }

    /** The first loop of `ppgreserve`; `i` is the region that holds the page, or the number of regions. */
    method FindRegion(pg: int) returns (cp: int, prev: int, ghost i: int)
      requires Describes(Now(), rs, ps)
      modifies this`window
      ensures 0 <= i <= |rs| && cp == (if i < |rs| then rs[i].base else NOPHYS)
      ensures prev == if i > 0 then rs[i - 1].base else NOPHYS
      ensures i < |rs| ==> Inside(rs[i], pg)
      ensures forall k :: 0 <= k < i ==> !Inside(rs[k], pg)
    {
      cp, prev, i := rootrgn, NOPHYS, 0;
      NoneEnds(Now(), rs, ps);
      while cp != NOPHYS
        invariant 0 <= i <= |rs| && cp == if i < |rs| then rs[i].base else NOPHYS
        invariant prev == if i > 0 then rs[i - 1].base else NOPHYS
        invariant forall k :: 0 <= k < i ==> !Inside(rs[k], pg)
        decreases |rs| - i
      {
        assert RegionLink(Now(), rs, i);
        SpecMap(cp);
        if cp <= pg < cp + w1[window] {
          return;
        }
        cp, prev, i := w0[window], cp, i + 1;
      }
    }

    /** The second loop of `ppgreserve`. */
    method FindPage(pg: int) returns (found: bool, prev: int, ghost i: int)
      requires Describes(Now(), rs, ps)
      modifies this`window
      ensures 0 <= i <= |ps| && (found <==> i < |ps|) && (found <==> pg in ps)
      ensures found ==> pg == ps[i] && window == pg && prev == if i > 0 then ps[i - 1] else NOPHYS
    {
      var cp := rootppg;
      prev, i := NOPHYS, 0;
      NoneEnds(Now(), rs, ps);
      while cp != NOPHYS
        invariant 0 <= i <= |ps| && cp == if i < |ps| then ps[i] else NOPHYS
        invariant prev == if i > 0 then ps[i - 1] else NOPHYS
        invariant forall k :: 0 <= k < i ==> ps[k] != pg
        decreases |ps| - i
      {
        assert PageLink(Now(), ps, i);
        SpecMap(cp);
        if cp == pg {
          found := true;
          return;
        }
        cp, prev, i := w0[window], cp, i + 1;
      }
      found := false;
    }

    /** `ppgreserve`: 0 if the page was free, 1 with no change if it was not.  The page leaves the set and nothing
        else changes, unless it was the last of a region that the next one does not follow; `ReserveIff` says what
        then becomes of the lists. */
    method Reserve(pg: int) returns (r: int, ghost hit: int)
      requires Valid() && pg % PGLEN == 0
      modifies this
      ensures (r == 0 || r == 1) && (r == 0 <==> pg in old(free))
      ensures r == 1 ==> Valid() && Now() == old(Now()) && free == old(free) && hit == -1
      ensures hit != -1 ==> Hit(old(rs), hit, pg) && Now() == Cut(old(Now()), old(rs), hit, pg)
      ensures r == 0 && (hit != -1 ==> Clean(old(rs), hit, pg)) ==> Valid() && free == old(free) - {pg}
      ensures Stops(old(Content()), DoReserve(pg)) <==> hit != -1 && !Clean(old(rs), hit, pg)
      ensures !Stops(old(Content()), DoReserve(pg)) ==>
                (Content(), if r == 0 then Took(pg) else NotFree) == Serve(old(Content()), DoReserve(pg))
    {
      hide Describes, Cut, Splice, Clean, Without;
      var cp, prev;
      ghost var i;
      cp, prev, i := FindRegion(pg);
      NoneEnds(Now(), rs, ps);
      PlaceIs(rs, pg, i);
      if cp != NOPHYS {
        CutRegion(cp, prev, pg, i);
        hit := i;
        assert Has(rs, ps, pg);
        if Clean(rs, i, pg) {
          CutDescribes(old(Now()), rs, ps, i, pg);
          rs, free := Splice(rs, i, pg), free - {pg};
        }
        return 0, i;
      }
      var found;
      found, prev, i := FindPage(pg);
      hit := -1;
      if !found {
        return 1, -1;
      }
      assert Has(rs, ps, pg);
      UnlinkPage(prev, pg, i);
      r := 0;
    }

    method UnlinkPage(prev: int, pg: int, ghost i: int)
      requires Valid() && 0 <= i < |ps| && pg == ps[i] == window && prev == if i > 0 then ps[i - 1] else NOPHYS
      modifies this`window, this`rootppg, this`w0, this`ps, this`free
      ensures Valid() && free == old(free) - {pg} && ps == Without(old(ps), pg)
    {
      hide Without;
      ghost var s := Now();
      WithoutAt(ps, i);
      assert PageLink(s, ps, i);
      if i > 0 { assert PageOk(ps[i - 1]); }
      var next := w0[window];
      if prev != NOPHYS {
        SpecMap(prev);
        w0 := w0[window := next];
      } else {
        rootppg := next;
      }
      UnlinkDescribes(s, rs, ps, i, Now());
      ps, free := ps[..i] + ps[i + 1..], free - {pg};
    }

    /** `ppgfree`: exactly this frame joins the set. */
    method Free(p: int)
      requires Valid() && PageOk(p) && p !in free
      modifies this
      ensures Valid() && free == old(free) + {p}
      ensures !Stops(old(Content()), DoFree(p)) && (Content(), Gave(p)) == Serve(old(Content()), DoFree(p))
    {
      assert !Has(rs, ps, p);
      SpecMap(p);
      w0 := w0[window := rootppg];
      rootppg := p;
      PushDescribes(old(Now()), rs, ps, p);
      ps, free := [p] + ps, free + {p};
    }
  }

  lemma UnlinkDescribes(s: Store, rs: seq<Region>, ps: seq<int>, i: int, t: Store)
    requires Describes(s, rs, ps) && 0 <= i < |ps|
    requires var next := if i + 1 < |ps| then ps[i + 1] else NOPHYS;
             t == if i > 0 then s.(w0 := s.w0[ps[i - 1] := next]) else s.(rootppg := next)
    ensures Describes(t, rs, ps[..i] + ps[i + 1..])
    ensures forall p :: Has(rs, ps[..i] + ps[i + 1..], p) <==> Has(rs, ps, p) && p != ps[i]
  {
    var us := ps[..i] + ps[i + 1..];
    forall k | 0 <= k < |rs| ensures RegionLink(t, rs, k) {
      assert RegionLink(s, rs, k) && RegionOk(rs[k]) && Inside(rs[k], rs[k].base);
      if i > 0 { assert !Inside(rs[k], ps[i - 1]); }
    }
    forall j | 0 <= j < |us| ensures PageLink(t, us, j) {
      assert PageLink(s, ps, if j < i then j else j + 1);
    }
    forall p ensures Has(rs, us, p) <==> Has(rs, ps, p) && p != ps[i] {
      assert PageOk(ps[i]);
      assert p in us <==> p in ps && p != ps[i];
    }
  }

  lemma Roots(s: Store, rs: seq<Region>, ps: seq<int>)
    requires Describes(s, rs, ps)
    ensures s.rootppg == NOPHYS <==> ps == []
    ensures s.rootrgn == NOPHYS <==> rs == []
  {
    if ps != [] { assert PageOk(ps[0]); }
    if rs != [] { assert RegionOk(rs[0]); }
  }

  lemma PageRoot(s: Store, rs: seq<Region>, ps: seq<int>)
    requires Describes(s, rs, ps) && s.rootppg != NOPHYS
    ensures ps != [] && s.rootppg == ps[0] && ps[0] in s.w0 && PageOk(ps[0])
  {
    assert PageLink(s, ps, 0);
  }

  lemma RegionRoot(s: Store, rs: seq<Region>, ps: seq<int>)
    requires Describes(s, rs, ps) && s.rootrgn != NOPHYS
    ensures rs != [] && s.rootrgn == rs[0].base && Has(rs, ps, rs[0].base)
    ensures rs[0].base in s.w0 && rs[0].base in s.w1 && s.w1[rs[0].base] == rs[0].len
    ensures s.w0[rs[0].base] == if |rs| > 1 then rs[1].base else NOPHYS
  {
    assert RegionLink(s, rs, 0) && RegionOk(rs[0]) && Inside(rs[0], rs[0].base);
  }

  lemma NoneEnds(s: Store, rs: seq<Region>, ps: seq<int>)
    requires Describes(s, rs, ps)
    ensures forall i :: 0 <= i < |rs| ==> rs[i].base != NOPHYS
    ensures forall j :: 0 <= j < |ps| ==> ps[j] != NOPHYS
  {
    forall i | 0 <= i < |rs| ensures rs[i].base != NOPHYS {
      assert RegionOk(rs[i]);
    }
    forall j | 0 <= j < |ps| ensures ps[j] != NOPHYS {
      assert PageOk(ps[j]);
    }
  }

  /** A region none of whose frames is on the lists overlaps no region that is. */
  lemma ApartIfAbsent(rs: seq<Region>, ps: seq<int>, r: Region, k: int)
    requires 0 <= k < |rs| && RegionOk(r) && RegionOk(rs[k]) && forall p :: p in FramesOf(r) ==> !Has(rs, ps, p)
    ensures Apart(r, rs[k])
  {
    var p := if r.base >= rs[k].base then r.base else rs[k].base;
    assert p in FramesOf(r) ==> !Has(rs, ps, p);
    assert Inside(rs[k], p) ==> Has(rs, ps, p);
  }

  lemma AddDescribes(s: Store, rs: seq<Region>, ps: seq<int>, r: Region)
    requires Describes(s, rs, ps) && RegionOk(r) && forall p :: p in FramesOf(r) ==> !Has(rs, ps, p)
    ensures Describes(Store(r.base, s.rootppg, s.w0[r.base := s.rootrgn], s.w1[r.base := r.len]), [r] + rs, ps)
  {
    var t, qs := Store(r.base, s.rootppg, s.w0[r.base := s.rootrgn], s.w1[r.base := r.len]), [r] + rs;
    forall k | 0 <= k < |rs| ensures Apart(r, rs[k]) {
      ApartIfAbsent(rs, ps, r, k);
    }
    forall k | 0 <= k < |qs| ensures RegionLink(t, qs, k) {
      if k > 0 { assert RegionLink(s, rs, k - 1) && Apart(r, rs[k - 1]) && RegionOk(rs[k - 1]); }
    }
    forall k, l | 0 <= k < l < |qs| ensures Apart(qs[k], qs[l]) {
      if k > 0 { assert Apart(rs[k - 1], rs[l - 1]); }
    }
    forall j | 0 <= j < |ps| ensures PageLink(t, ps, j) && !Inside(r, ps[j]) {
      assert PageLink(s, ps, j) && PageOk(ps[j]) && Has(rs, ps, ps[j]);
      assert ps[j] !in FramesOf(r);
    }
  }

  lemma AddHas(rs: seq<Region>, ps: seq<int>, r: Region, p: int)
    ensures Has([r] + rs, ps, p) <==> Has(rs, ps, p) || p in FramesOf(r)
  {
    var qs := [r] + rs;
    if exists i :: 0 <= i < |rs| && Inside(rs[i], p) {
      var i :| 0 <= i < |rs| && Inside(rs[i], p);
      assert Inside(qs[i + 1], p);
    }
    assert Inside(qs[0], p) <==> Inside(r, p);
    if exists k :: 0 <= k < |qs| && Inside(qs[k], p) {
      var k :| 0 <= k < |qs| && Inside(qs[k], p);
      assert k > 0 ==> Inside(rs[k - 1], p);
    }
  }

  lemma PopDescribes(s: Store, rs: seq<Region>, ps: seq<int>)
    requires Describes(s, rs, ps) && ps != [] && ps[0] in s.w0
    ensures Describes(s.(rootppg := s.w0[ps[0]]), rs, ps[1..])
    ensures forall p :: Has(rs, ps[1..], p) <==> Has(rs, ps, p) && p != ps[0]
  {
    var t := s.(rootppg := s.w0[ps[0]]);
    assert PageLink(s, ps, 0);
    forall k | 0 <= k < |rs| ensures RegionLink(t, rs, k) { assert RegionLink(s, rs, k); }
    forall j | 0 <= j < |ps| - 1 ensures PageLink(t, ps[1..], j) { assert PageLink(s, ps, j + 1); }
    forall p ensures Has(rs, ps[1..], p) <==> Has(rs, ps, p) && p != ps[0] {
      assert p in ps <==> p == ps[0] || p in ps[1..];
    }
  }

  lemma PushDescribes(s: Store, rs: seq<Region>, ps: seq<int>, p: int)
    requires Describes(s, rs, ps) && PageOk(p) && !Has(rs, ps, p)
    ensures Describes(Push(s, p), rs, [p] + ps)
    ensures forall q :: Has(rs, [p] + ps, q) <==> Has(rs, ps, q) || q == p
  {
    var t := Push(s, p);
    forall k | 0 <= k < |rs| ensures RegionLink(t, rs, k) {
      assert RegionLink(s, rs, k) && RegionOk(rs[k]) && !Inside(rs[k], p);
    }
    forall j | 0 <= j < |ps| + 1 ensures PageLink(t, [p] + ps, j) {
      if j > 0 { assert PageLink(s, ps, j - 1); }
    }
  }

  /** What `ppgfree` writes. */
  function Push(s: Store, p: int): Store {
    Store(s.rootrgn, p, s.w0[p := s.rootppg], s.w1)
  }

  /** The exact condition: after a free the words are lists again iff the page was not free already. */
  lemma FreeIff(s: Store, rs: seq<Region>, ps: seq<int>, p: int)
    requires Describes(s, rs, ps) && PageOk(p)
    ensures !Has(rs, ps, p) <==> exists qs, us :: Describes(Push(s, p), qs, us)
  {
    var t := Push(s, p);
    if !Has(rs, ps, p) {
      PushDescribes(s, rs, ps, p);
    } else {
      forall qs, us ensures !Describes(t, qs, us) {
        if Describes(t, qs, us) {
          HopIs(t, us, 0);
          if p in ps {
            var i :| 0 <= i < |ps| && ps[i] == p;
            HopRound(s, ps, i, i);
            if i + 1 < |us| { HopIs(t, us, i + 1); } else { HopIs(t, us, |us|); HopRound(s, ps, i, |us| - 1); }
          } else {
            var j :| 0 <= j < |rs| && Inside(rs[j], p);
            RegionsStay(s, rs, p, j, qs, j);
          }
        }
      }
    }
  }

  /** The page that `k` links lead to from the root of the list of single pages. */
  function Hop(s: Store, k: nat): int {
    if k == 0 then s.rootppg
    else var p := Hop(s, k - 1); if p in s.w0 then s.w0[p] else NOPHYS
  }

  lemma {:induction false} HopIs(s: Store, ps: seq<int>, k: nat)
    requires PagesOk(s, ps) && k <= |ps|
    ensures Hop(s, k) == if k < |ps| then ps[k] else NOPHYS
  {
    if k > 0 {
      HopIs(s, ps, k - 1);
      assert PageLink(s, ps, k - 1);
    }
  }

  /** From a page that was in the list already, the links lead round to it. */
  lemma {:induction false} HopRound(s: Store, ps: seq<int>, i: nat, k: nat)
    requires PagesOk(s, ps) && k <= i < |ps|
    ensures Hop(Push(s, ps[i]), k + 1) == ps[k]
  {
    if k > 0 {
      HopRound(s, ps, i, k - 1);
      assert PageLink(s, ps, k - 1) && ps[k - 1] != ps[i];
    }
  }

  /** The regions up to the one that holds the page are read as before. */
  lemma {:induction false} RegionsStay(s: Store, rs: seq<Region>, p: int, j: nat, qs: seq<Region>, k: nat)
    requires Shapes(rs) && Links(s, rs) && Shapes(qs) && Links(Push(s, p), qs)
    requires k <= j < |rs| && Inside(rs[j], p)
    ensures k < |qs| && qs[k] == rs[k]
  {
    var t := Push(s, p);
    assert RegionLink(s, rs, k) && RegionOk(rs[k]);
    if k > 0 {
      RegionsStay(s, rs, p, j, qs, k - 1);
      assert RegionLink(t, qs, k - 1) && RegionLink(s, rs, k - 1) && Apart(rs[k - 1], rs[j]) && RegionOk(rs[k - 1]);
    }
    assert RegionLink(t, qs, k);
  }

  /** Taking the first page of the first region, whichever of the two ways the kernel does it. */
  lemma TakeFirst(s: Store, t: Store, rs: seq<Region>)
    requires Describes(s, rs, []) && rs != []
    requires var r := rs[0]; var next := if |rs| > 1 then rs[1].base else NOPHYS;
             t == if r.len == PGLEN then s.(rootrgn := next)
                  else Store(r.base + PGLEN, s.rootppg, s.w0[r.base + PGLEN := next],
                    s.w1[r.base + PGLEN := r.len - PGLEN])
    ensures Describes(t, Splice(rs, 0, rs[0].base), [])
    ensures forall p :: Has(Splice(rs, 0, rs[0].base), [], p) <==> Has(rs, [], p) && p != rs[0].base
  {
    var pg := rs[0].base;
    var qs := Splice(rs, 0, pg);
    assert RegionOk(rs[0]);
    assert Hit(rs, 0, pg);
    SpliceShapes(rs, 0, pg);
    assert qs == if rs[0].len == PGLEN then rs[1..] else [Right(rs[0], pg)] + rs[1..];
    forall k | 0 <= k < |qs| ensures RegionLink(t, qs, k) {
      var o := Source(rs, 0, pg, k);
      assert RegionLink(s, rs, o) && RegionOk(rs[o]);
      if o > 0 { assert Apart(rs[0], rs[o]); }
    }
    forall p ensures Has(qs, [], p) <==> Has(rs, [], p) && p != pg {
      SpliceHas(rs, [], 0, pg, p);
    }
  }

  // ------------------------------------------------------------ runs

  /** What `Describes` says of the lists themselves. */
  ghost predicate Proper(l: Lists) {
    && Shapes(l.rs)
    && (forall i :: 0 <= i < |l.ps| ==> PageOk(l.ps[i]))
    && (forall i, j :: 0 <= i < j < |l.ps| ==> l.ps[i] != l.ps[j])
    && (forall i, j :: 0 <= i < |l.rs| && 0 <= j < |l.ps| ==> !Inside(l.rs[i], l.ps[j]))
  }

  ghost predicate IsFree(l: Lists, p: int) {
    Has(l.rs, l.ps, p)
  }

  /** The event tells what the call did to the set of free frames. */
  ghost predicate Does(l: Lists, e: Event, l': Lists) {
    match e
    case Took(p) => IsFree(l, p) && forall q :: IsFree(l', q) <==> IsFree(l, q) && q != p
    case Gave(p) => !IsFree(l, p) && forall q :: IsFree(l', q) <==> IsFree(l, q) || q == p
    case NotFree => l' == l
  }

  lemma ServeSplice(l: Lists, i: int, pg: int)
    requires Proper(l) && Hit(l.rs, i, pg)
    ensures var l' := l.(rs := Splice(l.rs, i, pg)); Proper(l') && Does(l, Took(pg), l')
  {
    hide Splice, Shapes;
    var qs := Splice(l.rs, i, pg);
    SpliceShapes(l.rs, i, pg);
    forall k, j | 0 <= k < |qs| && 0 <= j < |l.ps| ensures !Inside(qs[k], l.ps[j]) {
      SplicePart(l.rs, i, pg, k);
      assert !Inside(l.rs[Source(l.rs, i, pg, k)], l.ps[j]);
    }
    assert pg !in l.ps;
    forall q ensures Has(qs, l.ps, q) <==> Has(l.rs, l.ps, q) && q != pg {
      SpliceHas(l.rs, l.ps, i, pg, q);
    }
  }

  lemma ServeUnlink(l: Lists, i: nat)
    requires Proper(l) && i < |l.ps|
    ensures var l' := l.(ps := l.ps[..i] + l.ps[i + 1..]); Proper(l') && Does(l, Took(l.ps[i]), l')
  {
    var us := l.ps[..i] + l.ps[i + 1..];
    forall q ensures q in us <==> q in l.ps && q != l.ps[i] {
      if q in l.ps && q != l.ps[i] {
        var j :| 0 <= j < |l.ps| && l.ps[j] == q;
        assert us[if j < i then j else j - 1] == q;
      }
    }
    forall j | 0 <= j < |us| ensures PageOk(us[j]) && forall k :: 0 <= k < |l.rs| ==> !Inside(l.rs[k], us[j]) {
      assert us[j] == l.ps[if j < i then j else j + 1];
    }
    assert PageOk(l.ps[i]);
  }

  /** A call keeps the lists proper and does what its event says; a reservation takes its page iff that is free. */
  lemma ServeDoes(l: Lists, c: Call)
    requires Proper(l) && !Stops(l, c)
    ensures Proper(Serve(l, c).0) && Does(l, Serve(l, c).1, Serve(l, c).0)
    ensures c.DoReserve? ==> (Serve(l, c).1 == Took(c.pg) <==> IsFree(l, c.pg))
  {
    hide Splice, Shapes, Without, Proper, Does;
    match c
    case DoAlloc =>
      if l.ps != [] {
        assert l.ps[..0] + l.ps[1..] == l.ps[1..];
        ServeUnlink(l, 0);
      } else {
        FirstRegion(l);
        ServeSplice(l, 0, l.rs[0].base);
      }
    case DoFree(p) => ServePush(l, p);
    case DoReserve(pg) =>
      var i := Place(l.rs, pg);
      if i < |l.rs| {
        ServeSplice(l, i, pg);
      } else if pg in l.ps {
        var j :| 0 <= j < |l.ps| && l.ps[j] == pg;
        PagesDiffer(l);
        WithoutAt(l.ps, j);
        ServeUnlink(l, j);
      } else {
        NothingDone(l);
      }
  }

  lemma FirstRegion(l: Lists)
    requires Proper(l) && l.rs != []
    ensures Hit(l.rs, 0, l.rs[0].base)
  {
    assert RegionOk(l.rs[0]);
  }

  lemma PagesDiffer(l: Lists)
    requires Proper(l)
    ensures forall i, j :: 0 <= i < j < |l.ps| ==> l.ps[i] != l.ps[j]
  {
  }

  lemma ServePush(l: Lists, p: int)
    requires Proper(l) && PageOk(p) && !IsFree(l, p)
    ensures var l' := l.(ps := [p] + l.ps); Proper(l') && Does(l, Gave(p), l')
  {
  }

  lemma NothingDone(l: Lists)
    ensures Does(l, NotFree, l)
  {
  }

  /** The calls that were made, with the lists before, between and after them. */
  ghost predicate Trace(ls: seq<Lists>, calls: seq<Call>, log: seq<Event>) {
    && |ls| == |log| + 1 && |log| <= |calls|
    && forall i :: 0 <= i < |log| ==> Served(ls, calls, log, i)
  }

  ghost predicate Served(ls: seq<Lists>, calls: seq<Call>, log: seq<Event>, i: int)
    requires |ls| == |log| + 1 && 0 <= i < |log| <= |calls|
  {
    !Stops(ls[i], calls[i]) && (ls[i + 1], log[i]) == Serve(ls[i], calls[i])
  }

  lemma {:induction false} TraceProper(ls: seq<Lists>, calls: seq<Call>, log: seq<Event>, i: nat)
    requires Trace(ls, calls, log) && Proper(ls[0]) && i <= |log|
    ensures Proper(ls[i]) && (i < |log| ==> Does(ls[i], log[i], ls[i + 1]))
  {
    hide Proper, Does, Stops, Serve;
    if i > 0 {
      TraceProper(ls, calls, log, i - 1);
      assert Served(ls, calls, log, i - 1);
      ServeDoes(ls[i - 1], calls[i - 1]);
    }
    if i < |log| {
      assert Served(ls, calls, log, i);
      ServeDoes(ls[i], calls[i]);
    }
  }

  /** A frame that is not free stays so until it is given back. */
  lemma {:induction false} StaysTaken(ls: seq<Lists>, calls: seq<Call>, log: seq<Event>, p: int, i: nat, j: nat)
    requires Trace(ls, calls, log) && Proper(ls[0]) && i <= j <= |log| && !IsFree(ls[i], p) && IsFree(ls[j], p)
    ensures exists k :: i <= k < j && log[k] == Gave(p)
    decreases j
  {
    hide Proper, IsFree;
    if j > i {
      TraceProper(ls, calls, log, j - 1);
      if IsFree(ls[j - 1], p) {
        StaysTaken(ls, calls, log, p, i, j - 1);
      } else {
        assert log[j - 1] == Gave(p);
      }
    }
  }

  /** No frame is handed out twice without being given back in between. */
  ghost predicate OnceEach(log: seq<Event>) {
    forall i, j, p :: 0 <= i < j < |log| && log[i] == Took(p) && log[j] == Took(p) ==> GivenBetween(log, i, j, p)
  }

  ghost predicate GivenBetween(log: seq<Event>, i: int, j: int, p: int)
    requires 0 <= i <= j <= |log|
  {
    exists k :: i < k < j && log[k] == Gave(p)
  }

  lemma NeverHandedOutTwice(ls: seq<Lists>, calls: seq<Call>, log: seq<Event>)
    requires Trace(ls, calls, log) && Proper(ls[0])
    ensures OnceEach(log)
  {
    hide Proper, IsFree;
    forall i, j, p | 0 <= i < j < |log| && log[i] == Took(p) && log[j] == Took(p)
      ensures GivenBetween(log, i, j, p)
    {
      TraceProper(ls, calls, log, i);
      TraceProper(ls, calls, log, j);
      StaysTaken(ls, calls, log, p, i + 1, j);
    }
  }

  /** The guard of a call as its caller could check it, by reading the headers. */
  method MayCall(a: Allocator, c: Call) returns (ok: bool)
    requires a.Valid()
    modifies a`window
    ensures a.Valid() && (ok <==> !Stops(a.Content(), c))
  {
    Roots(a.Now(), a.rs, a.ps);
    match c
    case DoAlloc => ok := a.rootppg != NOPHYS || a.rootrgn != NOPHYS;
    case DoFree(p) =>
      if !PageOk(p) {
        return false;
      }
      var cp, prev, found;
      ghost var i;
      NoneEnds(a.Now(), a.rs, a.ps);
      cp, prev, i := a.FindRegion(p);
      found, prev, i := a.FindPage(p);
      ok := cp == NOPHYS && !found;
    case DoReserve(pg) =>
      if pg % PGLEN != 0 {
        return false;
      }
      ok := MayReserve(a, pg);
  }

  method MayReserve(a: Allocator, pg: int) returns (ok: bool)
    requires a.Valid() && pg % PGLEN == 0
    modifies a`window
    ensures a.Valid()
    ensures ok <==> !Stops(a.Content(), DoReserve(pg))
  {
    var cp, prev;
    ghost var i;
    cp, prev, i := a.FindRegion(pg);
    ok := true;
    NoneEnds(a.Now(), a.rs, a.ps);
    PlaceIs(a.rs, pg, i);
    if cp != NOPHYS {
      assert RegionLink(a.Now(), a.rs, i);
      NextNotEnd(a.rs, i, pg);
      ok := pg + PGLEN < cp + a.w1[cp] || a.w0[cp] == pg + PGLEN;
    }
  }

  lemma NextNotEnd(rs: seq<Region>, i: int, pg: int)
    requires Shapes(rs) && Hit(rs, i, pg)
    ensures pg + PGLEN != NOPHYS
  {
    assert RegionOk(rs[i]);
  }

  /** Any run of calls.  Each does exactly what it should to the lists: a free of a page that is not free gives it back,
      whoever had it, as the boot code does with pages it reserved; a reservation takes its page iff that is free.  The
      run ends early exactly at a call that `Stops`.  So no frame is handed out twice without being given back. */
  method RunCalls(a: Allocator, calls: seq<Call>) returns (ghost ls: seq<Lists>, ghost log: seq<Event>, done: nat)
    requires a.Valid()
    modifies a
    ensures a.Valid() && Trace(ls, calls, log) && done == |log|
    ensures ls[0] == old(a.Content()) && ls[done] == a.Content()
    ensures done < |calls| ==> Stops(ls[done], calls[done])
    ensures OnceEach(log)
  {
    done := 0;
    ls, log := [a.Content()], [];
    DescribesProper(a);
    while done < |calls|
      invariant 0 <= done <= |calls| && a.Valid() && done == |log|
      invariant Trace(ls, calls, log) && ls[0] == old(a.Content()) && ls[done] == a.Content()
    {
      hide Stops, Serve;
      ghost var ls0, log0 := ls, log;
      var ok := MayCall(a, calls[done]);
      if !ok {
        break;
      }
      ghost var e := Make(a, calls[done]);
      ls, log, done := ls + [a.Content()], log + [e], done + 1;
      forall i | 0 <= i < |log| ensures Served(ls, calls, log, i) {
        if i < |log0| { assert Served(ls0, calls, log0, i); }
      }
    }
    NeverHandedOutTwice(ls, calls, log);
  }

  lemma DescribesProper(a: Allocator)
    requires a.Valid()
    ensures Proper(a.Content())
  {
  }

  method Make(a: Allocator, c: Call) returns (ghost e: Event)
    requires a.Valid() && !Stops(a.Content(), c)
    modifies a
    ensures a.Valid() && !Stops(old(a.Content()), c) && (a.Content(), e) == Serve(old(a.Content()), c)
  {
    hide Serve, Describes;
    match c
    case DoAlloc =>
      var r := a.Alloc();
      e := Took(r.value);
    case DoFree(p) =>
      a.Free(p);
      e := Gave(p);
    case DoReserve(pg) =>
      var r;
      ghost var hit;
      r, hit := a.Reserve(pg);
      e := if r == 0 then Took(pg) else NotFree;
  }
}
