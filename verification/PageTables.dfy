/** The two-level page tables of src/mem/pgdir.c:22-109 as one flat map from page numbers to entries. */
module PageTables {
  import opened Basics

  const W32 := 0x1_0000_0000
  const SLOTS := 1024
  const USERBASE := 0x1000          // page 0 is never handed out
  const VIRT0 := 0xC000_0000        // where the kernel's half begins
  const SPG := 0xffbf_d000

  predicate PresentBit(e: int) {
    e % 2 == 1
  }

  /** The address part of an entry. */
  function AddrOf(e: int): int {
    e / PGLEN * PGLEN
  }

  predicate PageNo(v: int) {
    0 <= v < SLOTS * SLOTS
  }

  predicate WriteableBit(e: int) {
    e / 2 % 2 == 1
  }

  predicate UserBit(e: int) {
    e / 4 % 2 == 1
  }

  /** The PDE for a new page table: present, writeable, for users, and nothing else beside the frame. */
  function TableEntry(frame: int): (e: int)
    requires frame % PGLEN == 0
    ensures PresentBit(e) && WriteableBit(e) && UserBit(e) && AddrOf(e) == frame && e % PGLEN < 8
  {
    TableBits(frame / PGLEN);
    frame + 7
  }

  lemma TableBits(k: int)
    ensures var e := PGLEN * k + 7;
            e % 2 == 1 && e / 2 % 2 == 1 && e / 4 % 2 == 1 && e / PGLEN == k && e % PGLEN == 7
  {
    var e := PGLEN * k + 7;
    DivModIs(e, 2048 * k + 3, 1, 2);
    DivModIs(e / 2, 1024 * k + 1, 1, 2);
    DivModIs(e, 1024 * k + 1, 3, 4);
    DivModIs(e / 4, 512 * k, 1, 2);
    DivModIs(e, k, 7, PGLEN);
  }

  class Tables {
    var dir: seq<int>         // the page directory
    var pts: seq<seq<int>>    // what PT(i) shows while directory entry i is present

    constructor ()
      ensures Valid() && forall v :: PageNo(v) ==> Entry(v) == 0
    {
      dir, pts := seq(SLOTS, _ => 0), seq(SLOTS, _ => seq(SLOTS, _ => 0));
    }

    predicate Valid()
      reads this
    {
      |dir| == SLOTS && |pts| == SLOTS && forall i :: 0 <= i < SLOTS ==> |pts[i]| == SLOTS
    }

    /** The flat view. */
    function Entry(v: int): int
      requires Valid() && PageNo(v)
      reads this
    {
      if PresentBit(dir[v / SLOTS]) then pts[v / SLOTS][v % SLOTS] else 0
    }

    predicate Mapped(v: int)
      requires Valid() && PageNo(v)
      reads this
    {
      PresentBit(Entry(v))
    }

    /** `pgmap`; `frame` is the frame ppgalloc hands out if a page table is missing. */
    method Map(pg: int, page: int, frame: int)
      requires Valid() && 0 <= pg < W32 && frame % PGLEN == 0
      modifies this
      ensures Valid()
      ensures forall v :: PageNo(v) ==> Entry(v) == if v == pg / PGLEN then page else old(Entry(v))
      ensures forall i :: 0 <= i < SLOTS && i != pg / PGLEN / SLOTS ==> dir[i] == old(dir[i])
      // a table that exists is kept; a new one is in the frame handed out, present, writeable and for users
      ensures var i := pg / PGLEN / SLOTS;
              if old(PresentBit(dir[i])) then dir[i] == old(dir[i])
              else && PresentBit(dir[i]) && WriteableBit(dir[i]) && UserBit(dir[i])
                   && AddrOf(dir[i]) == frame && dir[i] % PGLEN < 8
    {
      var i, j := pg / PGLEN / SLOTS, pg / PGLEN % SLOTS;
      if !PresentBit(dir[i]) {
        dir := dir[i := TableEntry(frame)];
        pts := pts[i := seq(SLOTS, _ => 0)];
      }
      pts := pts[i := pts[i][j := page]];
    }

    /** `pgunmap`: clears one present entry and returns its address; the table goes when nothing is left in it,
        entries that are not present included. */
    method Unmap(pg: int) returns (p: int)
      requires Valid() && 0 <= pg < W32
      modifies this
      ensures Valid()
      ensures var n := pg / PGLEN;
              && p == (if old(Mapped(n)) then AddrOf(old(Entry(n))) else 0)
              && forall v :: PageNo(v) ==> Entry(v) == if v == n && old(Mapped(n)) then 0 else old(Entry(v))
      ensures forall i :: 0 <= i < SLOTS && i != pg / PGLEN / SLOTS ==> dir[i] == old(dir[i])
      ensures var i := pg / PGLEN / SLOTS;
              (old(PresentBit(dir[i])) ==>
                (PresentBit(dir[i]) <==> exists v :: PageNo(v) && v / SLOTS == i && Entry(v) != 0))
      // the directory entry goes as a whole or stays as it was
      ensures var i := pg / PGLEN / SLOTS;
              dir[i] == if old(PresentBit(dir[i])) && !PresentBit(dir[i]) then 0 else old(dir[i])
    {
      var i, j := pg / PGLEN / SLOTS, pg / PGLEN % SLOTS;
      p := 0;
      if PresentBit(dir[i]) {
        var pe := pts[i][j];
        if PresentBit(pe) {
          p := AddrOf(pe);
          pts := pts[i := pts[i][j := 0]];
        }
        var k := 0;
        while k < SLOTS
          invariant 0 <= k <= SLOTS && forall l :: 0 <= l < k ==> pts[i][l] == 0
        {
          if pts[i][k] != 0 {
            assert PageNo(i * SLOTS + k) && (i * SLOTS + k) / SLOTS == i && Entry(i * SLOTS + k) != 0;
            return;
          }
          k := k + 1;
        }
        forall v | PageNo(v) && v / SLOTS == i ensures Entry(v) == 0 {
          assert pts[i][v % SLOTS] == 0;
        }
        dir := dir[i := 0];
      }
    }

    /** No page that starts in the range is present. */
    ghost predicate Clear(s: int, end: int)
      requires Valid()
      reads this
    {
      forall v :: PageNo(v) && s <= v * PGLEN < end ==> !Mapped(v)
    }

    /** The whole range from `s` is free of present entries and ends below the limit. */
    ghost predicate Fits(s: int, len: int, limit: int)
      requires Valid()
      reads this
    {
      && 0 <= s && s % PGLEN == 0 && s + len < limit
      && Clear(s, s + len)
    }

    lemma ClearMore(s: int, q: int)
      requires Valid() && 0 <= q < W32 && q % PGLEN == 0 && Clear(s, q) && !Mapped(q / PGLEN)
      ensures Clear(s, q + PGLEN)
    {
      forall v | PageNo(v) && s <= v * PGLEN < q + PGLEN ensures !Mapped(v) {
        if v * PGLEN >= q {
          assert v == q / PGLEN;
        }
      }
    }

    lemma ClearPart(s: int, q: int, end: int)
      requires Valid() && Clear(s, q) && end <= q
      ensures Clear(s, end)
    {
    }

    lemma MappedIs(v: int)
      requires Valid() && PageNo(v)
      ensures Mapped(v) <==> PresentBit(dir[v / SLOTS]) && PresentBit(pts[v / SLOTS][v % SLOTS])
    {
    }

    lemma ClearNone(s: int)
      requires Valid()
      ensures Clear(s, s)
    {
    }

    /** One pass of the inner loop: the first present page of the range, if there is one. */
    method FirstMapped(i: int, j: int) returns (found: bool, q: int)
      requires Valid() && 0 <= i && i % PGLEN == 0 && j < W32
      ensures found ==> i <= q < j && q % PGLEN == 0 && Mapped(q / PGLEN)
      ensures !found ==> Clear(i, j)
    {
      hide Clear, PresentBit;
      q := i;
      ClearNone(i);
      while q < j
        invariant i <= q && q % PGLEN == 0
        invariant Clear(i, q)
        decreases j - q
      {
        var n := q / PGLEN;
        Slots(q);
        MappedIs(n);
        if PresentBit(dir[n / SLOTS]) {
          if PresentBit(pts[n / SLOTS][n % SLOTS]) {
            return true, q;
          }
        }
        ClearMore(i, q);
        q := NextPage(q);
      }
      ClearPart(i, q, j);
      found := false;
    }

    lemma Blocked(i: int, q: int, len: int, limit: int)
      requires Valid() && 0 <= i <= q < i + len && q < W32 && q % PGLEN == 0 && Mapped(q / PGLEN)
      ensures forall s :: i <= s < q + PGLEN ==> !Fits(s, len, limit)
    {
      forall s | i <= s < q + PGLEN ensures !Fits(s, len, limit) {
        if s % PGLEN == 0 {
          assert s <= q && PageNo(q / PGLEN) && q / PGLEN * PGLEN == q;
        }
      }
    }

    /** `pgfind`, with its 32-bit sum: nothing below the result fits; 0 means that nothing fits at all; any other
        result fits exactly if it ends below the limit, and if it does not, nothing fits.  It always does for a
        length that cannot carry the sum past 2^32. */
    method Find(len: int, user: bool) returns (r: int)
      requires Valid() && 0 <= len < W32
      ensures var base, limit := Base(user), Limit(user);
              && (r == 0 || (base <= r < limit && r % PGLEN == 0))
              && (forall s :: base <= s && (r == 0 || s < r) ==> !Fits(s, len, limit))
              && (r != 0 ==> (Fits(r, len, limit) <==> r + len < limit))
              && (r != 0 && len <= W32 - limit ==> r + len < limit)
              && (r != 0 && r + len >= limit ==> forall s :: base <= s ==> !Fits(s, len, limit))
    {
      var i, limit := Base(user), Limit(user);
      while i < limit
        invariant Base(user) <= i && i % PGLEN == 0
        invariant forall s :: Base(user) <= s < i ==> !Fits(s, len, limit)
        decreases limit - i
      {
        var j := (i + len) % W32;
        Wraps(i, len);
        if j >= limit {
          break;
        }
        var found, q := FirstMapped(i, j);
        if !found {
          return (j - len) % W32;
        }
        Blocked(i, q, len, limit);
        i := q + PGLEN;
      }
      return 0;
    }
  }

  function Base(user: bool): int {
    if user then USERBASE else VIRT0
  }

  function Limit(user: bool): int {
    if user then VIRT0 else SPG
  }

  function NextPage(q: int): (r: int)
    requires q % PGLEN == 0
    ensures r == q + PGLEN && r % PGLEN == 0
  {
    q + PGLEN
  }

  /** The two indices of an address. */
  lemma Slots(q: int)
    requires 0 <= q < W32
    ensures PageNo(q / PGLEN) && 0 <= q / PGLEN / SLOTS < SLOTS && 0 <= q / PGLEN % SLOTS < SLOTS
  {
  }

  lemma Wraps(i: int, len: int)
    requires 0 <= i < W32 && 0 <= len < W32
    ensures (i + len) % W32 == if i + len < W32 then i + len else i + len - W32
    ensures ((i + len) % W32 - len) % W32 == i
  {
  }
}
