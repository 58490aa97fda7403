/** The heap of src/mem/malloc.c as its callers see it: each of them owns the bytes it asked for, as if it had
  an array of its own.  `spec` is those arrays; the heap is the one of `Liballoc`. */
module HeapClients {
  import opened Basics
  import opened HeapLayout
  import opened Payloads
  import opened Liballoc

  /** Every owner has a block of its own, and the block holds what the owner's array holds. */
  ghost predicate Owned(heads: map<int, int>, blocks: map<int, seq<int>>, spec: map<int, seq<int>>) {
    && heads.Keys == spec.Keys
    && (forall s :: s in heads ==> heads[s] in blocks && blocks[heads[s]] == spec[s])
    && (forall s, t :: s in heads && t in heads && s != t ==> heads[s] != heads[t])
  }

  lemma OwnedAdd(heads: map<int, int>, blocks: map<int, seq<int>>, spec: map<int, seq<int>>,
                 blocks': map<int, seq<int>>, s: int, a: int)
    requires Owned(heads, blocks, spec) && a !in blocks && a in blocks' && blocks' - {a} == blocks && s !in heads
    ensures Owned(heads[s := a], blocks', spec[s := blocks'[a]])
  {
    forall t | t in heads ensures heads[t] in blocks' && blocks'[heads[t]] == spec[t] {
      assert (blocks' - {a})[heads[t]] == spec[t];
    }
  }

  lemma OwnedRemove(heads: map<int, int>, blocks: map<int, seq<int>>, spec: map<int, seq<int>>,
                    blocks': map<int, seq<int>>, s: int)
    requires Owned(heads, blocks, spec) && s in heads && blocks' == blocks - {heads[s]}
    ensures Owned(heads - {s}, blocks', spec - {s})
  {
  }

  lemma OwnedUpdate(heads: map<int, int>, blocks: map<int, seq<int>>, spec: map<int, seq<int>>,
                    blocks': map<int, seq<int>>, s: int)
    requires Owned(heads, blocks, spec) && s in heads && heads[s] in blocks'
    requires blocks' - {heads[s]} == blocks - {heads[s]}
    ensures Owned(heads, blocks', spec[s := blocks'[heads[s]]])
  {
    var a := heads[s];
    forall t | t in heads && t != s ensures heads[t] in blocks' && blocks'[heads[t]] == spec[t] {
      assert heads[t] in blocks - {a};
      assert (blocks' - {a})[heads[t]] == (blocks - {a})[heads[t]];
    }
  }

  lemma OwnedMove(heads: map<int, int>, blocks: map<int, seq<int>>, spec: map<int, seq<int>>,
                  blocks': map<int, seq<int>>, s: int, b: int)
    requires Owned(heads, blocks, spec) && s in heads && b in blocks' && b !in blocks
    requires blocks' - {b} == blocks - {heads[s]}
    ensures Owned(heads[s := b], blocks', spec[s := blocks'[b]])
  {
    var a := heads[s];
    forall t | t in heads && t != s ensures heads[t] in blocks' && blocks'[heads[t]] == spec[t] {
      assert heads[t] in blocks - {a};
      assert (blocks' - {b})[heads[t]] == (blocks - {a})[heads[t]];
    }
  }

  lemma NewBlock(minors: map<int, Minor>, mem: map<int, int>, minors': map<int, Minor>, mem': map<int, int>, a: int,
      n: nat)
    requires Added(minors, mem, minors', mem', a, n)
    ensures a !in Blocks(minors, mem) && a in Blocks(minors', mem')
        && Blocks(minors', mem') - {a} == Blocks(minors, mem)
    ensures |Blocks(minors', mem')[a]| == n
  {
  }

  lemma SameKeys(heads: map<int, int>, blocks: map<int, seq<int>>, spec: map<int, seq<int>>)
    requires Owned(heads, blocks, spec)
    ensures heads.Keys == spec.Keys
  {
  }

  /** A request for `n` bytes cannot be met: no gap of any major takes it, and the page source answers null. */
  ghost predicate Refused(view: Shape, n: nat, grant: int) {
    grant == 0 && Layout(view) && NoRoom(view, n + SLACK + MINOR_HEADER)
  }

  ghost predicate SizesOk(sizes: map<int, int>, spec: map<int, seq<int>>) {
    sizes.Keys == spec.Keys && forall s :: s in sizes ==> sizes[s] == |spec[s]|
  }

  lemma SizesSet(sizes: map<int, int>, spec: map<int, seq<int>>, s: int, xs: seq<int>)
    requires SizesOk(sizes, spec)
    ensures SizesOk(sizes[s := |xs|], spec[s := xs]) && SizesOk(sizes - {s}, spec - {s})
    ensures s in spec && |xs| == |spec[s]| ==> SizesOk(sizes, spec[s := xs])
  {
  }

  // ------------------------------------------------------------ the account of bytes in use

  /** What the heap has given away for these requests. */
  ghost function Taken(given: map<int, int>): int {
    if given.Keys == {} then 0 else var s := Pick(given.Keys); given[s] + SLACK + Taken(given - {s})
  }

  lemma {:induction false} TakenDrop(given: map<int, int>, s: int)
    requires s in given
    ensures Taken(given) == given[s] + SLACK + Taken(given - {s})
    decreases |given|
  {
    var t := Pick(given.Keys);
    if t != s {
      TakenDrop(given - {t}, s);
      TakenDrop(given - {s}, t);
      assert given - {t} - {s} == given - {s} - {t};
    }
  }

  lemma TakenSet(given: map<int, int>, s: int, n: int)
    requires s !in given
    ensures Taken(given[s := n]) == Taken(given) + n + SLACK
  {
    TakenDrop(given[s := n], s);
    assert given[s := n] - {s} == given;
  }

  lemma TakenMove(given: map<int, int>, s: int, n: int)
    requires s in given
    ensures Taken(given[s := n]) == Taken(given) + n - given[s]
  {
    TakenDrop(given, s);
    TakenDrop(given[s := n], s);
    assert given[s := n] - {s} == given - {s};
  }

  /** Every block takes up what its owner asked for when it was allocated, and the slack. */
  ghost predicate Fitted(heads: map<int, int>, minors: map<int, Minor>, given: map<int, int>) {
    && given.Keys == heads.Keys
    && forall s :: s in heads ==> heads[s] in minors && minors[heads[s]].size == given[s] + SLACK
  }

  lemma FittedKept(
      heads: map<int, int>, minors: map<int, Minor>, given: map<int, int>, minors': map<int, Minor>, s: int)
    requires Fitted(heads, minors, given) && s in heads
    requires forall t :: t in heads && t != s ==> heads[t] != heads[s]
    requires forall b :: b in minors && b != heads[s] ==> b in minors' && minors'[b].size == minors[b].size
    ensures Fitted(heads - {s}, minors', given - {s})
  {
  }

  lemma FittedAdd(heads: map<int, int>, minors: map<int, Minor>, given: map<int, int>, minors': map<int, Minor>,
                  s: int, a: int, n: int)
    requires Fitted(heads, minors, given)
    requires forall b :: b in minors ==> b in minors' && minors'[b].size == minors[b].size
    requires a in minors' && minors'[a].size == n + SLACK
    ensures Fitted(heads[s := a], minors', given[s := n])
  {
    var heads', given' := heads[s := a], given[s := n];
    assert given'.Keys == heads'.Keys;
    forall t | t in heads' ensures heads'[t] in minors' && minors'[heads'[t]].size == given'[t] + SLACK {
      var b := heads'[t];
      assert t != s ==> t in heads && b in minors;
    }
  }

  lemma FittedMove(heads: map<int, int>, minors: map<int, Minor>, given: map<int, int>, minors': map<int, Minor>,
                   s: int, b: int, n: int)
    requires Fitted(heads, minors, given) && s in heads
    requires forall t :: t in heads && t != s ==> heads[t] != heads[s]
    requires forall c :: c in minors && c != heads[s] ==> c in minors' && minors'[c].size == minors[c].size
    requires b in minors' && minors'[b].size == n + SLACK
    ensures Fitted(heads[s := b], minors', given[s := n])
  {
  }

  lemma FittedShrunk(heads: map<int, int>, minors: map<int, Minor>, given: map<int, int>, a: int, n: nat)
    requires Fitted(heads, minors, given) && a in minors
    ensures Fitted(heads, minors[a := minors[a].(req := n)], given)
  {
  }

  lemma OwnHead(heads: map<int, int>, blocks: map<int, seq<int>>, spec: map<int, seq<int>>, s: int)
    requires Owned(heads, blocks, spec) && s in heads
    ensures forall t :: t in heads && t != s ==> heads[t] != heads[s]
  {
  }

  lemma AddedSizes(minors: map<int, Minor>, mem: map<int, int>, minors': map<int, Minor>, mem': map<int, int>, a: int,
      n: nat)
    requires Added(minors, mem, minors', mem', a, n)
    ensures a in minors' && minors'[a].size == n + SLACK
    ensures forall b :: b in minors ==> b in minors' && minors'[b].size == minors[b].size
  {
  }

  lemma GoneSizes(minors: map<int, Minor>, minors': map<int, Minor>, mem: map<int, int>, a: int)
    requires Gone(minors, minors', mem, a)
    ensures a in minors && forall b :: b in minors && b != a ==> b in minors' && minors'[b].size == minors[b].size
  {
  }

  lemma GrownSizes(minors: map<int, Minor>, mem: map<int, int>, minors': map<int, Minor>, mem': map<int, int>,
                   a: int, b: int, n: nat)
    requires Grown(minors, mem, minors', mem', a, b, n)
    ensures b in minors' && minors'[b].size == n + SLACK && a in minors && a != b
    ensures forall c :: c in minors && c != a ==> c in minors' && minors'[c].size == minors[c].size
  {
  }

  lemma FittedKeys(heads: map<int, int>, minors: map<int, Minor>, given: map<int, int>)
    requires Fitted(heads, minors, given)
    ensures given.Keys == heads.Keys
    ensures forall s :: s in heads ==> heads[s] in minors && minors[heads[s]].size == given[s] + SLACK
  {
  }

  /** Every owner holds the pointer to its block. */
  ghost predicate Points(ptrs: map<int, int>, heads: map<int, int>) {
    ptrs.Keys == heads.Keys && forall s :: s in ptrs ==> ptrs[s] == Pointer(heads[s])
  }

  lemma PointsSet(ptrs: map<int, int>, heads: map<int, int>, s: int, a: int)
    requires Points(ptrs, heads)
    ensures Points(ptrs[s := Pointer(a)], heads[s := a]) && Points(ptrs - {s}, heads - {s})
    ensures ptrs.Keys == heads.Keys
  {
  }

  /** The callers of one heap; owner `s` holds pointer `ptrs[s]` and knows its size. */
  class Owners {
    const heap: Heap
    var ptrs: map<int, int>
    var sizes: map<int, int>   // what each owner last asked for
    ghost var heads: map<int, int>
    ghost var spec: map<int, seq<int>>
    ghost var given: map<int, int>   // what each owner's block was allocated for
    ghost const others: int          // bytes in use by nobody of these owners

    constructor (h: Heap)
      requires h.Valid()
      ensures Valid() && heap == h && spec == map[] && given == map[] && others == h.inuse
    {
      hide Agree, NoneEmpty, Blocks, Pointer;
      heap, ptrs, sizes, heads, spec := h, map[], map[], map[], map[];
      given, others := map[], h.inuse;
    }

    ghost predicate Valid()
      reads this, heap
    {
      && heap.Valid()
      && Points(ptrs, heads)
      && Owned(heads, heap.Contents(), spec)
      && SizesOk(sizes, spec)
      && Fitted(heads, heap.minors, given)
      && heap.inuse == others + Taken(given)
    }

    /** The pointer an owner holds is live, and its block is the owner's array. */
    lemma HoldsLive(s: int)
      requires Valid() && s in ptrs
      ensures ptrs[s] != 0 && heap.Live(ptrs[s]) && HeaderOf(heap.mem, ptrs[s]) == heads[s]
      ensures heads[s] in heap.minors && heap.minors[heads[s]].req == |spec[s]|
    {
      hide Layout, Capacity, InUse, NoneEmpty, Pointer, HeaderOf;
      var a := heads[s];
      AgreeLayout(heap.View(), heap.mem, heap.bestBet, heap.held, heap.inuse);
      UnalignRecovers(heap.minors, heap.mem, a);
      LiveNonNull(heap.View(), a);
    }

    /** An allocation: the new owner's array has the size asked for, everybody else's is untouched; it is refused
        exactly if no gap takes it and the page source answers null. */
    method Allocate(s: int, n: nat, grant: int) returns (ok: bool)
      requires Valid() && s !in ptrs && Small(n)
      requires grant == 0 || FreshBlock(heap.majors, grant, PagesFor(n + SLACK))
      modifies this, heap
      ensures Valid()
      ensures ok <==> !Refused(old(heap.View()), n, grant)
      ensures ok ==> s in spec && |spec[s]| == n && spec == old(spec)[s := spec[s]]
      ensures !ok ==> spec == old(spec) && ptrs == old(ptrs)
      ensures given == if ok then old(given)[s := n] else old(given)
    {
      hide Agree, NoneEmpty, Pointer, HeaderOf, Layout, FreshBlock, PagesFor, NoRoom, Added, Blocks, Owned, SizesOk,
           FirstFit, FreeOf, Fitted, Taken, Stamped, Unalign;
      ghost var minors, mem, blocks := heap.minors, heap.mem, heap.Contents();
      var p, asked;
      ghost var at, k;
      p, asked, at, k := heap.Malloc(n, grant);
      ok := p != 0;
      if ok {
        NewBlock(minors, mem, heap.minors, heap.mem, HeaderOf(heap.mem, p), n);
        AddedSizes(minors, mem, heap.minors, heap.mem, HeaderOf(heap.mem, p), n);
        Take(s, n, p, HeaderOf(heap.mem, p), minors, blocks);
      }
    }

    /** The new block at header `a` is the array of `s`. */
    method Take(s: int, n: nat, p: int, ghost a: int, ghost minors: map<int, Minor>, ghost blocks: map<int, seq<int>>)
      requires heap.Valid() && Records(blocks) && s !in ptrs && p == Pointer(a)
      requires a !in blocks && a in heap.Contents() && heap.Contents() - {a} == blocks && |heap.Contents()[a]| == n
      requires Fitted(heads, minors, given) && heap.inuse == others + Taken(given) + n + SLACK
      requires a in heap.minors && heap.minors[a].size == n + SLACK
      requires forall b :: b in minors ==> b in heap.minors && heap.minors[b].size == minors[b].size
      modifies this
      ensures Valid() && s in spec && |spec[s]| == n && spec == old(spec)[s := spec[s]] && given == old(given)[s := n]
    {
      hide Owned, SizesOk, Blocks, Pointer, Points, Agree, NoneEmpty, Fitted, Taken;
      PointsSet(ptrs, heads, s, a);
      SameKeys(heads, blocks, spec);
      OwnedAdd(heads, blocks, spec, heap.Contents(), s, a);
      SizesSet(sizes, spec, s, heap.Contents()[a]);
      FittedAdd(heads, minors, given, heap.minors, s, a, n);
      FittedKeys(heads, minors, given);
      TakenSet(given, s, n);
      ptrs, sizes, heads, spec := ptrs[s := p], sizes[s := n], heads[s := a], spec[s := heap.Contents()[a]];
      given := given[s := n];
    }

    /** A release takes away exactly its owner's array. */
    method Release(s: int)
      requires Valid() && s in ptrs
      modifies this, heap
      ensures Valid() && spec == old(spec) - {s} && ptrs == old(ptrs) - {s} && given == old(given) - {s}
    {
      hide Agree, NoneEmpty, Pointer, HeaderOf, Layout, OnlyOne, Owned, SizesOk, Blocks, Gone, FreeOf, Fitted, Taken;
      HoldsLive(s);
      SameKeys(heads, heap.Contents(), spec);
      FittedKeys(heads, heap.minors, given);
      ghost var minors, blocks := heap.minors, heap.Contents();
      var _ := heap.Free(ptrs[s]);
      GoneBlocks(minors, heap.minors, heap.mem, heap.mem, heads[s]);
      OwnHead(heads, blocks, spec, s);
      GoneSizes(minors, heap.minors, heap.mem, heads[s]);
      FittedKept(heads, minors, given, heap.minors, s);
      Drop(s, blocks);
    }

    /** A store changes one element of its owner's array. */
    method Put(s: int, k: nat, v: int)
      requires Valid() && s in ptrs && k < |spec[s]|
      modifies this, heap
      ensures Valid() && ptrs == old(ptrs) && s in old(spec) && k < |old(spec)[s]|
      ensures spec == old(spec)[s := old(spec)[s][k := v]] && given == old(given)
    {
      hide Agree, NoneEmpty, Pointer, HeaderOf, Layout, Owned, SizesOk, Blocks, Fitted, Taken;
      HoldsLive(s);
      SameKeys(heads, heap.Contents(), spec);
      HeldBlock(heads, heap.Contents(), spec, s);
      OwnersKnown();
      ghost var blocks := heap.Contents();
      heap.Store(ptrs[s], k, v);
      assert heap.Contents() - {heads[s]} == blocks - {heads[s]};
      Keep(s, sizes[s], blocks);
    }

    /** The owners' own records, against the blocks the heap held before a call. */
    ghost predicate Records(blocks: map<int, seq<int>>)
      reads this
    {
      && Points(ptrs, heads)
      && Owned(heads, blocks, spec) && SizesOk(sizes, spec)
    }

    /** The block of `s` is gone. */
    method Drop(s: int, ghost blocks: map<int, seq<int>>)
      requires heap.Valid() && Records(blocks) && s in heads && heap.Contents() == blocks - {heads[s]}
      requires s in given && Fitted(heads - {s}, heap.minors, given - {s})
      requires heap.inuse == others + Taken(given) - given[s] - SLACK
      modifies this
      ensures Valid() && spec == old(spec) - {s} && ptrs == old(ptrs) - {s} && given == old(given) - {s}
    {
      hide Owned, SizesOk, Blocks, Pointer, Points, Agree, NoneEmpty, Fitted, Taken;
      PointsSet(ptrs, heads, s, 0);
      TakenDrop(given, s);
      OwnedRemove(heads, blocks, spec, heap.Contents(), s);
      SizesSet(sizes, spec, s, []);
      ptrs, sizes, heads, spec, given := ptrs - {s}, sizes - {s}, heads - {s}, spec - {s}, given - {s};
    }

    /** The block of `s` is at the same place with other contents. */
    method Keep(s: int, n: nat, ghost blocks: map<int, seq<int>>)
      requires heap.Valid() && Records(blocks) && s in heads && heads[s] in heap.Contents()
      requires heap.Contents() - {heads[s]} == blocks - {heads[s]} && n == |heap.Contents()[heads[s]]|
      requires Fitted(heads, heap.minors, given) && heap.inuse == others + Taken(given)
      modifies this
      ensures Valid() && spec == old(spec)[s := heap.Contents()[old(heads)[s]]] && ptrs == old(ptrs)
      ensures given == old(given)
    {
      hide Owned, SizesOk, Blocks, Pointer, Points, Agree, NoneEmpty, Fitted, Taken;
      OwnedUpdate(heads, blocks, spec, heap.Contents(), s);
      SizesSet(sizes, spec, s, heap.Contents()[heads[s]]);
      sizes, spec := sizes[s := n], spec[s := heap.Contents()[heads[s]]];
    }

    /** The block of `s` is at header `b` now. */
    method Follow(s: int, n: nat, r: int, ghost b: int, ghost blocks: map<int, seq<int>>)
      requires heap.Valid() && Records(blocks) && s in heads && b in heap.Contents() && b !in blocks && r == Pointer(b)
      requires heap.Contents() - {b} == blocks - {heads[s]} && n == |heap.Contents()[b]|
      requires s in given && Fitted(heads[s := b], heap.minors, given[s := n])
      requires heap.inuse == others + Taken(given) + n - given[s]
      modifies this
      ensures Valid() && spec == old(spec)[s := heap.Contents()[b]] && given == old(given)[s := n]
    {
      hide Owned, SizesOk, Blocks, Pointer, Points, Agree, NoneEmpty, Fitted, Taken;
      PointsSet(ptrs, heads, s, b);
      TakenMove(given, s, n);
      OwnedMove(heads, blocks, spec, heap.Contents(), s, b);
      SizesSet(sizes, spec, s, heap.Contents()[b]);
      ptrs, sizes, heads, spec := ptrs[s := r], sizes[s := n], heads[s := b], spec[s := heap.Contents()[b]];
      given := given[s := n];
    }

    /** A resize to `n` bytes: 0 releases; shrinking keeps the pointer and the front of the array; growing keeps the
        whole old array as the front of the new one.  A growth that is refused releases an empty array, and faults
        otherwise. */
    method Resize(s: int, n: nat, grant: int) returns (fault: bool)
      requires Valid() && s in ptrs && Small(n)
      requires grant == 0 || FreshBlock(heap.majors, grant, PagesFor(n + SLACK))
      modifies this, heap
      ensures Valid() && s in old(spec)
      ensures fault <==> n > |old(spec)[s]| > 0 && Refused(old(heap.View()), n, grant)
      ensures if fault then spec == old(spec) && heap.View() == old(heap.View()) && heap.inuse == old(heap.inuse)
              else Resized(old(spec), spec, s, n, Refused(old(heap.View()), n, grant))
      ensures given == if fault then old(given)
                       else GivenAfter(old(given), |old(spec)[s]|, s, n, Refused(old(heap.View()), n, grant))
    {
      hide Agree, NoneEmpty, Pointer, HeaderOf, Layout, FreshBlock, PagesFor, NoRoom, Owned, Blocks, Stamped, Gone,
           Grown, Added, SizesOk, Fitted, Taken;
      HoldsLive(s);
      OwnersKnown();
      FittedKeys(heads, heap.minors, given);
      OwnHead(heads, heap.Contents(), spec, s);
      SameKeys(heads, heap.Contents(), spec);
      ghost var minors, mem, blocks, a := heap.minors, heap.mem, heap.Contents(), heads[s];
      HeldBlock(heads, blocks, spec, s);
      var r, asked, released;
      r, asked, fault, released := heap.Realloc(ptrs[s], n, grant);
      if fault {
        return;
      }
      if r == 0 {
        GoneBlocks(minors, heap.minors, mem, heap.mem, a);
        GoneSizes(minors, heap.minors, heap.mem, a);
        FittedKept(heads, minors, given, heap.minors, s);
        Drop(s, blocks);
      } else if n <= sizes[s] {
        ShrunkBlocks(minors, mem, a, n);
        FittedShrunk(heads, minors, given, a, n);
        Keep(s, n, blocks);
      } else {
        ghost var b := HeaderOf(heap.mem, r);
        GrownBlocks(minors, mem, heap.minors, heap.mem, a, b, n);
        GrownSizes(minors, mem, heap.minors, heap.mem, a, b, n);
        FittedMove(heads, minors, given, heap.minors, s, b, n);
        Follow(s, n, r, b, blocks);
      }
    }

    /** Any run of calls, with any answers of the page source, one for each call in case it asks: each call changes the
        array of its own owner as it should and nobody else's, and is refused exactly if no gap takes it and the answer
        is null.  A call that its owner is in no position to make is not made; the run ends early exactly with the fault
        of a refused growth. */
    method Run(calls: seq<Call>, answers: seq<int>) returns (ghost trace: seq<Moment>, done: nat)
      requires Valid() && |answers| == |calls|
      modifies this, heap
      ensures Valid() && done <= |calls| && |trace| == done + 1
      ensures trace[0] == old(Here()) && trace[done] == Here()
      ensures forall i :: 0 <= i < done ==> Follows(trace[i], calls[i], answers[i], trace[i + 1].spec)
      ensures forall i :: 0 <= i < done ==> trace[i + 1].given == Gives(trace[i], calls[i], answers[i])
      ensures forall i :: 0 <= i <= done ==> trace[i].inuse == others + Taken(trace[i].given)
      ensures forall i :: 0 <= i < done ==> !Faults(trace[i], calls[i], answers[i])
      ensures done < |calls| ==> Faults(trace[done], calls[done], answers[done])
    {
      hide Valid, Follows, Faults, Gives, Taken;
      trace, done := [Here()], 0;
      Account();
      while done < |calls|
        invariant Valid() && done <= |calls| && |trace| == done + 1
        invariant trace[0] == old(Here()) && trace[done] == Here()
        invariant forall i :: 0 <= i < done ==> Follows(trace[i], calls[i], answers[i], trace[i + 1].spec)
        invariant forall i :: 0 <= i < done ==> trace[i + 1].given == Gives(trace[i], calls[i], answers[i])
        invariant forall i :: 0 <= i <= done ==> trace[i].inuse == others + Taken(trace[i].given)
        invariant forall i :: 0 <= i < done ==> !Faults(trace[i], calls[i], answers[i])
      {
        ghost var was := Here();
        var fault := Make(calls[done], answers[done]);
        if fault {
          return;
        }
        assert Follows(was, calls[done], answers[done], spec) && !Faults(was, calls[done], answers[done]);
        Account();
        trace := trace + [Here()];
        done := done + 1;
      }
    }

    ghost function Here(): Moment
      reads this, heap
    {
      Moment(spec, heap.View(), given, heap.inuse)
    }

    lemma Account()
      requires Valid()
      ensures heap.inuse == others + Taken(given)
    {
    }

    /** One call of a run. */
    method Make(c: Call, answer: int) returns (fault: bool)
      requires Valid()
      modifies this, heap
      ensures Valid() && fault == Faults(old(Here()), c, answer)
      ensures if fault then Here() == old(Here())
              else Follows(old(Here()), c, answer, spec) && given == Gives(old(Here()), c, answer)
    {
      hide Valid, Resized, FreshBlock, PagesFor, Refused, GivenAfter;
      KnownOwners();
      fault := false;
      match c
      case DoAllocate(s, n) =>
        if s !in ptrs && Small(n) {
          var grant := Honoured(heap.majors, answer, n);
          var _ := Allocate(s, n, grant);
        }
      case DoRelease(s) =>
        if s in ptrs {
          Release(s);
        }
      case DoPut(s, k, v) =>
        if s in ptrs && k < sizes[s] {
          Put(s, k, v);
        }
      case DoResize(s, n) =>
        if s in ptrs && Small(n) {
          var grant := Honoured(heap.majors, answer, n);
          fault := Resize(s, n, grant);
        }
    }

    lemma KnownOwners()
      requires Valid()
      ensures ptrs.Keys == spec.Keys == sizes.Keys && forall s :: s in sizes ==> sizes[s] == |spec[s]|
      ensures given.Keys == ptrs.Keys
    {
      OwnersKnown();
    }

    lemma OwnersKnown()
      requires SizesOk(sizes, spec) && ptrs.Keys == heads.Keys && Owned(heads, heap.Contents(), spec)
      ensures ptrs.Keys == spec.Keys == sizes.Keys && forall s :: s in sizes ==> sizes[s] == |spec[s]|
    {
    }
  }

  datatype Call =
    | DoAllocate(s: int, n: nat)
    | DoRelease(s: int)
    | DoPut(s: int, k: nat, v: int)
    | DoResize(s: int, n: nat)

  /** The owners' arrays, the heap's headers, what the blocks were allocated for and the heap's own account of the
      bytes in use, at one point of a run. */
  datatype Moment = Moment(spec: map<int, seq<int>>, view: Shape, given: map<int, int>, inuse: int)

  /** The page source hands out fresh blocks or null; an answer that is neither counts as null. */
  function Honoured(majors: map<int, Major>, answer: int, n: nat): int {
    if FreshBlock(majors, answer, PagesFor(n + SLACK)) then answer else 0
  }

  ghost predicate Refuses(m: Moment, n: nat, answer: int) {
    Refused(m.view, n, Honoured(m.view.majors, answer, n))
  }

  /** The call is a growth of an array with something in it, and is refused. */
  ghost predicate Faults(m: Moment, c: Call, answer: int) {
    c.DoResize? && c.s in m.spec && Small(c.n) && c.n > |m.spec[c.s]| > 0 && Refuses(m, c.n, answer)
  }

  /** What the blocks are allocated for after a call: a block that shrinks keeps its size. */
  ghost function Gives(m: Moment, c: Call, answer: int): map<int, int> {
    match c
    case DoAllocate(s, n) => if s in m.spec || !Small(n) || Refuses(m, n, answer) then m.given else m.given[s := n]
    case DoRelease(s) => m.given - {s}
    case DoPut(_, _, _) => m.given
    case DoResize(s, n) =>
      if s in m.spec && Small(n) then GivenAfter(m.given, |m.spec[s]|, s, n, Refuses(m, n, answer)) else m.given
  }

  ghost function GivenAfter(given: map<int, int>, was: nat, s: int, n: nat, refused: bool): map<int, int> {
    if n == 0 || (n > was && refused) then given - {s} else if n <= was then given else given[s := n]
  }

  /** What a call does to the private arrays; what was never stored is arbitrary. */
  ghost predicate Follows(m: Moment, c: Call, answer: int, spec': map<int, seq<int>>) {
    match c
    case DoAllocate(s, n) =>
      if s in m.spec || !Small(n) || Refuses(m, n, answer) then spec' == m.spec
      else s in spec' && |spec'[s]| == n && spec' == m.spec[s := spec'[s]]
    case DoRelease(s) => spec' == m.spec - {s}
    case DoPut(s, k, v) => spec' == if s in m.spec && k < |m.spec[s]| then m.spec[s := m.spec[s][k := v]] else m.spec
    case DoResize(s, n) =>
      if s in m.spec && Small(n) then Resized(m.spec, spec', s, n, Refuses(m, n, answer)) else spec' == m.spec
  }

  ghost predicate Resized(spec: map<int, seq<int>>, spec': map<int, seq<int>>, s: int, n: nat, refused: bool)
    requires s in spec
  {
    var was := spec[s];
    if n == 0 then spec' == spec - {s}
    else if n <= |was| then spec' == spec[s := was[..n]]
    else if refused then spec' == spec - {s}
    else s in spec' && spec' == spec[s := spec'[s]] && |spec'[s]| == n && was <= spec'[s]
  }

  lemma HeldBlock(heads: map<int, int>, blocks: map<int, seq<int>>, spec: map<int, seq<int>>, s: int)
    requires Owned(heads, blocks, spec) && s in spec
    ensures s in heads && heads[s] in blocks && blocks[heads[s]] == spec[s]
  {
  }

  lemma GoneBlocks(minors: map<int, Minor>, minors': map<int, Minor>, mem: map<int, int>, mem': map<int, int>, a: int)
    requires Gone(minors, minors', mem', a) && Blocks(minors, mem') == Blocks(minors, mem)
    ensures Blocks(minors', mem') == Blocks(minors, mem) - {a}
  {
  }

  lemma ShrunkBlocks(minors: map<int, Minor>, mem: map<int, int>, a: int, n: nat)
    requires a in minors && n <= minors[a].req
    ensures var b, b' := Blocks(minors, mem), Blocks(minors[a := minors[a].(req := n)], mem);
            a in b && a in b' && b' - {a} == b - {a} && b'[a] == b[a][..n]
  {
  }

  lemma GrownBlocks(minors: map<int, Minor>, mem: map<int, int>, minors': map<int, Minor>, mem': map<int, int>,
                    a: int, b: int, n: nat)
    requires Grown(minors, mem, minors', mem', a, b, n)
    ensures var f, f' := Blocks(minors, mem), Blocks(minors', mem');
            a in f && b in f' && b !in f && f' - {b} == f - {a} && |f'[b]| == n && f[a] <= f'[b]
  {
  }
}
