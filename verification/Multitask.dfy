/** src/multitask.c with its links: the ring through `next`, the waiter chains through `bnext`,
  and the critical sections that edit them.  Each method is tied to one step of `Ring`. */
module Multitask {
  import opened Basics
  import opened Semaphores
  import opened Ring

  /** The null pointer, for processes and for semaphores. */
  const NIL := -1

  datatype Proc = Proc(next: int, bnext: int, blocked: int, blockedn: int, blocked2: int)
  datatype SemRec = SemRec(sem: int, waiter: int)

  ghost predicate RingNode(procs: map<int, Proc>, ring: seq<int>, i: int)
    requires 0 <= i < |ring|
  {
    ring[i] in procs && procs[ring[i]].next == if i + 1 == |ring| then ring[0] else ring[i + 1]
  }

  /** `ring` is a cycle of `next` links. */
  ghost predicate RingList(procs: map<int, Proc>, ring: seq<int>) {
    forall i :: 0 <= i < |ring| ==> RingNode(procs, ring, i)
  }

  ghost predicate ChainNode(procs: map<int, Proc>, s: int, chain: seq<int>, i: int)
    requires 0 <= i < |chain|
  {
    && chain[i] in procs && chain[i] != NIL
    && procs[chain[i]].bnext == Nth(chain, i + 1, NIL)
    && procs[chain[i]].blocked == s && procs[chain[i]].blocked2 == NIL
  }

  ghost predicate ChainList(procs: map<int, Proc>, s: int, waiter: int, chain: seq<int>) {
    && waiter == Nth(chain, 0, NIL)
    && forall i :: 0 <= i < |chain| ==> ChainNode(procs, s, chain, i)
  }

  ghost function Waiters(procs: map<int, Proc>, chain: seq<int>): (r: seq<Waiter>)
    ensures |r| == |chain|
  {
    seq(|chain|, i requires 0 <= i < |chain| =>
          Waiter(chain[i], if chain[i] in procs then procs[chain[i]].blockedn else 0))
  }

  /** The value state that a set of links stands for, with the current process on the ring. */
  ghost function ViewOf(procs: map<int, Proc>, sems: map<int, SemRec>, ring: seq<int>,
      chains: map<int, seq<int>>): Sched
    requires sems.Keys == chains.Keys
  {
    Sched(ring, OnRing, map s | s in sems :: Sem(sems[s].sem, Waiters(procs, chains[s])))
  }

  ghost predicate Threads(cur: int, procs: map<int, Proc>, sems: map<int, SemRec>, ring: seq<int>,
      chains: map<int, seq<int>>) {
    && ring != [] && ring[0] == cur && Distinct(ring) && NULLPROC in ring
    && RingList(procs, ring)
    && sems.Keys == chains.Keys && NIL !in sems
    && (forall s :: s in sems ==> Distinct(chains[s]) && ChainList(procs, s, sems[s].waiter, chains[s]))
    && (forall i :: 0 <= i < |ring| ==> Ready(procs, ring[i]))
  }

  ghost predicate Ready(procs: map<int, Proc>, p: int) {
    p in procs && p != NIL && procs[p].blocked == NIL && procs[p].blocked2 == NIL
  }

  // ---------------------------------------------------------------- editing the ring

  lemma Turned(procs: map<int, Proc>, ring: seq<int>)
    requires RingList(procs, ring) && ring != []
    ensures RingList(procs, ring[1..] + [ring[0]])
  {
    var ring' := ring[1..] + [ring[0]];
    forall i | 0 <= i < |ring'| ensures RingNode(procs, ring', i) {
      assert RingNode(procs, ring, if i + 1 == |ring| then 0 else i + 1);
    }
  }

  /** The predecessor of the first process is made to skip it. */
  lemma Unhooked(procs: map<int, Proc>, ring: seq<int>)
    requires RingList(procs, ring) && |ring| > 1 && Distinct(ring)
    ensures ring[0] in procs && ring[|ring| - 1] in procs && procs[ring[0]].next == ring[1]
    ensures var last := ring[|ring| - 1];
      RingList(procs[last := procs[last].(next := procs[ring[0]].next)], ring[1..])
  {
    var last := ring[|ring| - 1];
    assert RingNode(procs, ring, 0) && RingNode(procs, ring, |ring| - 1);
    var procs', ring' := procs[last := procs[last].(next := procs[ring[0]].next)], ring[1..];
    forall i | 0 <= i < |ring'| ensures RingNode(procs', ring', i) {
      assert RingNode(procs, ring, i + 1);
    }
  }

  /** A process is put between the last and the first one. */
  lemma HookedLast(procs: map<int, Proc>, ring: seq<int>, w: int)
    requires RingList(procs, ring) && ring != [] && Distinct(ring) && w !in ring && w in procs
    ensures ring[|ring| - 1] in procs
    ensures var last := ring[|ring| - 1]; var p1 := procs[w := procs[w].(next := ring[0])];
      RingList(p1[last := p1[last].(next := w)], ring + [w])
  {
    var last := ring[|ring| - 1];
    assert RingNode(procs, ring, |ring| - 1);
    var p1 := procs[w := procs[w].(next := ring[0])];
    var procs', ring' := p1[last := p1[last].(next := w)], ring + [w];
    assert last in ring;
    forall i | 0 <= i < |ring'| ensures RingNode(procs', ring', i) {
      if i < |ring| {
        assert RingNode(procs, ring, i);
        var p := ring[i];
        assert p in ring;
      }
    }
  }

  /** A new process is put right behind the first one. */
  lemma HookedSecond(procs: map<int, Proc>, ring: seq<int>, x: Proc, w: int)
    requires RingList(procs, ring) && ring != [] && Distinct(ring) && w !in ring
    requires ring[0] in procs && x.next == procs[ring[0]].next
    ensures var p1 := procs[w := x];
      RingList(p1[ring[0] := p1[ring[0]].(next := w)], [ring[0], w] + ring[1..])
  {
    var p1 := procs[w := x];
    var procs', ring' := p1[ring[0] := p1[ring[0]].(next := w)], [ring[0], w] + ring[1..];
    assert RingNode(procs, ring, 0);
    forall i | 0 <= i < |ring'| ensures RingNode(procs', ring', i) {
      if i >= 2 {
        assert RingNode(procs, ring, i - 1);
        var p := ring[i - 1];
        assert p in ring;
      }
    }
  }

  /** Processes whose record is unchanged keep their place in ring and chains. */
  lemma RingFrame(procs: map<int, Proc>, procs': map<int, Proc>, ring: seq<int>)
    requires RingList(procs, ring)
    requires forall p :: p in ring && p in procs ==> p in procs' && procs'[p].next == procs[p].next
    ensures RingList(procs', ring)
  {
    forall i | 0 <= i < |ring| ensures RingNode(procs', ring, i) {
      assert RingNode(procs, ring, i);
      var p := ring[i];
      assert p in ring;
    }
  }

  lemma ChainFrame(procs: map<int, Proc>, procs': map<int, Proc>, s: int, waiter: int, chain: seq<int>)
    requires ChainList(procs, s, waiter, chain)
    requires forall p :: p in chain && p in procs ==> p in procs' && procs'[p].(next := 0) == procs[p].(next := 0)
    ensures ChainList(procs', s, waiter, chain)
    ensures Waiters(procs', chain) == Waiters(procs, chain)
  {
    forall i | 0 <= i < |chain|
      ensures ChainNode(procs', s, chain, i) && Waiters(procs', chain)[i] == Waiters(procs, chain)[i] {
      assert ChainNode(procs, s, chain, i);
      var p := chain[i];
      assert p in chain;
    }
  }

  lemma InWaiters(procs: map<int, Proc>, chain: seq<int>, p: int)
    ensures (exists w :: w in Waiters(procs, chain) && w.who == p) <==> p in chain
  {
    var ws := Waiters(procs, chain);
    if p in chain {
      var i :| 0 <= i < |chain| && chain[i] == p;
      assert ws[i] in ws && ws[i].who == p;
    }
  }

  lemma ChainMember(procs: map<int, Proc>, s: int, waiter: int, chain: seq<int>, p: int)
    requires ChainList(procs, s, waiter, chain) && p in chain
    ensures p in procs && p != NIL && procs[p].blocked == s && procs[p].blocked2 == NIL
  {
    var i :| 0 <= i < |chain| && chain[i] == p;
    assert ChainNode(procs, s, chain, i);
  }

  lemma AllReady(procs: map<int, Proc>, ring: seq<int>)
    requires forall i :: 0 <= i < |ring| ==> Ready(procs, ring[i])
    ensures forall p :: p in ring ==> Ready(procs, p)
  {
  }

  /** Linked states stand for well-formed scheduler states: who waits is off the ring and on one chain. */
  lemma ThreadsOk(cur: int, procs: map<int, Proc>, sems: map<int, SemRec>, ring: seq<int>, chains: map<int, seq<int>>)
    requires Threads(cur, procs, sems, ring, chains)
    ensures sems.Keys == chains.Keys && Ok(ViewOf(procs, sems, ring, chains))
  {
    var st := ViewOf(procs, sems, ring, chains);
    forall s, p | s in sems && WaitsOn(st, s, p)
      ensures p in chains[s] && p in procs && procs[p].blocked == s && p !in ring
    {
      InWaiters(procs, chains[s], p);
      ChainMember(procs, s, sems[s].waiter, chains[s], p);
      AllReady(procs, ring);
    }
    forall s | s in sems ensures ChainDistinct(st.sems[s].waiters) {
    }
  }

  ghost predicate SameButNext(procs: map<int, Proc>, procs': map<int, Proc>) {
    forall p :: p in procs ==> p in procs' && procs'[p].(next := 0) == procs[p].(next := 0)
  }

  /** An edit of `next` links only moves the ring. */
  lemma RingEdited(cur: int, procs: map<int, Proc>, sems: map<int, SemRec>, ring: seq<int>, chains: map<int, seq<int>>,
                   cur': int, procs': map<int, Proc>, ring': seq<int>)
    requires Threads(cur, procs, sems, ring, chains) && SameButNext(procs, procs')
    requires ring' != [] && ring'[0] == cur' && Distinct(ring') && NULLPROC in ring' && RingList(procs', ring')
    requires forall i :: 0 <= i < |ring'| ==> Ready(procs', ring'[i])
    ensures Threads(cur', procs', sems, ring', chains)
    ensures ViewOf(procs', sems, ring', chains) == ViewOf(procs, sems, ring, chains).(ring := ring')
  {
    forall s | s in sems
      ensures ChainList(procs', s, sems[s].waiter, chains[s]) && Waiters(procs', chains[s]) == Waiters(procs, chains[s])
    {
      ChainFrame(procs, procs', s, sems[s].waiter, chains[s]);
    }
  }

  /** The processor goes to the next process: same cycle, read from another place. */
  lemma StillReady(procs: map<int, Proc>, procs': map<int, Proc>, ring: seq<int>, ring': seq<int>)
    requires forall i :: 0 <= i < |ring| ==> Ready(procs, ring[i])
    requires SameButNext(procs, procs') && forall p :: p in ring' ==> p in ring
    ensures forall i :: 0 <= i < |ring'| ==> Ready(procs', ring'[i])
  {
    forall i | 0 <= i < |ring'| ensures Ready(procs', ring'[i]) {
      var p := ring'[i];
      assert p in ring';
      var j :| 0 <= j < |ring| && ring[j] == p;
      assert Ready(procs, ring[j]);
    }
  }

  /** What a blocking wait does to the links, up to taking the process off the ring. */
  ghost function Enqueued(procs: map<int, Proc>, p: int, s: int, n: int, waiter: int): map<int, Proc>
    requires p in procs
  {
    procs[p := procs[p].(bnext := waiter, blocked := s, blockedn := n)]
  }

  lemma EnqueuedChains(cur: int, procs: map<int, Proc>, sems: map<int, SemRec>, ring: seq<int>,
      chains: map<int, seq<int>>, s: int, n: int)
    requires Threads(cur, procs, sems, ring, chains) && s in sems && cur in procs
    ensures var procs' := Enqueued(procs, cur, s, n, sems[s].waiter);
      var chains' := chains[s := [cur] + chains[s]];
      var sems' := sems[s := SemRec(sems[s].sem - n, cur)];
      && (forall t :: t in sems' ==> Distinct(chains'[t]) && ChainList(procs', t, sems'[t].waiter, chains'[t]))
      && Waiters(procs', chains'[s]) == [Waiter(cur, n)] + Waiters(procs, chains[s])
      && (forall t :: t in sems && t != s ==> Waiters(procs', chains[t]) == Waiters(procs, chains[t]))
      && RingList(procs', ring)
  {
    var procs' := Enqueued(procs, cur, s, n, sems[s].waiter);
    var chains' := chains[s := [cur] + chains[s]];
    var sems' := sems[s := SemRec(sems[s].sem - n, cur)];
    AllReady(procs, ring);
    assert cur in ring;
    RingFrame(procs, procs', ring);
    forall t | t in sems ensures cur !in chains[t]
      ensures ChainList(procs', t, sems[t].waiter, chains[t]) && Waiters(procs', chains[t]) == Waiters(procs, chains[t])
    {
      if cur in chains[t] { ChainMember(procs, t, sems[t].waiter, chains[t], cur); }
      ChainFrame(procs, procs', t, sems[t].waiter, chains[t]);
    }
    forall i | 0 <= i < |chains'[s]| ensures ChainNode(procs', s, chains'[s], i) {
      if i > 0 { assert ChainNode(procs', s, chains[s], i - 1); }
    }
  }

  lemma StillReadyButOne(procs: map<int, Proc>, procs': map<int, Proc>, ring: seq<int>, ring': seq<int>, cur: int)
    requires forall i :: 0 <= i < |ring| ==> Ready(procs, ring[i])
    requires forall p :: p in procs && p != cur ==> p in procs' && procs'[p].(next := 0) == procs[p].(next := 0)
    requires forall p :: p in ring' ==> p in ring && p != cur
    ensures forall i :: 0 <= i < |ring'| ==> Ready(procs', ring'[i])
  {
    AllReady(procs, ring);
    forall i | 0 <= i < |ring'| ensures Ready(procs', ring'[i]) {
      var p := ring'[i];
      assert p in ring';
    }
  }

  /** The current process is off the ring: the others stand as they would with its successor as the current one, and
      its own link still leads to that successor. */
  ghost predicate Detached(cur: int, procs: map<int, Proc>, sems: map<int, SemRec>, ring: seq<int>,
      chains: map<int, seq<int>>) {
    && |ring| > 1 && ring[0] == cur && cur !in ring[1..] && cur != NULLPROC
    && Threads(ring[1], procs, sems, ring[1..], chains)
    && cur in procs && procs[cur].next == ring[1]
  }

  /** The links after a blocking wait, once the waiter is off the ring. */
  ghost function BlockedProcs(procs: map<int, Proc>, ring: seq<int>, s: int, n: int, waiter: int): map<int, Proc>
    requires |ring| > 1 && ring[0] in procs && ring[|ring| - 1] in procs
  {
    var p1 := Enqueued(procs, ring[0], s, n, waiter);
    var last := ring[|ring| - 1];
    p1[last := p1[last].(next := p1[ring[0]].next)]
  }

  lemma Blocked(cur: int, procs: map<int, Proc>, sems: map<int, SemRec>, ring: seq<int>, chains: map<int, seq<int>>,
                s: int, n: int)
    requires Threads(cur, procs, sems, ring, chains) && s in sems && sems[s].sem - n < 0
    requires Ok(ViewOf(procs, sems, ring, chains)) && Enabled(ViewOf(procs, sems, ring, chains), Op.Wait(s, n))
    ensures sems.Keys == chains.Keys
    ensures |ring| > 1 && ring[0] == cur && cur in procs && ring[|ring| - 1] in procs && Distinct(ring)
    ensures procs[cur].blocked == NIL && procs[cur].blocked2 == NIL
    ensures RingList(Enqueued(procs, cur, s, n, sems[s].waiter), ring)
    ensures var procs' := BlockedProcs(procs, ring, s, n, sems[s].waiter);
      && procs'.Keys == procs.Keys
      && (var sems', chains' := sems[s := SemRec(sems[s].sem - n, cur)], chains[s := [cur] + chains[s]];
          && Detached(cur, procs', sems', ring, chains')
          && ViewOf(procs', sems', ring, chains').(phase := OffRing)
             == Step(ViewOf(procs, sems, ring, chains), Op.Wait(s, n)))
  {
    AllReady(procs, ring);
    assert cur in ring && ring[|ring| - 1] in ring;
    NullIsOther(ViewOf(procs, sems, ring, chains));
    EnqueuedChains(cur, procs, sems, ring, chains, s, n);
    var p1 := Enqueued(procs, cur, s, n, sems[s].waiter);
    Unhooked(p1, ring);
    BlockedView(cur, procs, sems, ring, chains, s, n, BlockedProcs(procs, ring, s, n, sems[s].waiter));
  }

  lemma BlockedView(cur: int, procs: map<int, Proc>, sems: map<int, SemRec>, ring: seq<int>, chains: map<int, seq<int>>,
                    s: int, n: int, procs': map<int, Proc>)
    requires Threads(cur, procs, sems, ring, chains) && s in sems && sems[s].sem - n < 0 && cur in procs
    requires Ok(ViewOf(procs, sems, ring, chains)) && Enabled(ViewOf(procs, sems, ring, chains), Op.Wait(s, n))
    requires |ring| > 1 && NULLPROC in ring[1..]
    requires SameButNext(Enqueued(procs, cur, s, n, sems[s].waiter), procs') && RingList(procs', ring[1..])
    ensures var sems', chains' := sems[s := SemRec(sems[s].sem - n, cur)], chains[s := [cur] + chains[s]];
      && Threads(ring[1], procs', sems', ring[1..], chains')
      && ViewOf(procs', sems', ring, chains').(phase := OffRing)
         == Step(ViewOf(procs, sems, ring, chains), Op.Wait(s, n))
  {
    hide Ok, Enabled;
    var p1 := Enqueued(procs, cur, s, n, sems[s].waiter);
    var sems', chains' := sems[s := SemRec(sems[s].sem - n, cur)], chains[s := [cur] + chains[s]];
    EnqueuedChains(cur, procs, sems, ring, chains, s, n);
    Rotated(ring);
    StillReadyButOne(procs, procs', ring, ring[1..], cur);
    forall t | t in sems'
      ensures ChainList(procs', t, sems'[t].waiter, chains'[t])
          && Waiters(procs', chains'[t]) == Waiters(p1, chains'[t])
    {
      ChainFrame(p1, procs', t, sems'[t].waiter, chains'[t]);
    }
  }

  /** The links after the first waiter `w` was put before the current process and marked ready. */
  ghost function WokenProcs(procs: map<int, Proc>, ring: seq<int>, w: int): map<int, Proc>
    requires ring != [] && w in procs && ring[|ring| - 1] in procs
  {
    var p1 := procs[w := procs[w].(next := ring[0])];
    var last := ring[|ring| - 1];
    var p2 := p1[last := p1[last].(next := w)];
    p2[w := p2[w].(blocked := NIL)]
  }

  lemma FirstWaiter(cur: int, procs: map<int, Proc>, sems: map<int, SemRec>, ring: seq<int>,
      chains: map<int, seq<int>>, s: int)
    requires Threads(cur, procs, sems, ring, chains) && s in sems
    ensures sems.Keys == chains.Keys
    ensures chains[s] == [] <==> sems[s].waiter == NIL
    ensures chains[s] != [] ==> var w := sems[s].waiter;
      && w == chains[s][0] && w in procs && w !in ring && w != NIL
      && procs[w].blocked == s && procs[w].blocked2 == NIL && procs[w].bnext == Nth(chains[s], 1, NIL)
    ensures ring != [] && ring[0] == cur && ring[|ring| - 1] in procs && Distinct(ring) && RingList(procs, ring)
  {
    AllReady(procs, ring);
    var last := ring[|ring| - 1];
    assert last in ring;
    if chains[s] != [] {
      var w := chains[s][0];
      assert w in chains[s] && ChainNode(procs, s, chains[s], 0);
      ChainMember(procs, s, sems[s].waiter, chains[s], w);
    }
  }

  lemma WokenChains(cur: int, procs: map<int, Proc>, sems: map<int, SemRec>, ring: seq<int>,
      chains: map<int, seq<int>>, s: int)
    requires Threads(cur, procs, sems, ring, chains) && s in sems && chains[s] != []
    requires sems[s].waiter in procs && ring[|ring| - 1] in procs
    ensures var w := sems[s].waiter;
      var procs', chains' := WokenProcs(procs, ring, w), chains[s := chains[s][1..]];
      var sems' := sems[s := sems[s].(waiter := procs[w].bnext)];
      && (forall t :: t in sems' ==> Distinct(chains'[t]) && ChainList(procs', t, sems'[t].waiter, chains'[t]))
      && Waiters(procs', chains'[s]) == Waiters(procs, chains[s])[1..]
      && (forall t :: t in sems && t != s ==> Waiters(procs', chains[t]) == Waiters(procs, chains[t]))
  {
    var w := sems[s].waiter;
    var procs', chains' := WokenProcs(procs, ring, w), chains[s := chains[s][1..]];
    var sems' := sems[s := sems[s].(waiter := procs[w].bnext)];
    assert ChainNode(procs, s, chains[s], 0);
    var rest := chains[s][1..];
    forall i | 0 <= i < |rest| ensures ChainNode(procs, s, rest, i) {
      assert ChainNode(procs, s, chains[s], i + 1);
    }
    forall t | t in sems'
      ensures ChainList(procs', t, sems'[t].waiter, chains'[t])
          && Waiters(procs', chains'[t]) == Waiters(procs, chains'[t])
    {
      if w in chains'[t] {
        if t != s { ChainMember(procs, t, sems[t].waiter, chains[t], w); }
      }
      ChainFrame(procs, procs', t, sems'[t].waiter, chains'[t]);
    }
    assert Waiters(procs, rest) == Waiters(procs, chains[s])[1..];
  }

  /** Waking the first waiter: it joins the end of the cycle and leaves the chain. */
  lemma WakeOne(cur: int, procs: map<int, Proc>, sems: map<int, SemRec>, ring: seq<int>, chains: map<int, seq<int>>,
      s: int)
    requires Threads(cur, procs, sems, ring, chains) && s in sems && chains[s] != []
    requires sems[s].waiter in procs && ring[|ring| - 1] in procs
    ensures var w := sems[s].waiter;
      var procs', chains', ring' := WokenProcs(procs, ring, w), chains[s := chains[s][1..]], ring + [w];
      var sems' := sems[s := sems[s].(waiter := procs[w].bnext)];
      var st := ViewOf(procs, sems, ring, chains);
      && procs'.Keys == procs.Keys
      && Threads(cur, procs', sems', ring', chains')
      && ViewOf(procs', sems', ring', chains') ==
           Sched(ring', OnRing, st.sems[s := Sem(sems[s].sem, st.sems[s].waiters[1..])])
      && st.sems[s].waiters != [] && st.sems[s].waiters[0] == Waiter(w, procs[w].blockedn)
  {
    var w := sems[s].waiter;
    var procs', ring' := WokenProcs(procs, ring, w), ring + [w];
    FirstWaiter(cur, procs, sems, ring, chains, s);
    WokenChains(cur, procs, sems, ring, chains, s);
    HookedLast(procs, ring, w);
    var p1 := procs[w := procs[w].(next := ring[0])];
    var last := ring[|ring| - 1];
    var p2 := p1[last := p1[last].(next := w)];
    RingFrame(p2, procs', ring');
    AllReady(procs, ring);
    forall i | 0 <= i < |ring'| ensures Ready(procs', ring'[i]) {
      if i < |ring| {
        assert Ready(procs, ring[i]);
        var p := ring[i];
        assert p in ring;
      }
    }
    var all := ring';
    forall i, j | 0 <= i < j < |all| ensures all[i] != all[j] {
      if j == |ring| { var p := ring[i]; assert p in ring; }
    }
    assert ring[..] == ring && NULLPROC in ring';
  }

  lemma SemSet(cur: int, procs: map<int, Proc>, sems: map<int, SemRec>, ring: seq<int>, chains: map<int, seq<int>>,
      s: int, v: int)
    requires Threads(cur, procs, sems, ring, chains) && s in sems
    ensures sems.Keys == chains.Keys && s in ViewOf(procs, sems, ring, chains).sems
    ensures ViewOf(procs, sems, ring, chains).sems[s].sem == sems[s].sem
    ensures |ViewOf(procs, sems, ring, chains).sems[s].waiters| == |chains[s]|
    ensures var sems' := sems[s := sems[s].(sem := v)]; var st := ViewOf(procs, sems, ring, chains);
      && Threads(cur, procs, sems', ring, chains)
      && ViewOf(procs, sems', ring, chains) ==
           Sched(st.ring + Names(st.sems[s].waiters[..0]), OnRing, st.sems[s := Sem(v, st.sems[s].waiters[0..])])
  {
  }

  lemma WokenStep(ws: seq<Waiter>, k: nat, left: int)
    requires k < |ws| && left > 0
    ensures Woken(ws[k..], left) == 1 + Woken(ws[k + 1..], left - ws[k].units)
    ensures Names(ws[..k + 1]) == Names(ws[..k]) + [ws[k].who]
    ensures ws[k..][1..] == ws[k + 1..] && ws[k..][0] == ws[k]
  {
  }

  lemma WokenEnd(ws: seq<Waiter>, k: nat, left: int)
    requires k <= |ws| && (k == |ws| || left <= 0)
    ensures Woken(ws[k..], left) == 0
  {
  }

  lemma UnknownPid(cur: int, procs: map<int, Proc>, sems: map<int, SemRec>, ring: seq<int>,
      chains: map<int, seq<int>>, child: int)
    requires Threads(cur, procs, sems, ring, chains) && child !in procs
    ensures sems.Keys == chains.Keys && Ok(ViewOf(procs, sems, ring, chains))
    ensures Enabled(ViewOf(procs, sems, ring, chains), Op.Fork(child)) && child !in ring && cur in procs
  {
    ThreadsOk(cur, procs, sems, ring, chains);
    AllReady(procs, ring);
    assert cur in ring;
    var st := ViewOf(procs, sems, ring, chains);
    forall s | s in sems ensures !WaitsOn(st, s, child) {
      InWaiters(procs, chains[s], child);
      if child in chains[s] { ChainMember(procs, s, sems[s].waiter, chains[s], child); }
    }
  }

  /** The links after a fork. */
  lemma Forked(cur: int, procs: map<int, Proc>, sems: map<int, SemRec>, ring: seq<int>, chains: map<int, seq<int>>,
      child: int)
    requires Threads(cur, procs, sems, ring, chains) && cur in procs && child !in procs && child !in ring
        && child != NIL
    ensures var p1 := procs[child := Proc(procs[cur].next, NIL, NIL, 0, NIL)];
      var procs', ring' := p1[cur := p1[cur].(next := child)], [ring[0], child] + ring[1..];
      && Threads(cur, procs', sems, ring', chains)
      && ViewOf(procs, sems, ring, chains).ring == ring
      && ViewOf(procs', sems, ring', chains) == ViewOf(procs, sems, ring, chains).(ring := ring')
  {
    var x := Proc(procs[cur].next, NIL, NIL, 0, NIL);
    var p1 := procs[child := x];
    var procs', ring' := p1[cur := p1[cur].(next := child)], [ring[0], child] + ring[1..];
    HookedSecond(procs, ring, x, child);
    forall i | 0 <= i < |ring'| ensures Ready(procs', ring'[i]) {
      if i >= 2 { assert Ready(procs, ring[i - 1]); } else if i == 0 { assert Ready(procs, ring[0]); }
    }
    forall i, j | 0 <= i < j < |ring'| ensures ring'[i] != ring'[j] {
      if j >= 2 { var p := ring[j - 1]; assert p in ring; }
    }
    assert ring == [ring[0]] + ring[1..];
    RingEdited(cur, procs, sems, ring, chains, cur, procs', ring');
  }

  /** The links after the current process has unhooked itself for good. */
  lemma Left(cur: int, procs: map<int, Proc>, sems: map<int, SemRec>, ring: seq<int>, chains: map<int, seq<int>>)
    requires Threads(cur, procs, sems, ring, chains) && cur != NULLPROC
    ensures sems.Keys == chains.Keys
    ensures |ring| > 1 && ring[0] == cur && cur in procs && Distinct(ring) && RingList(procs, ring)
    ensures procs[cur].blocked == NIL && procs[cur].blocked2 == NIL
    ensures ring[|ring| - 1] in procs
    ensures var procs' := procs[ring[|ring| - 1] := procs[ring[|ring| - 1]].(next := procs[cur].next)];
      && procs'.Keys == procs.Keys
      && Detached(cur, procs', sems, ring, chains)
      && ViewOf(procs', sems, ring, chains) == ViewOf(procs, sems, ring, chains)
  {
    ThreadsOk(cur, procs, sems, ring, chains);
    AllReady(procs, ring);
    assert cur in ring;
    var st := ViewOf(procs, sems, ring, chains);
    NullIsOther(st);
    Unhooked(procs, ring);
    Rotated(ring);
    var last := ring[|ring| - 1];
    var procs' := procs[last := procs[last].(next := procs[cur].next)];
    StillReady(procs, procs', ring, ring[1..]);
    RingEdited(cur, procs, sems, ring, chains, ring[1], procs', ring[1..]);
    assert ViewOf(procs', sems, ring[1..], chains).sems == st.sems;
  }

  /** A detached state stands for a well-formed scheduler state in the gap. */
  lemma DetachedOk(cur: int, procs: map<int, Proc>, sems: map<int, SemRec>, ring: seq<int>, chains: map<int, seq<int>>)
    requires Detached(cur, procs, sems, ring, chains)
    ensures sems.Keys == chains.Keys && Ok(ViewOf(procs, sems, ring, chains).(phase := OffRing))
  {
    var rest := ring[1..];
    ThreadsOk(ring[1], procs, sems, rest, chains);
    var st, st' := ViewOf(procs, sems, rest, chains), ViewOf(procs, sems, ring, chains).(phase := OffRing);
    SameWaits(st, st');
    assert ring == [cur] + rest;
    forall i, j | 0 <= i < j < |ring| ensures ring[i] != ring[j] {
      if i == 0 { assert ring[j] == rest[j - 1]; var p := rest[j - 1]; assert p in rest; }
      else { assert ring[i] == rest[i - 1] && ring[j] == rest[j - 1]; }
    }
    forall s, p | s in st'.sems && WaitsOn(st', s, p) ensures p !in ring || p == cur {
      assert WaitsOn(st, s, p);
    }
    forall s, t, p | s in st'.sems && t in st'.sems && WaitsOn(st', s, p) && WaitsOn(st', t, p) ensures s == t {
      assert WaitsOn(st, s, p) && WaitsOn(st, t, p);
    }
  }

  // ---------------------------------------------------------------- walks along the links

  /** Where `k` links lead from `p`. */
  ghost function Follow(procs: map<int, Proc>, p: int, k: nat): int {
    if k == 0 then p else
    var q := Follow(procs, p, k - 1);
    if q in procs then procs[q].next else NIL
  }

  lemma {:induction false} FollowRing(procs: map<int, Proc>, ring: seq<int>, k: nat)
    requires RingList(procs, ring) && k < |ring|
    ensures Follow(procs, ring[0], k) == ring[k]
  {
    if k > 0 {
      FollowRing(procs, ring, k - 1);
      assert RingNode(procs, ring, k - 1);
    }
  }

  /** From a process that is off the ring, the links lead into the ring and stay there. */
  lemma {:induction false} FollowDetached(cur: int, procs: map<int, Proc>, sems: map<int, SemRec>, ring: seq<int>,
                                          chains: map<int, seq<int>>, k: nat)
    requires Detached(cur, procs, sems, ring, chains) && k > 0
    ensures Follow(procs, cur, k) in ring[1..]
  {
    var rest := ring[1..];
    if k > 1 {
      FollowDetached(cur, procs, sems, ring, chains, k - 1);
      var q := Follow(procs, cur, k - 1);
      var i :| 0 <= i < |rest| && rest[i] == q;
      assert RingNode(procs, rest, i);
    } else {
      assert Follow(procs, cur, 0) == cur;
      assert ring[1] == rest[0];
    }
  }

  /** The exact condition for the walk of `semsignal` to end: some number of links leads from the current process back
      to it iff it is on the ring. */
  lemma WalkEndsIff(cur: int, procs: map<int, Proc>, sems: map<int, SemRec>, ring: seq<int>, chains: map<int, seq<int>>,
                    off: bool)
    requires if off then Detached(cur, procs, sems, ring, chains) else Threads(cur, procs, sems, ring, chains)
    ensures (exists k :: k > 0 && Follow(procs, cur, k) == cur) <==> !off
  {
    if off {
      forall k: nat | k > 0 ensures Follow(procs, cur, k) != cur {
        FollowDetached(cur, procs, sems, ring, chains, k);
      }
    } else {
      FollowRing(procs, ring, |ring| - 1);
      assert RingNode(procs, ring, |ring| - 1);
      assert Follow(procs, cur, |ring|) == cur;
    }
  }

  lemma {:induction false} DistinctFits(s: seq<int>, keys: set<int>)
    requires Distinct(s) && forall p :: p in s ==> p in keys
    ensures |s| <= |keys|
  {
    if s != [] {
      var front, last := s[..|s| - 1], s[|s| - 1];
      forall p | p in front ensures p in keys - {last} {
        var i :| 0 <= i < |front| && front[i] == p;
        assert s[i] == p;
      }
      assert last in s;
      DistinctFits(front, keys - {last});
    }
  }

  lemma FirstRunning(cur: int, procs: map<int, Proc>, sems: map<int, SemRec>, ring: seq<int>,
      chains: map<int, seq<int>>)
    requires Threads(cur, procs, sems, ring, chains)
    ensures sems.Keys == chains.Keys && ring != [] && ring[0] == cur && cur in procs
  {
    AllReady(procs, ring);
    assert cur in ring;
  }

  class Kernel {
    var curproc: int
    var procs: map<int, Proc>
    var sems: map<int, SemRec>
    var nextpid: int
    var proclock: bool
    ghost var ring: seq<int>
    ghost var chains: map<int, seq<int>>
    ghost var phase: Phase

    ghost predicate Valid()
      reads this
    {
      && (match phase
          case OnRing => Threads(curproc, procs, sems, ring, chains) && !proclock
          case Leaving => Threads(curproc, procs, sems, ring, chains) && proclock && curproc != NULLPROC
          case OffRing => Detached(curproc, procs, sems, ring, chains) && !proclock
          case Hung => sems.Keys == chains.Keys)
      && 0 < nextpid && forall p :: p in procs ==> p < nextpid
    }

    ghost function View(): Sched
      requires sems.Keys == chains.Keys
      reads this
    {
      ViewOf(procs, sems, ring, chains).(phase := phase)
    }

    /** Every state that has not hung stands for a well-formed scheduler state. */
    lemma ViewOk()
      requires Valid() && !phase.Hung?
      ensures sems.Keys == chains.Keys && Ok(View())
    {
      if phase.OffRing? {
        DetachedOk(curproc, procs, sems, ring, chains);
      } else {
        ThreadsOk(curproc, procs, sems, ring, chains);
        OnlyCurrentWaits(ViewOf(procs, sems, ring, chains));
        RingMove(ViewOf(procs, sems, ring, chains), ring, phase);
      }
    }

    /** `procsetup`: the idle process alone on the ring. */
    constructor ()
      ensures Valid() && View() == Sched([NULLPROC], OnRing, map[])
    {
      curproc := NULLPROC;
      procs := map[NULLPROC := Proc(NULLPROC, NIL, NIL, 0, NIL)];
      sems := map[];
      nextpid := 1;
      proclock := false;
      ring := [NULLPROC];
      chains := map[];
      phase := OnRing;
      new;
      assert RingNode(procs, ring, 0);
    }

    /** `findprev`: walks the cycle until it is back. */
    method FindPrev(p: int) returns (prev: int)
      requires RingList(procs, ring) && Distinct(ring) && ring != [] && ring[0] == p
      ensures prev == ring[|ring| - 1]
    {
      prev := p;
      ghost var i := 0;
      assert RingNode(procs, ring, 0);
      while procs[prev].next != p
        invariant 0 <= i < |ring| && prev == ring[i] && RingNode(procs, ring, i)
        decreases |ring| - i
      {
        prev := procs[prev].next;
        i := i + 1;
        assert RingNode(procs, ring, i);
      }
    }

    /** `procswitchgut`, where `rest` is the cycle that starts at the successor of the current process. */
    method SwitchGut(ghost rest: seq<int>)
      requires rest != [] && RingList(procs, rest)
      requires curproc in procs && procs[curproc].next == rest[0]
      modifies this`curproc, this`ring
      ensures ring == Skip(rest) && curproc == ring[0] && RingList(procs, ring)
    {
      assert RingNode(procs, rest, 0);
      curproc := procs[curproc].next;
      ring := rest;
      if curproc == NULLPROC {
        curproc := procs[curproc].next;
        Turned(procs, rest);
        ring := rest[1..] + [rest[0]];
      }
    }

    /** `procswitch`: the current process gives up the processor, or a timer interrupt takes it; it may have unhooked
        itself before.  `spins` is the lock that never comes free. */
    method Switch() returns (spins: bool)
      requires Valid() && !phase.Hung?
      modifies this`curproc, this`ring, this`phase
      ensures Valid() && Ok(old(View())) && Enabled(old(View()), Yield) && View() == Step(old(View()), Yield)
      ensures spins == Hangs(old(View()), Yield)
    {
      ViewOk();
      if proclock {
        phase := Hung;
        return true;
      }
      spins := false;
      SwitchNow();
    }

    method SwitchNow()
      requires Valid() && (phase.OnRing? || phase.OffRing?) && Ok(View()) && Enabled(View(), Yield)
      modifies this`curproc, this`ring, this`phase
      ensures Valid() && View() == Step(old(View()), Yield)
    {
      ghost var st, r, c := View(), ring, curproc;
      ghost var rest := if phase.OffRing? then r[1..] else r[1..] + [r[0]];
      Rotated(r);
      if phase.OffRing? {
        NullIsOther(st);
      } else {
        Turned(procs, r);
        assert RingNode(procs, r, 0);
      }
      SkipSame(rest);
      SwitchGut(rest);
      if phase.OffRing? {
        StillReady(procs, procs, rest, ring);
        RingEdited(rest[0], procs, sems, rest, chains, curproc, procs, ring);
      } else {
        StillReady(procs, procs, r, ring);
        RingEdited(c, procs, sems, r, chains, curproc, procs, ring);
      }
      phase := OnRing;
    }

    /** `seminit`, for a semaphore that is not in use. */
    method SemInit(s: int, n: int)
      requires Valid() && phase.OnRing? && s !in sems && s != NIL
      modifies this`sems, this`chains
      ensures Valid() && View() == old(View()).(sems := old(View()).sems[s := Init(n)])
    {
      sems := sems[s := SemRec(n, NIL)];
      chains := chains[s := []];
    }

    /** The critical section of `semwait`: take `n` units, or join the waiters and leave the ring.  After the latter
        comes `Switch`, but interrupts come first if there are any.  `spins` is a wait within an exit, for the lock that
        the exit itself holds. */
    method SemWait(s: int, n: int) returns (leftcs: bool, spins: bool)
      requires Valid() && (phase.OnRing? || phase.Leaving?) && s in sems && Enabled(View(), Op.Wait(s, n))
      modifies this
      ensures Valid() && Ok(old(View())) && View() == Step(old(View()), Op.Wait(s, n))
      ensures spins == Hangs(old(View()), Op.Wait(s, n)) && (leftcs <==> phase.OnRing?)
    {
      ghost var st := View();
      ViewOk();
      spins := proclock;
      if spins {
        phase := Hung;
        return false, true;
      }
      leftcs := sems[s].sem - n >= 0;
      if leftcs {
        sems := sems[s := sems[s].(sem := sems[s].sem - n)];
        assert View() == Step(st, Op.Wait(s, n));
        return;
      }
      Block(s, n);
    }

    /** The blocking half of it. */
    method Block(s: int, n: int)
      requires Valid() && phase.OnRing? && s in sems && Enabled(View(), Op.Wait(s, n)) && sems[s].sem - n < 0
      modifies this
      ensures Valid() && phase.OffRing? && Ok(old(View())) && View() == Step(old(View()), Op.Wait(s, n))
    {
      hide Threads, Detached, ViewOf, Step, Ok, RingList, Enabled, Skip;
      ghost var p0, s0, r, c0, cur := procs, sems, ring, chains, curproc;
      ThreadsOk(curproc, procs, sems, ring, chains);
      OnRingView(procs, sems, ring, chains);
      Blocked(curproc, procs, sems, ring, chains, s, n);
      sems := sems[s := sems[s].(sem := sems[s].sem - n)];
      procs := procs[curproc := procs[curproc].(bnext := sems[s].waiter)];
      sems := sems[s := sems[s].(waiter := curproc)];
      if procs[curproc].blocked == NIL && procs[curproc].blocked2 == NIL {
        procs := procs[curproc := procs[curproc].(blocked := s, blockedn := n)];
      } else {
        assert false;
      }
      assert procs == Enqueued(p0, cur, s, n, s0[s].waiter);
      var prev := FindPrev(curproc);
      procs := procs[prev := procs[prev].(next := procs[curproc].next)];
      chains := chains[s := [curproc] + chains[s]];
      assert procs == BlockedProcs(p0, r, s, n, s0[s].waiter);
      assert sems == s0[s := SemRec(s0[s].sem - n, cur)] && chains == c0[s := [cur] + c0[s]];
      phase := OffRing;
    }

    /** The walk of `semsignal` for the process before the current one.  A walk that has followed more links than there
        are processes never ends. */
    method ComesBack() returns (back: bool)
      requires Valid() && (phase.OnRing? || phase.OffRing?)
      ensures back <==> phase.OnRing?
      ensures back <==> exists k :: k > 0 && Follow(procs, curproc, k) == curproc
    {
      WalkEndsIff(curproc, procs, sems, ring, chains, phase.OffRing?);
      if phase.OnRing? {
        AllReady(procs, ring);
        DistinctFits(ring, procs.Keys);
      }
      var p, steps := curproc, 0;
      Here(0);
      while procs[p].next != curproc && steps < |procs|
        invariant 0 <= steps <= |procs| && p == Follow(procs, curproc, steps) && p in procs
        invariant phase.OnRing? ==> steps < |ring|
        decreases |procs| - steps
      {
        Here(steps);
        assert Follow(procs, curproc, steps + 1) == procs[p].next;
        Here(steps + 1);
        p, steps := procs[p].next, steps + 1;
      }
      Here(steps);
      assert Follow(procs, curproc, steps + 1) == procs[p].next;
      Here(steps + 1);
      back := procs[p].next == curproc;
    }

    /** Where the walk stands after `k` links. */
    lemma Here(k: nat)
      requires Valid() && (phase.OnRing? || phase.OffRing?)
      ensures phase.OnRing? && k < |ring| ==>
                var p := Follow(procs, curproc, k);
                p == ring[k] && p in procs && procs[p].next == if k + 1 < |ring| then ring[k + 1] else curproc
      ensures phase.OffRing? ==> Follow(procs, curproc, k) in procs && (k > 0 ==> Follow(procs, curproc, k) != curproc)
    {
      if phase.OnRing? && k < |ring| {
        FollowRing(procs, ring, k);
        assert RingNode(procs, ring, k);
      }
      if phase.OffRing? && k > 0 {
        FollowDetached(curproc, procs, sems, ring, chains, k);
        AllReady(procs, ring[1..]);
      }
    }

    /** One round of the loop in `semsignal`: the first waiter goes before the current process. */
    method WakeFirst(s: int) returns (units: int)
      requires Threads(curproc, procs, sems, ring, chains) && s in sems && sems[s].waiter != NIL
      modifies this`procs, this`sems, this`ring, this`chains
      ensures Threads(curproc, procs, sems, ring, chains) && s in sems
      ensures procs.Keys == old(procs).Keys && |chains[s]| == old(|chains[s]|) - 1
      ensures var st := old(ViewOf(procs, sems, ring, chains));
        && s in st.sems && st.sems[s].waiters != [] && units == st.sems[s].waiters[0].units
        && ViewOf(procs, sems, ring, chains) == Sched(st.ring + [st.sems[s].waiters[0].who], OnRing,
                                                      st.sems[s := Sem(st.sems[s].sem, st.sems[s].waiters[1..])])
    {
      hide Threads, RingList, Waiters;
      FirstWaiter(curproc, procs, sems, ring, chains, s);
      ghost var p0 := procs;
      WakeOne(curproc, procs, sems, ring, chains, s);
      var w := sems[s].waiter;
      var x := procs[w];
      if x.blocked != s && x.blocked2 != s {
        assert false;
      }
      if !(x.blocked == s && x.blocked2 != NIL) {
        var prev := FindPrev(curproc);
        procs := procs[w := procs[w].(next := curproc)];
        procs := procs[prev := procs[prev].(next := w)];
      }
      if x.blocked == s {
        units := procs[w].blockedn;
        procs := procs[w := procs[w].(blocked := NIL)];
      } else {
        assert false;
        units := 0;
      }
      assert procs == WokenProcs(p0, ring, w);
      sems := sems[s := sems[s].(waiter := procs[w].bnext)];
      ring, chains := ring + [w], chains[s := chains[s][1..]];
    }

    /** The loop of `semsignal`, with the current process on the ring: `st` is the state before the signal, whose `n`
        units are in the counter already. */
    method WakeAll(s: int, n: int, ghost st: Sched)
      requires Threads(curproc, procs, sems, ring, chains) && s in sems && s in st.sems && st.phase.OnRing?
      requires ViewOf(procs, sems, ring, chains) == UnitsAdded(st, s, n)
      requires |st.sems[s].waiters| == |chains[s]|
      modifies this`procs, this`sems, this`ring, this`chains
      ensures Threads(curproc, procs, sems, ring, chains) && procs.Keys == old(procs).Keys
      ensures ViewOf(procs, sems, ring, chains) == AllWoken(st, s, n)
    {
      hide Threads, Ok, RingList, Woken, ViewOf;
      ghost var ws, k := st.sems[s].waiters, 0;
      FirstWaiter(curproc, procs, sems, ring, chains, s);
      var left := n;
      assert ws[0..] == ws && st.ring + Names(ws[..0]) == st.ring;
      while sems[s].waiter != NIL && left > 0
        invariant Threads(curproc, procs, sems, ring, chains) && s in sems && sems.Keys == chains.Keys
        invariant procs.Keys == old(procs).Keys
        invariant k <= |ws| && ViewOf(procs, sems, ring, chains)
                  == Sched(st.ring + Names(ws[..k]), OnRing, st.sems[s := Sem(st.sems[s].sem + n, ws[k..])])
        invariant Woken(ws, n) == k + Woken(ws[k..], left) && |chains[s]| == |ws| - k
        decreases |chains[s]|
      {
        FirstWaiter(curproc, procs, sems, ring, chains, s);
        var units := WakeFirst(s);
        FirstWaiter(curproc, procs, sems, ring, chains, s);
        WokenStep(ws, k, left);
        left := left - units;
        k := k + 1;
      }
      FirstWaiter(curproc, procs, sems, ring, chains, s);
      WokenEnd(ws, k, left);
    }

    /** `semsignal`, of a process or of an interrupt: add `n` units and wake waiters, last come first, until the units
        are used up.  `spins` is a signal that never ends: it waits for a lock that nobody will give back, or walks
        along links that do not lead back to the current process. */
    method SemSignal(s: int, n: int) returns (spins: bool)
      requires Valid() && !phase.Hung? && s in sems
      modifies this
      ensures Valid() && Ok(old(View())) && Enabled(old(View()), Op.Signal(s, n))
      ensures View() == Step(old(View()), Op.Signal(s, n)) && spins == Hangs(old(View()), Op.Signal(s, n))
    {
      hide Threads, Detached, ViewOf, Ok, Woken, RingList;
      ViewOk();
      ghost var st := View();
      NonEmptyView(s);
      if proclock {
        phase := Hung;
        return true;
      }
      AddUnits(s, n);
      OnRingView(procs, sems, ring, chains);
      spins := false;
      if sems[s].waiter != NIL && n > 0 {
        var back := ComesBack();
        if !back {
          phase := Hung;
          assert View() == UnitsAdded(st, s, n).(phase := Hung);
          return true;
        }
        WakeAll(s, n, st);
        return;
      }
      NobodyWoken(st, s, n);
    }

    /** What the links say about the first waiter. */
    lemma NonEmptyView(s: int)
      requires Valid() && !phase.Hung? && s in sems
      ensures sems.Keys == chains.Keys && s in View().sems && |View().sems[s].waiters| == |chains[s]|
      ensures (sems[s].waiter != NIL <==> View().sems[s].waiters != []) && View().ring == ring != []
          && View().phase == phase
      ensures proclock <==> phase.Leaving?
    {
      if phase.OffRing? {
        FirstWaiter(ring[1], procs, sems, ring[1..], chains, s);
      } else {
        FirstWaiter(curproc, procs, sems, ring, chains, s);
      }
    }

    method AddUnits(s: int, n: int)
      requires Valid() && (phase.OnRing? || phase.OffRing?) && s in sems
      modifies this`sems
      ensures Valid() && sems.Keys == chains.Keys && s in sems && sems[s].waiter == old(sems[s].waiter)
      ensures s in old(View()).sems && View() == UnitsAdded(old(View()), s, n)
    {
      sems := sems[s := sems[s].(sem := sems[s].sem + n)];
      if phase.OffRing? {
        SemSet(ring[1], procs, old(sems), ring[1..], chains, s, old(sems[s].sem) + n);
      } else {
        SemSet(curproc, procs, old(sems), ring, chains, s, old(sems[s].sem) + n);
      }
    }

    /** The ring part of `procrforkgut`: the child goes right behind its parent. */
    method ProcFork() returns (pid: int)
      requires Valid() && phase.OnRing?
      modifies this
      ensures Valid() && Ok(old(View())) && pid !in old(procs)
      ensures Enabled(old(View()), Op.Fork(pid)) && View() == Step(old(View()), Op.Fork(pid))
    {
      hide Threads, Ok, Enabled, ViewOf;
      FirstRunning(curproc, procs, sems, ring, chains);
      OnRingView(procs, sems, ring, chains);
      pid := nextpid;
      nextpid := nextpid + 1;
      UnknownPid(curproc, procs, sems, ring, chains, pid);
      Forked(curproc, procs, sems, ring, chains, pid);
      FirstRunning(curproc, procs, sems, ring, chains);
      procs := procs[pid := Proc(procs[curproc].next, NIL, NIL, 0, NIL)];
      procs := procs[curproc := procs[curproc].(next := pid)];
      ring := [ring[0], pid] + ring[1..];
      OnRingView(procs, sems, ring, chains);
    }

    /** `procexitsgut1` up to the lock, which it takes with interrupts on. */
    method ProcExit()
      requires Valid() && phase.OnRing? && curproc != NULLPROC
      modifies this`proclock, this`phase
      ensures Valid() && Ok(old(View())) && Enabled(old(View()), Exit) && View() == Step(old(View()), Exit)
    {
      ViewOk();
      proclock := true;
      phase := Leaving;
    }

    /** Its critical section: the current process leaves the ring; `Switch` comes after it. */
    method ExitUnhook()
      requires Valid() && phase.Leaving?
      modifies this
      ensures Valid() && Ok(old(View())) && Enabled(old(View()), Unhook) && View() == Step(old(View()), Unhook)
    {
      hide Threads, Detached, Ok, ViewOf, RingList;
      ViewOk();
      FirstRunning(curproc, procs, sems, ring, chains);
      OnRingView(procs, sems, ring, chains);
      Left(curproc, procs, sems, ring, chains);
      var prev := FindPrev(curproc);
      procs := procs[prev := procs[prev].(next := procs[curproc].next)];
      if procs[curproc].blocked2 != NIL || procs[curproc].blocked != NIL {
        assert false;
      }
      proclock := false;
      phase := OffRing;
      OnRingView(procs, sems, ring, chains);
    }
  }

  lemma OnRingView(procs: map<int, Proc>, sems: map<int, SemRec>, ring: seq<int>, chains: map<int, seq<int>>)
    requires sems.Keys == chains.Keys
    ensures ViewOf(procs, sems, ring, chains).phase == OnRing && ViewOf(procs, sems, ring, chains).ring == ring
    ensures ViewOf(procs, sems, ring, chains).sems.Keys == sems.Keys
  {
  }

  /** The state of a signal before anybody is woken, and after. */
  function UnitsAdded(st: Sched, s: int, n: int): Sched
    requires s in st.sems
  {
    st.(sems := st.sems[s := Sem(st.sems[s].sem + n, st.sems[s].waiters)])
  }

  function AllWoken(st: Sched, s: int, n: int): Sched
    requires s in st.sems
  {
    var ws := st.sems[s].waiters;
    Sched(st.ring + Names(ws[..Woken(ws, n)]), st.phase, st.sems[s := Semaphores.Signal(st.sems[s], n)])
  }

  lemma NobodyWoken(st: Sched, s: int, n: int)
    requires s in st.sems && !Wakes(st, s, n)
    ensures UnitsAdded(st, s, n) == AllWoken(st, s, n)
  {
  }
}
