/** The scheduler of src/multitask.c as a machine on values: the run ring, read from the current
  process onwards, and the semaphores.

  A process that blocks or exits is unhooked from the ring in one critical section and gives up the processor
  in another one.  In between it is still current, interrupts are on, and an interrupt may signal a semaphore or
  switch.  Notes, the sleep queue and double blocking are not part of the machine. */
module Ring {
  import opened Basics
  import opened Semaphores

  /** The idle process; it is created at start-up, stays ready and never waits. */
  const NULLPROC := 0

  /** How the current process stands: on the ring; in the critical section of its exit, which holds the lock with
      interrupts on; unhooked, with the switch still to come; or spinning for ever with the whole kernel. */
  datatype Phase = OnRing | Leaving | OffRing | Hung

  /** `ring[0]` is the current process; the cycle of links is `ring`, without its first element in phase OffRing. */
  datatype Sched = Sched(ring: seq<int>, phase: Phase, sems: map<int, Sem>)

  ghost predicate WaitsOn(st: Sched, s: int, p: int)
    requires s in st.sems
  {
    exists w :: w in st.sems[s].waiters && w.who == p
  }

  ghost predicate ChainDistinct(ws: seq<Waiter>) {
    forall i, j :: 0 <= i < j < |ws| ==> ws[i].who != ws[j].who
  }

  /** The process waits somewhere. */
  ghost predicate Waiting(st: Sched, p: int) {
    exists s :: s in st.sems && WaitsOn(st, s, p)
  }

  /** The current process is off the ring, or was when the kernel hung. */
  predicate MayBeOff(st: Sched) {
    st.phase.OffRing? || st.phase.Hung?
  }

  /** The ring is one simple cycle through the idle process; waiters are off it, each on one chain, once. */
  ghost predicate Ok(st: Sched) {
    && st.ring != [] && Distinct(st.ring)
    && NULLPROC in st.ring
    && (st.phase.OffRing? || st.phase.Leaving? ==> st.ring[0] != NULLPROC)
    && (forall s :: s in st.sems ==> ChainDistinct(st.sems[s].waiters))
    && (forall s, p :: s in st.sems && WaitsOn(st, s, p) ==> p !in st.ring || (MayBeOff(st) && p == st.ring[0]))
    && (forall s, t, p :: s in st.sems && t in st.sems && WaitsOn(st, s, p) && WaitsOn(st, t, p) ==> s == t)
  }

  /** The ring after the current process gave up the processor, `rest` being the cycle from its successor:
      the idle process is passed over unless it is alone. */
  function Skip(rest: seq<int>): (r: seq<int>)
    requires rest != []
    ensures |r| == |rest|
  {
    if rest[0] == NULLPROC then rest[1..] + [rest[0]] else rest
  }

  /** `Wait` and `Unhook` are critical sections that may leave the current process off the ring; `Exit` is the
      lock taken by the exit; `Yield` is the switch, of the process itself or of the timer; a signal may come from
      the process or from an interrupt. */
  datatype Op = Yield | Wait(s: int, n: int) | Signal(s: int, n: int) | Fork(child: int) | Exit | Unhook

  /** What the kernel's callers keep to: the idle process neither blocks nor exits, a new process is new.  In the
      gap between unhooking and switching only interrupts run; while an exit holds the lock, the exit does too. */
  ghost predicate Enabled(st: Sched, op: Op) {
    && st.ring != [] && !st.phase.Hung?
    && match op
       case Yield => true
       case Signal(s, n) => s in st.sems
       case Wait(s, n) =>
         && (st.phase.OnRing? || st.phase.Leaving?) && s in st.sems
         && (WouldBlock(st.sems[s], n) ==> st.ring[0] != NULLPROC)
       case Fork(child) => st.phase.OnRing? && child !in st.ring && !Waiting(st, child)
       case Exit => st.phase.OnRing? && st.ring[0] != NULLPROC
       case Unhook => st.phase.Leaving?
  }

  /** A signal that has somebody to wake. */
  predicate Wakes(st: Sched, s: int, n: int) {
    s in st.sems && st.sems[s].waiters != [] && n > 0
  }

  /** The steps that never end: anything that wants the lock while the exit holds it, and a signal that has somebody
      to wake while the current process is off the ring, because it looks for the place before that process by
      following the links until they come back to it. */
  predicate Hangs(st: Sched, op: Op) {
    match op
    case Yield => st.phase.Leaving?
    case Wait(_, _) => st.phase.Leaving?
    case Signal(s, n) => st.phase.Leaving? || (st.phase.OffRing? && Wakes(st, s, n))
    case _ => false
  }

  function Names(ws: seq<Waiter>): (r: seq<int>)
    ensures |r| == |ws|
    ensures forall i :: 0 <= i < |ws| ==> r[i] == ws[i].who
  {
    seq(|ws|, i requires 0 <= i < |ws| => ws[i].who)
  }

  ghost function Step(st: Sched, op: Op): Sched
    requires Ok(st) && Enabled(st, op)
  {
    match op
    case Yield =>
      if st.phase.Leaving? then st.(phase := Hung)
      else if st.phase.OffRing? then
        NullIsOther(st);
        Sched(Skip(st.ring[1..]), OnRing, st.sems)
      else st.(ring := Skip(st.ring[1..] + [st.ring[0]]))
    case Wait(s, n) =>
      if st.phase.Leaving? then st.(phase := Hung) else
      var sems := st.sems[s := Semaphores.Wait(st.sems[s], st.ring[0], n)];
      Sched(st.ring, if WouldBlock(st.sems[s], n) then OffRing else OnRing, sems)
    case Signal(s, n) =>
      var ws := st.sems[s].waiters;
      if st.phase.Leaving? then st.(phase := Hung)
      else if Hangs(st, op) then Sched(st.ring, Hung, st.sems[s := Sem(st.sems[s].sem + n, ws)])
      else Sched(st.ring + Names(ws[..Woken(ws, n)]), st.phase, st.sems[s := Semaphores.Signal(st.sems[s], n)])
    case Fork(child) => st.(ring := [st.ring[0], child] + st.ring[1..])
    case Exit => st.(phase := Leaving)
    case Unhook => st.(phase := OffRing)
  }

  lemma NullIsOther(st: Sched)
    requires NULLPROC in st.ring && st.ring[0] != NULLPROC
    ensures NULLPROC in st.ring[1..]
  {
    var i :| 0 <= i < |st.ring| && st.ring[i] == NULLPROC;
    assert st.ring[1..][i - 1] == NULLPROC;
  }

  lemma SkipSame(rest: seq<int>)
    requires rest != [] && Distinct(rest)
    ensures Distinct(Skip(rest))
    ensures forall p :: p in Skip(rest) <==> p in rest
  {
    if rest[0] == NULLPROC {
      assert rest == [rest[0]] + rest[1..];
    }
  }

  lemma Rotated(ring: seq<int>)
    requires ring != [] && Distinct(ring)
    ensures Distinct(ring[1..] + [ring[0]]) && Distinct(ring[1..])
    ensures forall p :: p in ring[1..] + [ring[0]] <==> p in ring
    ensures forall p :: p in ring[1..] <==> p in ring && p != ring[0]
  {
    assert ring == [ring[0]] + ring[1..];
  }

  lemma Appended(ring: seq<int>, more: seq<int>)
    requires Distinct(ring) && Distinct(more) && forall p :: p in more ==> p !in ring
    ensures Distinct(ring + more)
  {
    var all := ring + more;
    forall i, j | 0 <= i < j < |all| ensures all[i] != all[j] {
      if i < |ring| <= j {
        var p, q := ring[i], more[j - |ring|];
        assert p in ring && q in more;
      }
    }
  }

  /** Steps that touch no semaphore keep who waits where. */
  lemma SameWaits(st: Sched, st': Sched)
    requires st'.sems == st.sems
    ensures forall s, p :: s in st.sems ==> (WaitsOn(st', s, p) <==> WaitsOn(st, s, p))
    ensures forall p :: Waiting(st', p) <==> Waiting(st, p)
  {
    assert forall s, p :: s in st.sems ==> (WaitsOn(st', s, p) <==> WaitsOn(st, s, p));
    forall p ensures Waiting(st', p) <==> Waiting(st, p) {
      if s :| s in st.sems && WaitsOn(st, s, p) { assert WaitsOn(st', s, p); }
      if s :| s in st.sems && WaitsOn(st', s, p) { assert WaitsOn(st, s, p); }
    }
  }

  /** Spinning for a lock changes nothing else. */
  lemma SpinStep(st: Sched)
    requires Ok(st) && st.phase.Leaving?
    ensures Ok(st.(phase := Hung)) && forall p :: Waiting(st.(phase := Hung), p) <==> Waiting(st, p)
  {
    SameWaits(st, st.(phase := Hung));
  }

  lemma WaitStep(st: Sched, s: int, n: int)
    requires Ok(st) && Enabled(st, Op.Wait(s, n))
    ensures Ok(Step(st, Op.Wait(s, n)))
  {
    if st.phase.Leaving? {
      SpinStep(st);
      return;
    }
    var st' := Step(st, Op.Wait(s, n));
    if WouldBlock(st.sems[s], n) {
      assert st.ring[0] in st.ring;
      forall t, p | t in st'.sems && WaitsOn(st', t, p)
        ensures (p !in st.ring && WaitsOn(st, t, p)) || (t == s && p == st.ring[0])
      {
        var w :| w in st'.sems[t].waiters && w.who == p;
        if t != s || w in st.sems[s].waiters { assert WaitsOn(st, t, p); }
      }
      forall i, j | 0 <= i < j < |st'.sems[s].waiters|
        ensures st'.sems[s].waiters[i].who != st'.sems[s].waiters[j].who {
        if i == 0 {
          var w := st.sems[s].waiters[j - 1];
          assert w in st.sems[s].waiters;
          assert WaitsOn(st, s, w.who);
        }
      }
    } else {
      assert forall t, p :: t in st.sems ==> (WaitsOn(st', t, p) <==> WaitsOn(st, t, p));
    }
  }

  lemma StillWaiting(ws: seq<Waiter>, k: nat)
    requires ChainDistinct(ws) && k <= |ws|
    ensures forall w :: w in ws[k..] ==> w in ws && w.who !in Names(ws[..k])
  {
    forall w | w in ws[k..] ensures w in ws && w.who !in Names(ws[..k]) {
      var j :| 0 <= j < |ws[k..]| && ws[k..][j] == w;
      assert w == ws[k + j];
    }
  }

  lemma SignalStep(st: Sched, s: int, n: int)
    requires Ok(st) && Enabled(st, Op.Signal(s, n)) && !Hangs(st, Op.Signal(s, n)) && st.phase.OnRing?
    ensures Ok(Step(st, Op.Signal(s, n)))
  {
    var st' := Step(st, Op.Signal(s, n));
    var ws := st.sems[s].waiters;
    var k := Woken(ws, n);
    var names := Names(ws[..k]);
    forall p | p in names ensures p !in st.ring && WaitsOn(st, s, p) {
      var i :| 0 <= i < k && names[i] == p;
      assert ws[i] in ws;
    }
    Appended(st.ring, names);
    StillWaiting(ws, k);
    forall t, p | t in st'.sems && WaitsOn(st', t, p) ensures WaitsOn(st, t, p) && p !in st'.ring {
      var w :| w in st'.sems[t].waiters && w.who == p;
      assert w in st.sems[t].waiters;
    }
  }

  lemma CountOnly(st: Sched, s: int, sem: int, phase: Phase)
    requires s in st.sems
    ensures var st' := Sched(st.ring, phase, st.sems[s := Sem(sem, st.sems[s].waiters)]);
            && (forall t, p :: t in st.sems ==> (WaitsOn(st', t, p) <==> WaitsOn(st, t, p)))
            && (forall p :: Waiting(st', p) <==> Waiting(st, p))
  {
    var st' := Sched(st.ring, phase, st.sems[s := Sem(sem, st.sems[s].waiters)]);
    assert forall t, p :: t in st.sems ==> (WaitsOn(st', t, p) <==> WaitsOn(st, t, p));
    forall p ensures Waiting(st', p) <==> Waiting(st, p) {
      if t :| t in st.sems && WaitsOn(st, t, p) { assert WaitsOn(st', t, p); }
      if t :| t in st'.sems && WaitsOn(st', t, p) { assert WaitsOn(st, t, p); }
    }
  }

  /** A signal that wakes nobody changes the counter and nothing else. */
  lemma QuietSignal(st: Sched, s: int, n: int, phase: Phase)
    requires Ok(st) && s in st.sems && !st.phase.Hung? && (phase == st.phase || (phase.Hung? && MayBeOff(st)))
    ensures var st' := Sched(st.ring, phase, st.sems[s := Sem(st.sems[s].sem + n, st.sems[s].waiters)]);
            && Ok(st') && (forall p :: Waiting(st', p) <==> Waiting(st, p))
            && (!Wakes(st, s, n) ==> Semaphores.Signal(st.sems[s], n) == st'.sems[s])
  {
    hide WaitsOn, Waiting;
    CountOnly(st, s, st.sems[s].sem + n, phase);
  }

  /** Steps that only move the ring, or mark the current process. */
  lemma RingMove(st: Sched, ring: seq<int>, phase: Phase)
    requires Ok(st) && ring != [] && Distinct(ring) && NULLPROC in ring
    requires forall p :: p in ring ==>
        !Waiting(st, p) || (p == ring[0] == st.ring[0] && MayBeOff(st) && (phase.OffRing? || phase.Hung?))
    requires phase.OffRing? || phase.Leaving? ==> ring[0] != NULLPROC
    ensures Ok(Sched(ring, phase, st.sems))
  {
    var st' := Sched(ring, phase, st.sems);
    SameWaits(st, st');
    forall s, p | s in st.sems && WaitsOn(st', s, p) ensures p !in ring || (MayBeOff(st') && p == ring[0]) {
      assert WaitsOn(st, s, p) && Waiting(st, p);
    }
  }

  lemma OnlyCurrentWaits(st: Sched)
    requires Ok(st)
    ensures forall p :: p in st.ring && Waiting(st, p) ==> p == st.ring[0] && MayBeOff(st)
  {
  }

  lemma YieldStep(st: Sched)
    requires Ok(st) && Enabled(st, Yield)
    ensures Ok(Step(st, Yield)) && (Step(st, Yield).phase.Hung? <==> st.phase.Leaving?)
  {
    OnlyCurrentWaits(st);
    Rotated(st.ring);
    if st.phase.OffRing? {
      NullIsOther(st);
      SkipSame(st.ring[1..]);
      RingMove(st, Skip(st.ring[1..]), OnRing);
    } else if st.phase.OnRing? {
      SkipSame(st.ring[1..] + [st.ring[0]]);
      RingMove(st, Skip(st.ring[1..] + [st.ring[0]]), OnRing);
    } else {
      RingMove(st, st.ring, Hung);
    }
  }

  /** Every step, also of an interrupt in the gap, keeps one simple cycle through the idle process, and keeps the
      waiters off it. */
  lemma StepKeepsOk(st: Sched, op: Op)
    requires Ok(st) && Enabled(st, op)
    ensures Ok(Step(st, op))
    ensures Step(st, op).phase.Hung? <==> Hangs(st, op)
  {
    match op
    case Yield => YieldStep(st);
    case Wait(s, n) => WaitStep(st, s, n);
    case Signal(s, n) => AnySignalStep(st, s, n);
    case Fork(child) => MarkStep(st, op);
    case Exit => MarkStep(st, op);
    case Unhook => MarkStep(st, op);
  }

  lemma MarkStep(st: Sched, op: Op)
    requires Ok(st) && Enabled(st, op) && (op.Fork? || op.Exit? || op.Unhook?)
    ensures Ok(Step(st, op)) && !Step(st, op).phase.Hung?
  {
    OnlyCurrentWaits(st);
    Rotated(st.ring);
    RingMove(st, Step(st, op).ring, Step(st, op).phase);
  }

  lemma AnySignalStep(st: Sched, s: int, n: int)
    requires Ok(st) && Enabled(st, Op.Signal(s, n))
    ensures Ok(Step(st, Op.Signal(s, n)))
    ensures Step(st, Op.Signal(s, n)).phase.Hung? <==> Hangs(st, Op.Signal(s, n))
  {
    if st.phase.Leaving? {
      OnlyCurrentWaits(st);
      RingMove(st, st.ring, Hung);
    } else if st.phase.OffRing? {
      QuietSignal(st, s, n, if Wakes(st, s, n) then Hung else OffRing);
      assert st.ring + Names([]) == st.ring;
    } else {
      SignalStep(st, s, n);
    }
  }

  /** The processes of the system: ready, running or waiting. */
  ghost predicate Known(st: Sched, p: int) {
    p in st.ring || Waiting(st, p)
  }

  /** The step with which an exited process disappears: its last switch. */
  ghost predicate Vanishes(st: Sched, op: Op, p: int) {
    op.Yield? && st.phase.OffRing? && st.ring != [] && p == st.ring[0] && !Waiting(st, p)
  }

  lemma WaitPopulation(st: Sched, s: int, n: int, p: int)
    requires Ok(st) && Enabled(st, Op.Wait(s, n))
    ensures Known(Step(st, Op.Wait(s, n)), p) <==> Known(st, p)
  {
    if st.phase.Leaving? {
      SpinStep(st);
      return;
    }
    var st' := Step(st, Op.Wait(s, n));
    if t :| t in st.sems && WaitsOn(st, t, p) {
      var w :| w in st.sems[t].waiters && w.who == p;
      assert w in st'.sems[t].waiters && WaitsOn(st', t, p);
    }
    if t :| t in st'.sems && WaitsOn(st', t, p) {
      var w :| w in st'.sems[t].waiters && w.who == p;
      assert w in st.sems[t].waiters || p == st.ring[0];
    }
  }

  lemma Woke(ws: seq<Waiter>, k: nat, p: int)
    requires k <= |ws|
    ensures (exists w :: w in ws && w.who == p) <==> p in Names(ws[..k]) || exists w :: w in ws[k..] && w.who == p
  {
    assert ws == ws[..k] + ws[k..];
    if w :| w in ws && w.who == p {
      if w in ws[..k] {
        var i :| 0 <= i < k && ws[i] == w;
        assert Names(ws[..k])[i] == p;
      }
    }
    if p in Names(ws[..k]) {
      var i :| 0 <= i < k && Names(ws[..k])[i] == p;
      assert ws[i] in ws;
    }
  }

  lemma SignalPopulation(st: Sched, s: int, n: int, p: int)
    requires Ok(st) && Enabled(st, Op.Signal(s, n)) && st.phase.OnRing?
    ensures Known(Step(st, Op.Signal(s, n)), p) <==> Known(st, p)
  {
    hide Ok, Woken, Names;
    var st' := Step(st, Op.Signal(s, n));
    Woke(st.sems[s].waiters, Woken(st.sems[s].waiters, n), p);
    assert WaitsOn(st, s, p) <==> p in st'.ring[|st.ring|..] || WaitsOn(st', s, p);
    assert forall t :: t in st.sems && t != s ==> (WaitsOn(st', t, p) <==> WaitsOn(st, t, p));
  }

  /** Only fork adds a process and only the last switch of an exited one removes it: no step loses a process, and by
      `Ok` none is both ready and waiting. */
  lemma Population(st: Sched, op: Op, p: int)
    requires Ok(st) && Enabled(st, op)
    ensures Known(Step(st, op), p) <==> (Known(st, p) && !Vanishes(st, op, p)) || (op.Fork? && p == op.child)
  {
    hide Known;
    var st' := Step(st, op);
    match op
    case Wait(s, n) => WaitPopulation(st, s, n, p);
    case Signal(s, n) =>
      if st.phase.OnRing? { SignalPopulation(st, s, n, p); } else { QuietPopulation(st, s, n, p); }
    case _ => RingPopulation(st, op, p);
  }

  lemma QuietPopulation(st: Sched, s: int, n: int, p: int)
    requires Ok(st) && Enabled(st, Op.Signal(s, n)) && !st.phase.OnRing?
    ensures Known(Step(st, Op.Signal(s, n)), p) <==> Known(st, p)
  {
    var st' := Step(st, Op.Signal(s, n));
    if st.phase.Leaving? {
      SameWaits(st, st');
    } else {
      QuietSignal(st, s, n, st'.phase);
    }
  }

  lemma RingPopulation(st: Sched, op: Op, p: int)
    requires Ok(st) && Enabled(st, op) && !op.Wait? && !op.Signal?
    ensures Known(Step(st, op), p) <==> (Known(st, p) && !Vanishes(st, op, p)) || (op.Fork? && p == op.child)
  {
    SameWaits(st, Step(st, op));
    Rotated(st.ring);
    if op.Yield? && !st.phase.Leaving? {
      if st.phase.OffRing? { NullIsOther(st); SkipSame(st.ring[1..]); } else { SkipSame(st.ring[1..] + [st.ring[0]]); }
    }
  }

  // ------------------------------------------------------------ who runs next, and how long others wait

  /** Steps that hand the processor to another process. */
  predicate Switches(st: Sched, op: Op) {
    op.Yield? && !st.phase.Leaving?
  }

  /** A switch chooses the idle process only when nothing else is ready. */
  lemma IdleOnlyWhenAlone(st: Sched, op: Op)
    requires Ok(st) && Enabled(st, op) && Switches(st, op)
    ensures Step(st, op).ring != []
    ensures Step(st, op).ring[0] == NULLPROC ==> Step(st, op).ring == [NULLPROC]
  {
    Rotated(st.ring);
    if st.phase.OffRing? {
      NullIsOther(st);
      SkipSame(st.ring[1..]);
    } else {
      SkipSame(st.ring[1..] + [st.ring[0]]);
    }
  }

  ghost function Distance(ring: seq<int>, p: int): (i: nat)
    requires p in ring
    ensures i < |ring| && ring[i] == p
  {
    var i :| 0 <= i < |ring| && ring[i] == p;
    i
  }

  lemma DistanceIs(ring: seq<int>, p: int, i: nat)
    requires Distinct(ring) && i < |ring| && ring[i] == p
    ensures p in ring && Distance(ring, p) == i
  {
  }

  /** A ready process other than the current and the idle one comes strictly closer at every switch,
      does not move when others wait or are woken, and is pushed back by at most one place per fork. */
  lemma Closer(st: Sched, op: Op, p: int)
    requires Ok(st) && Enabled(st, op)
    requires p in st.ring && p != NULLPROC && st.ring[0] != p
    ensures Ok(Step(st, op)) && p in Step(st, op).ring
    ensures Switches(st, op) ==> Distance(Step(st, op).ring, p) < Distance(st.ring, p)
    ensures op.Fork? ==> Distance(Step(st, op).ring, p) == Distance(st.ring, p) + 1
    ensures !Switches(st, op) && !op.Fork? ==> Distance(Step(st, op).ring, p) == Distance(st.ring, p)
  {
    StepKeepsOk(st, op);
    var st' := Step(st, op);
    var i := Distance(st.ring, p);
    match op
    case Yield =>
      if st.phase.OffRing? { SkipNearer(st.ring[1..], p, i - 1); }
      else if st.phase.OnRing? { SkipNearer(st.ring[1..] + [st.ring[0]], p, i - 1); }
    case Fork(child) => DistanceIs(st'.ring, p, i + 1);
    case _ => DistanceIs(st'.ring, p, i);
  }

  /** Whoever is woken runs after everybody who is ready, in the order of the chain. */
  lemma WokenRunLast(st: Sched, s: int, n: int, i: nat)
    requires Ok(st) && Enabled(st, Op.Signal(s, n)) && st.phase.OnRing? && i < Woken(st.sems[s].waiters, n)
    ensures var ring, who := Step(st, Op.Signal(s, n)).ring, st.sems[s].waiters[i].who;
            who in ring && Distance(ring, who) == |st.ring| + i
  {
    StepKeepsOk(st, Op.Signal(s, n));
    DistanceIs(Step(st, Op.Signal(s, n)).ring, st.sems[s].waiters[i].who, |st.ring| + i);
  }

  lemma SkipNearer(rest: seq<int>, p: int, j: nat)
    requires j < |rest| && rest[j] == p && p != NULLPROC && Distinct(Skip(rest))
    ensures p in Skip(rest) && Distance(Skip(rest), p) <= j
  {
    if rest[0] == NULLPROC {
      assert rest[1..][j - 1] == p;
      DistanceIs(Skip(rest), p, j - 1);
    } else {
      DistanceIs(Skip(rest), p, j);
    }
  }

  // ------------------------------------------------------------ runs

  ghost predicate Runs(st: Sched, ops: seq<Op>)
    requires Ok(st)
    decreases |ops|
  {
    ops == [] || (Enabled(st, ops[0]) && (StepKeepsOk(st, ops[0]); Runs(Step(st, ops[0]), ops[1..])))
  }

  ghost function End(st: Sched, ops: seq<Op>): Sched
    requires Ok(st) && Runs(st, ops)
    decreases |ops|
  {
    if ops == [] then st else (StepKeepsOk(st, ops[0]); End(Step(st, ops[0]), ops[1..]))
  }

  /** In every reachable state, whatever interrupts do in the gaps, the ring is one simple cycle through the idle
      process, and every waiting process is off it, on exactly one chain, once. */
  lemma {:induction false} RunKeepsOk(st: Sched, ops: seq<Op>)
    requires Ok(st) && Runs(st, ops)
    ensures Ok(End(st, ops))
    decreases |ops|
  {
    if ops != [] {
      StepKeepsOk(st, ops[0]);
      RunKeepsOk(Step(st, ops[0]), ops[1..]);
    }
  }

  /** The process is not current in any state of the run before its end. */
  ghost predicate NeverCurrent(st: Sched, ops: seq<Op>, p: int)
    requires Ok(st) && Runs(st, ops)
    decreases |ops|
  {
    && (st.ring != [] ==> st.ring[0] != p)
    && (ops != [] ==> (StepKeepsOk(st, ops[0]); NeverCurrent(Step(st, ops[0]), ops[1..], p)))
  }

  ghost function SwitchCount(st: Sched, ops: seq<Op>): nat
    requires Ok(st) && Runs(st, ops)
    decreases |ops|
  {
    if ops == [] then 0
    else
      StepKeepsOk(st, ops[0]);
      (if Switches(st, ops[0]) then 1 else 0) + SwitchCount(Step(st, ops[0]), ops[1..])
  }

  function ForkCount(ops: seq<Op>): nat {
    if ops == [] then 0 else (if ops[0].Fork? then 1 else 0) + ForkCount(ops[1..])
  }

  /** Bounded waiting: while a ready process waits for its turn, there are at most as many switches as its
      distance in the ring plus the number of processes forked meanwhile. */
  lemma {:induction false} BoundedWaiting(st: Sched, ops: seq<Op>, p: int)
    requires Ok(st) && Runs(st, ops) && p in st.ring && p != NULLPROC && NeverCurrent(st, ops, p)
    ensures Ok(End(st, ops)) && p in End(st, ops).ring
    ensures Distance(End(st, ops).ring, p) + SwitchCount(st, ops) <= Distance(st.ring, p) + ForkCount(ops)
    decreases |ops|
  {
    if ops != [] {
      Closer(st, ops[0], p);
      BoundedWaiting(Step(st, ops[0]), ops[1..], p);
    }
  }

  lemma {:induction false} RunsSplit(st: Sched, ops: seq<Op>)
    requires Ok(st) && Runs(st, ops) && ops != []
    ensures var front, last := ops[..|ops| - 1], ops[|ops| - 1];
            && Runs(st, front) && Ok(End(st, front)) && Enabled(End(st, front), last)
            && End(st, ops) == Step(End(st, front), last)
    decreases |ops|
  {
    hide Step, Enabled, Ok;
    var front, last := ops[..|ops| - 1], ops[|ops| - 1];
    StepKeepsOk(st, ops[0]);
    if |ops| > 1 {
      RunsSplit(Step(st, ops[0]), ops[1..]);
      assert ops[1..][..|ops| - 2] == front[1..] && front[0] == ops[0] && ops[1..][|ops| - 2] == last;
    } else {
      assert front == [];
    }
  }

  /** The exact condition for the kernel to hang, over all runs: its last step wanted the lock that an exit holds, or
      signalled somebody awake in the gap between unhooking and switching. */
  lemma HungIff(st: Sched, ops: seq<Op>)
    requires Ok(st) && Runs(st, ops) && !st.phase.Hung?
    ensures ops != [] ==> Runs(st, ops[..|ops| - 1])
    ensures End(st, ops).phase.Hung? <==> ops != [] && Hangs(End(st, ops[..|ops| - 1]), ops[|ops| - 1])
  {
    hide Step, Enabled, Ok, Hangs;
    if ops != [] {
      RunsSplit(st, ops);
      StepKeepsOk(End(st, ops[..|ops| - 1]), ops[|ops| - 1]);
    }
  }

  /** An interrupt that signals the semaphore of process 2 just after process 1 has blocked hangs the kernel. */
  lemma InterruptInTheGap()
    ensures var st := Sched([1, NULLPROC], OnRing, map[5 := Sem(-1, [Waiter(2, 1)]), 6 := Init(0)]);
            && Ok(st) && Enabled(st, Op.Wait(6, 1)) && Ok(Step(st, Op.Wait(6, 1)))
            && Enabled(Step(st, Op.Wait(6, 1)), Op.Signal(5, 1))
            && Step(Step(st, Op.Wait(6, 1)), Op.Signal(5, 1)).phase.Hung?
  {
    var st := Sched([1, NULLPROC], OnRing, map[5 := Sem(-1, [Waiter(2, 1)]), 6 := Init(0)]);
    StepKeepsOk(st, Op.Wait(6, 1));
  }

  /** No interrupt is needed: the exit drops its descriptors with the lock held, and the last one of a pipe signals, or
      one of a mounted connection waits. */
  lemma ExitHangsItself(st: Sched, s: int, n: int)
    requires Ok(st) && Enabled(st, Exit) && s in st.sems
    ensures var t := Step(st, Exit);
            && Ok(t) && Enabled(t, Op.Signal(s, n)) && Step(t, Op.Signal(s, n)).phase.Hung?
            && Enabled(t, Op.Wait(s, n)) && Step(t, Op.Wait(s, n)).phase.Hung?
  {
    StepKeepsOk(st, Exit);
  }

  /** A semaphore that is waited on one unit at a time keeps as many waiters as it owes units. */
  lemma {:induction false} RunKeepsUnits(st: Sched, ops: seq<Op>, s: int)
    requires Ok(st) && Runs(st, ops) && s in st.sems && (!st.phase.Hung? ==> UnitOk(st.sems[s]))
    requires forall op :: op in ops && op.Wait? && op.s == s ==> op.n == 1
    requires forall op :: op in ops && op.Signal? && op.s == s ==> op.n >= 0
    ensures s in End(st, ops).sems && (!End(st, ops).phase.Hung? ==> UnitOk(End(st, ops).sems[s]))
    decreases |ops|
  {
    if ops != [] {
      var op := ops[0];
      assert op in ops;
      StepKeepsOk(st, op);
      if op.Wait? && op.s == s { UnitWait(st.sems[s], st.ring[0]); }
      if op.Signal? && op.s == s { UnitSignal(st.sems[s], op.n); }
      RunKeepsUnits(Step(st, op), ops[1..], s);
    }
  }
}
