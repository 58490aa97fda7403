/** The counting semaphores of src/multitask.c:156-223 as values.

  `waiters` is the chain that starts at the semaphore's waiter pointer: the most
  recent waiter comes first and is the first to be woken. */
module Semaphores {
  datatype Waiter = Waiter(who: int, units: int)
  datatype Sem = Sem(sem: int, waiters: seq<Waiter>)

  function Init(n: int): Sem {
    Sem(n, [])
  }

  predicate WouldBlock(s: Sem, n: int) {
    s.sem - n < 0
  }

  function Wait(s: Sem, who: int, n: int): Sem {
    if WouldBlock(s, n) then Sem(s.sem - n, [Waiter(who, n)] + s.waiters) else Sem(s.sem - n, s.waiters)
  }

  /** How many waiters a signal of `n` units wakes: each takes what it asked for, whatever is left. */
  function Woken(ws: seq<Waiter>, n: int): (k: nat)
    ensures k <= |ws|
  {
    if ws == [] || n <= 0 then 0 else 1 + Woken(ws[1..], n - ws[0].units)
  }

  function Signal(s: Sem, n: int): Sem {
    Sem(s.sem + n, s.waiters[Woken(s.waiters, n)..])
  }

  /** Every waiter asked for one unit and there are exactly as many of them as units are owed. */
  ghost predicate UnitOk(s: Sem) {
    && (forall w :: w in s.waiters ==> w.units == 1)
    && |s.waiters| == if s.sem < 0 then -s.sem else 0
  }

  lemma {:induction false} UnitWoken(ws: seq<Waiter>, n: int)
    requires forall w :: w in ws ==> w.units == 1
    ensures Woken(ws, n) == if n <= 0 then 0 else if n <= |ws| then n else |ws|
  {
    if ws != [] && n > 0 {
      assert ws[0] in ws;
      UnitWoken(ws[1..], n - 1);
    }
  }

  lemma UnitWait(s: Sem, who: int)
    requires UnitOk(s)
    ensures UnitOk(Wait(s, who, 1))
  {
  }

  lemma UnitSignal(s: Sem, n: nat)
    requires UnitOk(s)
    ensures UnitOk(Signal(s, n))
  {
    UnitWoken(s.waiters, n);
    var k := Woken(s.waiters, n);
    forall w | w in s.waiters[k..] ensures w.units == 1 {
      assert w in s.waiters;
    }
  }

  // ------------------------------------------------------------ runs of one semaphore

  datatype Event = Waited(who: int, n: int) | Signalled(units: nat)

  function After(s: Sem, es: seq<Event>): Sem {
    if es == [] then s
    else
      var t := After(s, es[..|es| - 1]);
      match es[|es| - 1]
      case Waited(who, n) => Wait(t, who, n)
      case Signalled(n) => Signal(t, n)
  }

  function Waits(es: seq<Event>): nat {
    if es == [] then 0 else Waits(es[..|es| - 1]) + if es[|es| - 1].Waited? then 1 else 0
  }

  function Units(es: seq<Event>): nat {
    if es == [] then 0 else Units(es[..|es| - 1]) + if es[|es| - 1].Signalled? then es[|es| - 1].units else 0
  }

  /** With unit waits no wakeup is lost or duplicated: after any run, the waits that have
      completed are exactly as many as there were units for. */
  lemma {:induction false} NoWakeupLost(start: nat, es: seq<Event>)
    requires forall e :: e in es && e.Waited? ==> e.n == 1
    ensures UnitOk(After(Init(start), es))
    ensures After(Init(start), es).sem == start + Units(es) - Waits(es)
    ensures Waits(es) - |After(Init(start), es).waiters| ==
      if Waits(es) <= start + Units(es) then Waits(es) else start + Units(es)
  {
    if es != [] {
      var before, e := es[..|es| - 1], es[|es| - 1];
      assert e in es;
      NoWakeupLost(start, before);
      match e
      case Waited(who, n) => UnitWait(After(Init(start), before), who);
      case Signalled(n) => UnitSignal(After(Init(start), before), n);
    }
  }

  // ------------------------------------------------------------ waits for several units

  function Total(ws: seq<Waiter>): int {
    if ws == [] then 0 else ws[0].units + Total(ws[1..])
  }

  /** The units that nobody has taken: what the counter says, plus what those who still wait have taken off it. */
  function Spare(s: Sem): int {
    s.sem + Total(s.waiters)
  }

  ghost predicate Sizes(ws: seq<Waiter>) {
    forall w :: w in ws ==> w.units >= 0
  }

  lemma {:induction false} TotalSplit(ws: seq<Waiter>, k: nat)
    requires k <= |ws|
    ensures Total(ws) == Total(ws[..k]) + Total(ws[k..])
  {
    if k > 0 {
      TotalSplit(ws[1..], k - 1);
      assert ws[..k][1..] == ws[1..][..k - 1] && ws[1..][k - 1..] == ws[k..];
    }
  }

  lemma {:induction false} TotalGrows(ws: seq<Waiter>, i: nat, j: nat)
    requires Sizes(ws) && i <= j <= |ws|
    ensures 0 <= Total(ws[..i]) <= Total(ws[..j])
    decreases j
  {
    if j > 0 {
      TotalSplit(ws[..j], j - 1);
      assert ws[..j][..j - 1] == ws[..j - 1] && ws[..j][j - 1..] == [ws[j - 1]];
      assert Total([ws[j - 1]]) == ws[j - 1].units + Total([ws[j - 1]][1..]);
      assert ws[j - 1] in ws;
      TotalGrows(ws, if i < j then i else j - 1, j - 1);
    }
  }

  /** Everybody woken but the last one asked, together with those before, for less than the signal brought; the last
      one, unless the chain ran out, for the rest or more. */
  lemma {:induction false} WokenReach(ws: seq<Waiter>, n: int)
    requires Sizes(ws)
    ensures var k := Woken(ws, n);
            && (forall j :: 0 <= j < k ==> Total(ws[..j]) < n)
            && (k < |ws| ==> Total(ws[..k]) >= n)
  {
    var k := Woken(ws, n);
    if ws != [] && n > 0 {
      assert forall w :: w in ws[1..] ==> w in ws;
      WokenReach(ws[1..], n - ws[0].units);
      forall j | 0 <= j < k ensures Total(ws[..j]) < n {
        if j > 0 { assert ws[..j][1..] == ws[1..][..j - 1]; }
      }
      assert ws[..k][1..] == ws[1..][..k - 1];
    }
  }

  /** The waiter at place `j` of the chain has its units when it is woken, after those before it have theirs. */
  predicate Covered(s: Sem, n: int, j: nat)
    requires j < |s.waiters|
  {
    Total(s.waiters[..j + 1]) <= Spare(s) + n
  }

  /** Which waiters a signal wakes without having their units: none but the last one it wakes, and that one exactly if
      the units asked for by all it wakes exceed the signal by more than there was to spare. */
  lemma OnlyLastUncovered(s: Sem, n: nat, j: nat)
    requires Sizes(s.waiters) && Spare(s) >= 0 && j < Woken(s.waiters, n)
    ensures var k := Woken(s.waiters, n);
            !Covered(s, n, j) <==> j == k - 1 && Total(s.waiters[..k]) - n > Spare(s)
  {
    WokenReach(s.waiters, n);
    var k := Woken(s.waiters, n);
    if j < k - 1 {
      assert Total(s.waiters[..j + 1]) < n;
    }
  }

  /** What a signal leaves to spare; below zero, somebody runs without the units it asked for. */
  lemma SignalSpares(s: Sem, n: int)
    ensures Spare(Signal(s, n)) == Spare(s) + n - Total(s.waiters[..Woken(s.waiters, n)])
  {
    TotalSplit(s.waiters, Woken(s.waiters, n));
  }

  lemma WaitSpares(s: Sem, who: int, n: int)
    ensures Spare(Wait(s, who, n)) == if WouldBlock(s, n) then Spare(s) else Spare(s) - n
  {
  }

  /** The units of the waits of a run that have completed, each when it found them or was woken. */
  function Granted(start: int, es: seq<Event>): int {
    if es == [] then 0
    else
      var s, e := After(Init(start), es[..|es| - 1]), es[|es| - 1];
      Granted(start, es[..|es| - 1])
        + match e
          case Waited(_, n) => if WouldBlock(s, n) then 0 else n
          case Signalled(n) => Total(s.waiters[..Woken(s.waiters, n)])
  }

  /** Conservation: in every run, what is to spare is what there was, plus what was signalled, minus what was
      granted. */
  lemma {:induction false} SpareIsLeft(start: int, es: seq<Event>)
    ensures Spare(After(Init(start), es)) == start + Units(es) - Granted(start, es)
  {
    if es != [] {
      var s, e := After(Init(start), es[..|es| - 1]), es[|es| - 1];
      SpareIsLeft(start, es[..|es| - 1]);
      match e
      case Waited(who, n) => WaitSpares(s, who, n);
      case Signalled(n) => SignalSpares(s, n);
    }
  }

  /** The signal overshoots: it wakes for more units than it brings and than there are to spare. */
  predicate Overshoots(s: Sem, e: Event) {
    e.Signalled? && Total(s.waiters[..Woken(s.waiters, e.units)]) - e.units > Spare(s)
  }

  lemma {:induction false} RunSizes(start: nat, es: seq<Event>)
    requires forall e :: e in es && e.Waited? ==> e.n >= 0
    ensures Sizes(After(Init(start), es).waiters)
  {
    if es != [] {
      var s, e := After(Init(start), es[..|es| - 1]), es[|es| - 1];
      assert e in es;
      RunSizes(start, es[..|es| - 1]);
      if e.Signalled? {
        var k := Woken(s.waiters, e.units);
        assert forall w :: w in s.waiters[k..] ==> w in s.waiters;
      }
    }
  }

  /** After the first `i` events, everything granted was there to grant. */
  predicate CoveredAt(start: int, es: seq<Event>, i: nat)
    requires i <= |es|
  {
    Granted(start, es[..i]) <= start + Units(es[..i])
  }

  predicate OvershootsAt(start: int, es: seq<Event>, i: nat)
    requires i < |es|
  {
    Overshoots(After(Init(start), es[..i]), es[i])
  }

  /** Over all runs with waits for any number of units: at every point everything granted was there to grant, iff no
      signal of the run overshoots. */
  lemma {:induction false} GrantsCoveredIff(start: nat, es: seq<Event>)
    requires forall e :: e in es && e.Waited? ==> e.n >= 0
    ensures (forall i :: 0 <= i <= |es| ==> CoveredAt(start, es, i))
            <==> forall i :: 0 <= i < |es| ==> !OvershootsAt(start, es, i)
  {
    if es != [] {
      var front, last := es[..|es| - 1], |es| - 1;
      GrantsCoveredIff(start, front);
      forall i | 0 <= i <= last ensures CoveredAt(start, es, i) <==> CoveredAt(start, front, i) {
        assert es[..i] == front[..i];
      }
      forall i | 0 <= i < last ensures OvershootsAt(start, es, i) <==> OvershootsAt(start, front, i) {
        assert es[..i] == front[..i];
      }
      if CoveredAt(start, es, last) {
        NextCovered(start, es);
      }
    }
  }

  lemma NextCovered(start: nat, es: seq<Event>)
    requires es != [] && CoveredAt(start, es, |es| - 1) && forall e :: e in es && e.Waited? ==> e.n >= 0
    ensures CoveredAt(start, es, |es|) <==> !OvershootsAt(start, es, |es| - 1)
  {
    hide Overshoots, Granted;
    var front, e := es[..|es| - 1], es[|es| - 1];
    var s := After(Init(start), front);
    assert es[..|es|] == es && e in es;
    SpareIsLeft(start, front);
    SpareIsLeft(start, es);
    RunSizes(start, front);
    StepCovered(s, e);
    OnlySignalsOvershoot(s, e);
  }

  lemma OnlySignalsOvershoot(s: Sem, e: Event)
    ensures Overshoots(s, e) ==> e.Signalled?
  {
  }

  /** One event keeps what is to spare at zero or above iff it does not overshoot. */
  lemma StepCovered(s: Sem, e: Event)
    requires Sizes(s.waiters) && Spare(s) >= 0 && (e.Waited? ==> e.n >= 0)
    ensures match e
            case Waited(who, n) => Spare(Wait(s, who, n)) >= 0
            case Signalled(n) => Spare(Signal(s, n)) >= 0 <==> !Overshoots(s, e)
  {
    match e
    case Waited(who, n) =>
      WaitSpares(s, who, n);
      TotalGrows(s.waiters, 0, |s.waiters|);
      assert s.waiters[..|s.waiters|] == s.waiters;
    case Signalled(n) => SignalSpares(s, n);
  }

  /** One waiter that asked for 5 units of a semaphore holding 3 is woken by a signal of 1,
      although one unit is still missing: the signal overshoots. */
  lemma EarlyWake()
    ensures var s := Wait(Init(3), 7, 5);
            && Overshoots(s, Signalled(1)) && Signal(s, 1).waiters == [] && Spare(Signal(s, 1)) == -1
  {
    var s := Wait(Init(3), 7, 5);
    assert Woken(s.waiters, 1) == 1 && s.waiters[..1] == s.waiters;
  }

  /** The waiter that came last is woken first. */
  lemma LastComeFirst(s: Sem, who: int, n: int, m: int)
    requires WouldBlock(s, n) && m > 0
    ensures var t := Wait(s, who, n); t.waiters[0] == Waiter(who, n) && Woken(t.waiters, m) >= 1
  {
  }

  /** The run in which process `a` waits for a unit, and then `n` times another process does and one is signalled. */
  function Overtaking(a: int, b: int, n: nat): seq<Event> {
    if n == 0 then [Waited(a, 1)] else Overtaking(a, b, n - 1) + [Waited(b, 1), Signalled(1)]
  }

  /** So no number of units is enough for a waiter to come through, as long as others wait after it. */
  lemma {:induction false} NeverItsTurn(a: int, b: int, n: nat)
    ensures After(Init(0), Overtaking(a, b, n)) == Sem(-1, [Waiter(a, 1)])
    ensures Units(Overtaking(a, b, n)) == n
  {
    var es := Overtaking(a, b, n);
    if n == 0 {
      assert es[..0] == [];
    } else {
      NeverItsTurn(a, b, n - 1);
      var front := Overtaking(a, b, n - 1);
      var mid := front + [Waited(b, 1)];
      assert es[..|es| - 1] == mid && mid[..|mid| - 1] == front;
      var ws := [Waiter(b, 1), Waiter(a, 1)];
      assert After(Init(0), mid) == Sem(-2, ws);
      assert Woken(ws, 1) == 1 && ws[1..] == [Waiter(a, 1)];
    }
  }
}
