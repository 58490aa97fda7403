/** The mount RPC of src/fs/mnt.c:43-49, 83-177 and 220-247 as interleaved steps of any number of client
  processes and one server process.

  A client is named by its fid.  Clients and server meet through the counting semaphores `ready`, `hasmsg`
  and one `done` per message, and through the single slot `msg`; any process can be preempted between any
  two steps. */
module MountProtocol {
  import opened Basics
  import opened Semaphores
  import opened Wire

  const SERVER := 0

  datatype Client =
    | CIdle
    | CCall(req: Req)       // about to wait for `ready`
    | CWaitReady(req: Req)  // in that wait
    | COwn(req: Req)        // may write the slot
    | CSet(req: Req)        // has written it, about to signal `hasmsg`
    | CSent(req: Req)       // about to wait for its own `done`
    | CWaitDone(req: Req)   // in that wait

  datatype Server =
    | SIdle
    | SReady(len: nat)   // in a read with nothing under way: about to signal `ready`
    | SWant(len: nat)    // about to wait for `hasmsg`
    | SWait(len: nat)    // in that wait
    | SEncode(len: nat)  // about to deliver the next piece of the message in the slot
    | SDone(c: int)      // has unlinked and answered c's message, about to signal its `done`

  /** Who the slot belongs to; a history variable, the kernel has no such field. */
  datatype Slot = Closed | Offered | Claimed(c: int) | Posted(c: int) | Delivering(c: int)

  datatype Event =
    | Called(c: int, req: Req)
    | Delivered(bytes: seq<byte>)    // a whole message has gone to the server process
    | Answered(fid: int, ret: int)   // the server process answered this fid
    | Returned(c: int, ret: int)

  /** `lost` are the clients whose message a read took over and forgot; a history variable like `slot`, `part` and
      `log`. */
  datatype Sys = Sys(ready: Sem, hasmsg: Sem, done: map<int, Sem>, msg: int, read: nat, queue: seq<int>,
                     cl: map<int, Client>, ret: map<int, int>, sv: Server,
                     slot: Slot, part: seq<byte>, log: seq<Event>, lost: set<int>)

  function Start(fids: set<int>): Sys {
    Sys(Init(0), Init(0), map c | c in fids :: Init(0), 0, 0, [], map c | c in fids :: CIdle, map c | c in fids :: 0,
        SIdle, Closed, [], [], {})
  }

  // ------------------------------------------------------------ steps

  datatype Action =
    | Call(c: int, req: Req)
    | ClientStep(c: int)
    | ServerRead(len: nat)
    | ServerReply(buf: seq<byte>)
    | ServerStep

  predicate ClientCan(s: Sys, c: int) {
    && c in s.cl && c in s.done && c in s.ret
    && match s.cl[c]
       case CIdle => false
       case CWaitReady(_) => Waiter(c, 1) !in s.ready.waiters
       case CWaitDone(_) => Waiter(c, 1) !in s.done[c].waiters
       case _ => true
  }

  predicate ServerCan(s: Sys) {
    match s.sv
    case SIdle => false
    case SWait(_) => s.hasmsg.waiters == []
    case SEncode(_) => s.msg in s.cl && !s.cl[s.msg].CIdle?
    case SDone(c) => c in s.done
    case _ => true
  }

  predicate Enabled(s: Sys, a: Action) {
    match a
    case Call(c, req) => c in s.cl && s.cl[c].CIdle? && ReqOk(req) && req.fid == c
    case ClientStep(c) => ClientCan(s, c)
    case ServerRead(len) => s.sv.SIdle? && len < W32
    case ServerReply(_) => s.sv.SIdle?
    case ServerStep => ServerCan(s)
  }

  function Back(s: Sys, c: int): Sys
    requires ClientCan(s, c)
  {
    s.(cl := s.cl[c := CIdle], log := s.log + [Returned(c, s.ret[c])])
  }

  /** One step of `sendmsg`. */
  function ClientMove(s: Sys, c: int): Sys
    requires ClientCan(s, c)
  {
    match s.cl[c]
    case CCall(r) =>
      if WouldBlock(s.ready, 1) then s.(ready := Wait(s.ready, c, 1), cl := s.cl[c := CWaitReady(r)])
      else s.(ready := Wait(s.ready, c, 1), cl := s.cl[c := COwn(r)], slot := Claimed(c))
    case CWaitReady(r) => s.(cl := s.cl[c := COwn(r)])
    case COwn(r) => s.(msg := c, cl := s.cl[c := CSet(r)])
    case CSet(r) => s.(hasmsg := Signal(s.hasmsg, 1), cl := s.cl[c := CSent(r)], slot := Posted(c))
    case CSent(r) =>
      var t := s.(done := s.done[c := Wait(s.done[c], c, 1)]);
      if WouldBlock(s.done[c], 1) then t.(cl := s.cl[c := CWaitDone(r)]) else Back(s, c).(done := t.done)
    case CWaitDone(_) => Back(s, c)
  }

  /** The place of a fid in the chain of delivered messages, or its length. */
  function Find(q: seq<int>, fid: int): (k: nat)
    ensures k <= |q| && (k < |q| ==> q[k] == fid) && (k == |q| ==> fid !in q)
  {
    if q == [] || q[0] == fid then 0 else 1 + Find(q[1..], fid)
  }

  /** `MSWRITE` up to the signal. */
  function Reply(s: Sys, buf: seq<byte>): Sys {
    if |buf| != 12 then s
    else
      var fid := Signed(Get32(buf), W32);
      var k := Find(s.queue, fid);
      if k == |s.queue| then s
      else
        var ret := Signed(Get64(buf[4..]), W64);
        s.(queue := s.queue[..k] + s.queue[k + 1..], ret := s.ret[fid := ret], sv := SDone(fid),
           log := s.log + [Answered(fid, ret)])
  }

  function ReqOf(c: Client): Req
    requires !c.CIdle?
  {
    c.req
  }

  /** The piece `MSREAD` delivers; with the last one the message joins the chain.  If nothing went out yet, the next
      read will ask for another message. */
  function Deliver(s: Sys, len: nat): Sys
    requires s.msg in s.cl && !s.cl[s.msg].CIdle?
  {
    var m := ReqOf(s.cl[s.msg]);
    var c := Encode(m, s.read, len);
    if c.read == |Frame(m)|
    then s.(sv := SIdle, read := 0, queue := [s.msg] + s.queue, slot := Closed, part := [],
            log := s.log + [Delivered(s.part + c.out)])
    else if c.read == 0 then s.(sv := SIdle, slot := Closed, lost := s.lost + {s.msg})
    else s.(sv := SIdle, read := c.read, part := s.part + c.out)
  }

  function Taken(slot: Slot): Slot {
    if slot.Posted? then Delivering(slot.c) else slot
  }

  function ServerMove(s: Sys): Sys
    requires ServerCan(s)
  {
    match s.sv
    case SReady(len) =>
      s.(ready := Signal(s.ready, 1), sv := SWant(len),
         slot := if s.ready.waiters == [] then Offered else Claimed(s.ready.waiters[0].who))
    case SWant(len) =>
      if WouldBlock(s.hasmsg, 1) then s.(hasmsg := Wait(s.hasmsg, SERVER, 1), sv := SWait(len))
      else s.(hasmsg := Wait(s.hasmsg, SERVER, 1), sv := SEncode(len), slot := Taken(s.slot))
    case SWait(len) => s.(sv := SEncode(len), slot := Taken(s.slot))
    case SEncode(len) => Deliver(s, len)
    case SDone(c) => s.(done := s.done[c := Signal(s.done[c], 1)], sv := SIdle)
  }

  function Do(s: Sys, a: Action): Sys
    requires Enabled(s, a)
  {
    match a
    case Call(c, req) => s.(cl := s.cl[c := CCall(req)], log := s.log + [Called(c, req)])
    case ClientStep(c) => ClientMove(s, c)
    case ServerRead(len) => s.(sv := if s.read == 0 then SReady(len) else SEncode(len))
    case ServerReply(buf) => Reply(s, buf)
    case ServerStep => ServerMove(s)
  }

  // ------------------------------------------------------------ what a client is promised

  /** Where one client's call stands according to the log alone; `Bad` once anything is out of turn: a message
      delivered twice, not at all or not as it was sent, a result that is not the one its fid was answered with. */
  datatype Phase = Quiet | Asked(req: Req) | Told(req: Req) | Replied(ret: int) | Bad

  function Next(p: Phase, e: Event, c: int): Phase {
    match e
    case Called(f, req) => if f != c then p else if p.Quiet? then Asked(req) else Bad
    case Delivered(bytes) =>
      if |bytes| < 8 || Signed(Get32(bytes[4..]), W32) != c then p
      else if p.Asked? && bytes == Frame(p.req) then Told(p.req) else Bad
    case Answered(f, ret) => if f != c then p else if p.Told? then Replied(ret) else Bad
    case Returned(f, ret) => if f != c then p else if p == Replied(ret) then Quiet else Bad
  }

  function Story(log: seq<Event>, c: int): Phase {
    if log == [] then Quiet else Next(Story(log[..|log| - 1], c), log[|log| - 1], c)
  }

  // ------------------------------------------------------------ the invariant

  /** All that one client's part of the invariant depends on. */
  datatype View = View(p: Client, done: Sem, ret: int, story: Phase,
                       claimed: bool, inSlot: bool, queued: bool, answering: bool, lost: bool, waits: bool, mine: bool)

  function See(s: Sys, c: int): View {
    View(if c in s.cl then s.cl[c] else CIdle, if c in s.done then s.done[c] else Init(0),
         if c in s.ret then s.ret[c] else 0,
         Story(s.log, c), s.slot == Claimed(c), s.slot == Posted(c) || s.slot == Delivering(c), c in s.queue,
         s.sv == SDone(c), c in s.lost, Waiter(c, 1) in s.ready.waiters, s.msg == c)
  }

  predicate Sent(p: Client) {
    p.CSent? || p.CWaitDone?
  }

  /** No one but the client itself has its message. */
  predicate Away(v: View) {
    !v.inSlot && !v.queued && !v.answering && !v.lost
  }

  /** Where a sent message is: in the slot, in the chain, being answered, lost, or answered and signalled. */
  function DoneSem(v: View, c: int): Sem {
    if Sent(v.p) && Away(v) then Sem(if v.p.CSent? then 1 else 0, [])
    else if v.p.CWaitDone? then Sem(-1, [Waiter(c, 1)]) else Sem(0, [])
  }

  function Expected(v: View): Phase {
    if v.p.CIdle? then Quiet
    else if !Sent(v.p) || v.inSlot || v.lost then Asked(v.p.req)
    else if v.queued then Told(v.p.req) else Replied(v.ret)
  }

  predicate ViewOk(v: View, c: int) {
    && v.done == DoneSem(v, c)
    && v.story == Expected(v)
    && (!v.p.CIdle? ==> ReqOk(v.p.req) && v.p.req.fid == c)
    && (!Sent(v.p) ==> Away(v))
    && (v.queued ==> !v.inSlot && !v.answering)
    && (v.inSlot ==> v.mine && !v.answering)
    && (v.lost ==> !v.inSlot && !v.queued && !v.answering)
    && (v.claimed ==> v.p.CWaitReady? || v.p.COwn? || v.p.CSet?)
    && (v.p.COwn? || v.p.CSet? ==> v.claimed)
    && (v.p.CSet? ==> v.mine)
    && (v.waits <==> v.p.CWaitReady? && !v.claimed)
  }

  ghost predicate ClientOk(s: Sys, c: int) {
    c in s.done && c in s.ret && Int32(c) && ViewOk(See(s, c), c)
  }

  /** The two shared semaphores, told from the slot. */
  ghost predicate SemsOk(s: Sys) {
    && UnitOk(s.ready)
    && (if s.slot == Offered then s.ready == Sem(1, []) else s.ready.sem <= 0)
    && (forall i, j :: 0 <= i < j < |s.ready.waiters| ==> s.ready.waiters[i] != s.ready.waiters[j])
    && (forall w :: w in s.ready.waiters ==> w.who in s.cl)
    && s.hasmsg == (if s.sv.SWait? && !s.slot.Posted? then Sem(-1, [Waiter(SERVER, 1)])
                    else if s.sv.SWant? && s.slot.Posted? then Sem(1, []) else Sem(0, []))
  }

  /** The slot, told from the server: at most one owner from `ready` to full delivery. */
  ghost predicate SlotOk(s: Sys) {
    && (s.slot.Claimed? || s.slot.Posted? || s.slot.Delivering? ==> s.slot.c in s.cl)
    && (s.sv.SWant? || s.sv.SWait? <==> s.slot.Offered? || s.slot.Claimed? || s.slot.Posted?)
    && (s.sv.SReady? ==> s.slot == Closed)
    && (s.sv.SEncode? ==> s.slot.Delivering?)
    && (s.read > 0 ==> s.slot.Delivering?)
    && (s.slot.Delivering? ==> s.sv.SEncode? || s.read > 0)
    && (s.sv.SDone? ==> s.sv.c in s.cl)
    && (s.sv.SReady? || s.sv.SWant? || s.sv.SWait? || s.sv.SEncode? ==>
          s.sv.len < W32)
  }

  /** What has gone out of the message in the slot. */
  ghost predicate PartOk(s: Sys) {
    if s.slot.Delivering? && s.slot.c in s.cl && !s.cl[s.slot.c].CIdle? then
      var m := ReqOf(s.cl[s.slot.c]);
      Boundary(m, s.read) && s.part == Frame(m)[..s.read]
    else s.read == 0 && s.part == []
  }

  ghost predicate QueueOk(s: Sys) {
    && (forall c :: c in s.queue ==> c in s.cl)
    && (forall i, j :: 0 <= i < j < |s.queue| ==> s.queue[i] != s.queue[j])
  }

  ghost predicate Inv(s: Sys) {
    && (forall c :: c in s.cl ==> ClientOk(s, c))
    && SemsOk(s) && SlotOk(s) && PartOk(s) && QueueOk(s)
  }

  lemma StartInv(fids: set<int>)
    requires forall c :: c in fids ==> Int32(c)
    ensures Inv(Start(fids))
  {
  }

  // ------------------------------------------------------------ every step keeps it

  lemma Told1(log: seq<Event>, e: Event, c: int)
    ensures Story(log + [e], c) == Next(Story(log, c), e, c)
  {
    assert (log + [e])[..|log|] == log;
  }

  lemma CallKeeps(s: Sys, c: int, req: Req)
    requires Inv(s) && Enabled(s, Call(c, req))
    ensures Inv(Do(s, Call(c, req)))
  {
    hide Story, UnitOk, Frame, ReqOk, Boundary;
    var t := Do(s, Call(c, req));
    assert ClientOk(s, c);
    forall d | d in t.cl ensures ClientOk(t, d) {
      assert ClientOk(s, d);
      Told1(s.log, Called(c, req), d);
    }
  }

  lemma ReadyKeeps(s: Sys, c: int)
    requires Inv(s) && ClientCan(s, c) && s.cl[c].CCall?
    ensures Inv(ClientMove(s, c))
  {
    hide Story, UnitOk, Frame, ReqOk, Boundary;
    var t := ClientMove(s, c);
    assert ClientOk(s, c);
    ReadyWait(s.ready, c);
    forall d | d in t.cl ensures ClientOk(t, d) {
      assert ClientOk(s, d);
    }
  }

  lemma ReadyWait(s: Sem, c: int)
    requires UnitOk(s)
    ensures UnitOk(Wait(s, c, 1))
    ensures s.sem <= 0 ==> WouldBlock(s, 1) && Wait(s, c, 1) == Sem(s.sem - 1, [Waiter(c, 1)] + s.waiters)
    ensures s == Sem(1, []) ==> !WouldBlock(s, 1) && Wait(s, c, 1) == Sem(0, [])
  {
    UnitWait(s, c);
  }

  lemma OwnKeeps(s: Sys, c: int)
    requires Inv(s) && ClientCan(s, c) && (s.cl[c].CWaitReady? || s.cl[c].COwn?)
    ensures Inv(ClientMove(s, c))
  {
    hide Story, UnitOk, Frame, ReqOk, Boundary;
    var t := ClientMove(s, c);
    assert ClientOk(s, c);
    forall d | d in t.cl ensures ClientOk(t, d) {
      assert ClientOk(s, d);
    }
  }

  lemma SetKeeps(s: Sys, c: int)
    requires Inv(s) && ClientCan(s, c) && s.cl[c].CSet?
    ensures Inv(ClientMove(s, c))
  {
    hide Story, UnitOk, Frame, ReqOk, Boundary, Signal;
    var t := ClientMove(s, c);
    assert ClientOk(s, c);
    SignalEmpty(s.hasmsg, SERVER);
    forall d | d in t.cl ensures ClientOk(t, d) {
      assert ClientOk(s, d);
    }
  }

  /** A signal of one unit to a semaphore with at most one waiter. */
  lemma SignalEmpty(s: Sem, who: int)
    ensures s.waiters == [] ==> Signal(s, 1) == Sem(s.sem + 1, [])
    ensures s.waiters == [Waiter(who, 1)] ==> Signal(s, 1) == Sem(s.sem + 1, [])
  {
    if s.waiters == [Waiter(who, 1)] {
      assert Woken(s.waiters[1..], 0) == 0;
    }
  }

  lemma SleepKeeps(s: Sys, c: int)
    requires Inv(s) && ClientCan(s, c) && s.cl[c].CSent? && WouldBlock(s.done[c], 1)
    ensures Inv(ClientMove(s, c))
  {
    hide Story, UnitOk, Frame, ReqOk, Boundary;
    var t := ClientMove(s, c);
    assert ClientOk(s, c);
    forall d | d in t.cl ensures ClientOk(t, d) {
      assert ClientOk(s, d);
    }
  }

  lemma ReturnKeeps(s: Sys, c: int)
    requires Inv(s) && ClientCan(s, c) && Sent(s.cl[c]) && (s.cl[c].CSent? ==> !WouldBlock(s.done[c], 1))
    ensures Inv(ClientMove(s, c))
  {
    hide Story, UnitOk, Frame, ReqOk, Boundary;
    var t := ClientMove(s, c);
    assert ClientOk(s, c);
    assert Away(See(s, c)) && See(s, c).story == Replied(s.ret[c]);
    forall d | d in t.cl ensures ClientOk(t, d) {
      assert ClientOk(s, d);
      Told1(s.log, Returned(c, s.ret[c]), d);
    }
  }

  lemma ClientKeeps(s: Sys, c: int)
    requires Inv(s) && ClientCan(s, c)
    ensures Inv(ClientMove(s, c))
  {
    hide Inv, ClientMove;
    match s.cl[c]
    case CCall(_) => ReadyKeeps(s, c);
    case CWaitReady(_) => OwnKeeps(s, c);
    case COwn(_) => OwnKeeps(s, c);
    case CSet(_) => SetKeeps(s, c);
    case CSent(_) => if WouldBlock(s.done[c], 1) { SleepKeeps(s, c); } else { ReturnKeeps(s, c); }
    case CWaitDone(_) => ReturnKeeps(s, c);
  }

  lemma OfferKeeps(s: Sys)
    requires Inv(s) && s.sv.SReady?
    ensures Inv(ServerMove(s))
  {
    hide Story, UnitOk, Frame, ReqOk, Boundary, Signal;
    var t := ServerMove(s);
    ReadySignal(s.ready);
    if s.ready.waiters != [] {
      var w := s.ready.waiters[0];
      assert w in s.ready.waiters && w.who in s.cl;
      assert ClientOk(s, w.who);
    }
    forall d | d in t.cl ensures ClientOk(t, d) {
      assert ClientOk(s, d);
      FirstLeaves(s.ready.waiters, d);
    }
    forall w | w in t.ready.waiters ensures w.who in t.cl {
      assert w in s.ready.waiters;
    }
  }

  lemma ReadySignal(s: Sem)
    requires UnitOk(s) && s.sem <= 0
    ensures UnitOk(Signal(s, 1)) && (forall w :: w in s.waiters ==> w.units == 1)
    ensures Signal(s, 1).sem == s.sem + 1
    ensures s.waiters == [] ==> Signal(s, 1) == Sem(1, [])
    ensures s.waiters != [] ==> s.sem < 0 && Signal(s, 1).waiters == s.waiters[1..]
  {
    UnitSignal(s, 1);
    UnitWoken(s.waiters, 1);
    hide Woken;
    assert Woken(s.waiters, 1) == if s.waiters == [] then 0 else 1;
  }

  lemma FirstLeaves(ws: seq<Waiter>, d: int)
    requires forall i, j :: 0 <= i < j < |ws| ==> ws[i] != ws[j]
    requires forall w :: w in ws ==> w.units == 1
    ensures ws != [] ==> (Waiter(d, 1) in ws[1..] <==> Waiter(d, 1) in ws && ws[0].who != d)
  {
    if ws != [] {
      assert ws[0] in ws;
    }
  }

  lemma TakeKeeps(s: Sys)
    requires Inv(s) && ServerCan(s) && (s.sv.SWant? || s.sv.SWait?)
    ensures Inv(ServerMove(s))
  {
    hide Story, UnitOk, ReqOk, Frame, Boundary;
    var t := ServerMove(s);
    if s.slot.Posted? {
      assert ClientOk(s, s.slot.c);
      FromTheStart(ReqOf(s.cl[s.slot.c]));
    }
    forall d | d in t.cl ensures ClientOk(t, d) {
      assert ClientOk(s, d);
    }
  }

  lemma FromTheStart(m: Req)
    ensures Boundary(m, 0) && Frame(m)[..0] == []
  {
  }

  lemma SignalDoneKeeps(s: Sys)
    requires Inv(s) && ServerCan(s) && s.sv.SDone?
    ensures Inv(ServerMove(s))
  {
    hide Story, UnitOk, Frame, ReqOk, Boundary, Signal;
    var t := ServerMove(s);
    var c := s.sv.c;
    assert ClientOk(s, c);
    SignalEmpty(s.done[c], c);
    forall d | d in t.cl ensures ClientOk(t, d) {
      assert ClientOk(s, d);
    }
  }

  /** The fid in a frame that went over the wire. */
  lemma FrameFid(m: Req)
    requires ReqOk(m)
    ensures |Frame(m)| >= 12 && Signed(Get32(Frame(m)[4..]), W32) == m.fid
  {
    hide Get32, Put32, Signed;
    Split(m, []);
    assert Frame(m) + [] == Frame(m);
    Int32Returns(m.fid, Frame(m)[8..]);
  }

  lemma PieceKeeps(s: Sys)
    requires Inv(s) && ServerCan(s) && s.sv.SEncode?
    ensures Inv(ServerMove(s))
  {
    hide Story, UnitOk, Frame, ReqOk, Boundary, Encode, Need, Overruns;
    var t := ServerMove(s);
    var c := s.msg;
    assert ClientOk(s, s.slot.c);
    assert s.slot == Delivering(c);
    var m := ReqOf(s.cl[c]);
    var e := Encode(m, s.read, s.sv.len);
    Delivers(m, s.read, s.sv.len);
    assert s.part + e.out == Frame(m)[..e.read];
    FrameFid(m);
    assert Frame(m)[..|Frame(m)|] == Frame(m);
    forall d | d in t.cl ensures ClientOk(t, d) {
      assert ClientOk(s, d);
      Told1(s.log, Delivered(s.part + e.out), d);
    }
  }

  /** The exact condition on the size of a read: it loses its message iff it is the first one and has room for less
      than four bytes. */
  lemma LostIff(s: Sys)
    requires Inv(s) && ServerCan(s) && s.sv.SEncode?
    ensures ServerMove(s).lost == if s.read == 0 && s.sv.len < 4 then s.lost + {s.msg} else s.lost
    ensures s.msg !in s.lost
  {
    hide Story, UnitOk, Frame, ReqOk, Boundary, Encode, Need, Overruns;
    assert ClientOk(s, s.slot.c);
    var m := ReqOf(s.cl[s.msg]);
    Delivers(m, s.read, s.sv.len);
    FirstNeeds(m);
  }

  lemma ReplyKeeps(s: Sys, buf: seq<byte>)
    requires Inv(s) && s.sv.SIdle?
    ensures Inv(Reply(s, buf))
  {
    hide Story, UnitOk, Frame, ReqOk, Boundary, Get32, Get64, Signed;
    var t := Reply(s, buf);
    if t != s {
      var fid := Signed(Get32(buf), W32);
      var k := Find(s.queue, fid);
      var ret := Signed(Get64(buf[4..]), W64);
      assert fid in s.queue;
      assert ClientOk(s, fid);
      forall d | d in t.cl ensures ClientOk(t, d) {
        assert ClientOk(s, d);
        Told1(s.log, Answered(fid, ret), d);
        Removed(s.queue, k, d);
      }
      forall d | d in t.queue ensures d in t.cl {
        Removed(s.queue, k, d);
      }
    }
  }

  lemma Removed(q: seq<int>, k: nat, d: int)
    requires k < |q| && forall i, j :: 0 <= i < j < |q| ==> q[i] != q[j]
    ensures d in q[..k] + q[k + 1..] <==> d in q && d != q[k]
  {
  }

  lemma ServerKeeps(s: Sys)
    requires Inv(s) && ServerCan(s)
    ensures Inv(ServerMove(s))
  {
    hide Inv, ServerMove;
    match s.sv
    case SReady(_) => OfferKeeps(s);
    case SWant(_) => TakeKeeps(s);
    case SWait(_) => TakeKeeps(s);
    case SEncode(_) => PieceKeeps(s);
    case SDone(_) => SignalDoneKeeps(s);
  }

  lemma BeginReadKeeps(s: Sys, len: nat)
    requires Inv(s) && Enabled(s, ServerRead(len))
    ensures Inv(Do(s, ServerRead(len)))
  {
    hide Story, UnitOk, ReqOk, Frame, Boundary;
    var t := Do(s, ServerRead(len));
    forall d | d in t.cl ensures ClientOk(t, d) {
      assert ClientOk(s, d);
    }
  }

  lemma DoKeepsInv(s: Sys, a: Action)
    requires Inv(s) && Enabled(s, a)
    ensures Inv(Do(s, a))
  {
    hide Inv;
    match a
    case Call(c, req) => CallKeeps(s, c, req);
    case ClientStep(c) => ClientKeeps(s, c);
    case ServerRead(len) => BeginReadKeeps(s, len);
    case ServerReply(buf) => ReplyKeeps(s, buf);
    case ServerStep => ServerKeeps(s);
  }

  // ------------------------------------------------------------ runs

  ghost predicate Runs(s: Sys, as': seq<Action>)
    decreases |as'|
  {
    as' == [] || (Enabled(s, as'[0]) && Runs(Do(s, as'[0]), as'[1..]))
  }

  ghost function End(s: Sys, as': seq<Action>): Sys
    requires Runs(s, as')
    decreases |as'|
  {
    if as' == [] then s else End(Do(s, as'[0]), as'[1..])
  }

  lemma {:induction false} RunKeepsInv(s: Sys, as': seq<Action>)
    requires Inv(s) && Runs(s, as')
    ensures Inv(End(s, as'))
    decreases |as'|
  {
    hide Inv, Enabled, Do;
    if as' != [] {
      DoKeepsInv(s, as'[0]);
      RunKeepsInv(Do(s, as'[0]), as'[1..]);
    }
  }

  /** In every interleaving, with reads of any size, a request goes to the server process whole and at most once, and
      its client resumes after that, at most once, with the result of a reply that carried its own fid. */
  lemma EveryCallOnce(fids: set<int>, as': seq<Action>, c: int)
    requires c in fids && (forall f :: f in fids ==> Int32(f)) && Runs(Start(fids), as')
    ensures Story(End(Start(fids), as').log, c) != Bad
  {
    hide Start, Story;
    StartInv(fids);
    StartKeys(fids);
    RunKeepsInv(Start(fids), as');
    SameClients(Start(fids), as');
    assert ClientOk(End(Start(fids), as'), c);
  }

  /** A client whose message was lost never returns, whatever the server process does. */
  lemma {:induction false} LostForever(s: Sys, as': seq<Action>, c: int)
    requires Inv(s) && Runs(s, as') && c in s.lost && c in s.cl
    ensures c in End(s, as').lost && c in End(s, as').cl && Sent(End(s, as').cl[c])
    decreases |as'|
  {
    hide Do, Enabled, Inv;
    if as' == [] {
      LostWaits(s, c);
    } else {
      DoKeepsInv(s, as'[0]);
      StepSameClients(s, as'[0]);
      LostGrows(s, as'[0]);
      LostForever(Do(s, as'[0]), as'[1..], c);
    }
  }

  lemma LostWaits(s: Sys, c: int)
    requires Inv(s) && c in s.lost && c in s.cl
    ensures Sent(s.cl[c])
  {
    assert ClientOk(s, c);
  }

  lemma LostGrows(s: Sys, a: Action)
    requires Enabled(s, a)
    ensures s.lost <= Do(s, a).lost
  {
    hide Encode, Signal, Wait;
  }

  /** Nothing is lost as long as every read has room for four bytes. */
  lemma {:induction false} NothingLost(s: Sys, as': seq<Action>)
    requires Inv(s) && Runs(s, as') && s.lost == {} && PlentyOfRoom(s)
    requires forall a :: a in as' && a.ServerRead? ==> a.len >= 4
    ensures End(s, as').lost == {}
    decreases |as'|
  {
    hide Do, Enabled, Inv, PlentyOfRoom;
    if as' != [] {
      DoKeepsInv(s, as'[0]);
      RoomStays(s, as'[0]);
      NothingLost(Do(s, as'[0]), as'[1..]);
    }
  }

  predicate PlentyOfRoom(s: Sys) {
    s.sv.SReady? || s.sv.SWant? || s.sv.SWait? || s.sv.SEncode? ==> s.sv.len >= 4
  }

  lemma RoomStays(s: Sys, a: Action)
    requires Inv(s) && Enabled(s, a) && s.lost == {} && PlentyOfRoom(s) && (a.ServerRead? ==> a.len >= 4)
    ensures Do(s, a).lost == {} && PlentyOfRoom(Do(s, a))
  {
    hide Inv, Encode, Signal, Wait;
    if a.ServerStep? && s.sv.SEncode? {
      LostIff(s);
    }
  }

  lemma StartKeys(fids: set<int>)
    ensures Start(fids).cl.Keys == fids
  {
  }

  lemma StepSameClients(s: Sys, a: Action)
    requires Inv(s) && Enabled(s, a)
    ensures Do(s, a).cl.Keys == s.cl.Keys
  {
    hide Story, Frame, Boundary, UnitOk, SemsOk, PartOk, QueueOk, ClientOk;
  }

  lemma {:induction false} SameClients(s: Sys, as': seq<Action>)
    requires Inv(s) && Runs(s, as')
    ensures End(s, as').cl.Keys == s.cl.Keys
    decreases |as'|
  {
    hide Inv, Do, Enabled;
    if as' != [] {
      DoKeepsInv(s, as'[0]);
      StepSameClients(s, as'[0]);
      SameClients(Do(s, as'[0]), as'[1..]);
    }
  }

  /** The slot has one owner at a time, and nobody writes it while a message is being delivered from it. */
  lemma OneOwner(s: Sys, c: int, d: int)
    requires Inv(s) && c in s.cl && d in s.cl && (s.cl[c].COwn? || s.cl[c].CSet?)
    ensures s.cl[d].COwn? || s.cl[d].CSet? ==> d == c
    ensures !s.sv.SEncode? && s.read == 0 && !(Sent(s.cl[d]) && See(s, d).inSlot)
  {
    assert ClientOk(s, c) && ClientOk(s, d);
  }

  /** A reply leaves everything as it was unless its fid names a delivered and unanswered message; then it
      answers that client and no other. */
  lemma ReplyMatches(s: Sys, fid: int, ret: int)
    requires Inv(s) && s.sv.SIdle? && Int32(fid) && Int64(ret)
    ensures var t := Wire.Reply(fid, ret);
            if fid in s.queue
            then Reply(s, t).ret == s.ret[fid := ret] && Reply(s, t).sv == SDone(fid) && fid !in Reply(s, t).queue
            else Reply(s, t) == s
  {
    hide Inv, Get32, Get64, Signed;
    ReplyReturns(fid, ret);
    var k := Find(s.queue, fid);
    assert QueueOk(s) by { InvQueue(s); }
    if k < |s.queue| {
      Removed(s.queue, k, fid);
    }
  }

  lemma InvQueue(s: Sys)
    requires Inv(s)
    ensures QueueOk(s)
  {
  }

  /** The rendezvous cannot get stuck: if the server sleeps in its read and no client can move, then no client
      has anything to deliver; each is idle or waits for the answer to a message that was delivered or lost. */
  lemma SleepingServerIsNotNeeded(s: Sys, c: int)
    requires Inv(s) && s.sv.SWait? && !ServerCan(s) && (forall d :: d in s.cl ==> !ClientCan(s, d)) && c in s.cl
    ensures s.cl[c].CIdle? || (s.cl[c].CWaitDone? && (c in s.queue || c in s.lost))
  {
    hide Story, Frame, Boundary, ClientCan, Inv;
    if s.slot.Claimed? {
      ClaimerCan(s);
    }
    SleepView(s, c);
  }

  lemma ClaimerCan(s: Sys)
    requires Inv(s) && s.slot.Claimed?
    ensures s.slot.c in s.cl && ClientCan(s, s.slot.c)
  {
    hide Story, Frame, Boundary;
    assert ClientOk(s, s.slot.c);
  }

  lemma SleepView(s: Sys, c: int)
    requires Inv(s) && c in s.cl && s.sv.SWait? && !ServerCan(s) && !s.slot.Claimed?
    ensures ClientCan(s, c) || s.cl[c].CIdle? || (s.cl[c].CWaitDone? && (c in s.queue || c in s.lost))
  {
    hide Story, Frame, Boundary;
    assert ClientOk(s, c);
  }
}
