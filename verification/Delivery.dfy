/** What the mailboxes promise over every run: conservation, no lost wakeup, thread
    affinity, and exactly-once delivery when the clients keep their discipline. */
module Delivery {
  import opened Words
  import opened Upcalls
  import opened Mailbox

  predicate Reachable(acts: seq<Action>, t: State) {
    Leads(Start(), acts, t)
  }

  lemma ReachableOk(acts: seq<Action>, t: State)
    requires Reachable(acts, t)
    ensures Inv(t)
  {
    StartOk();
    RunKeeps(Start(), acts, t);
  }

  // ---- Conservation ------------------------------------------------------

  /** `ms` picks out of `us`, in order and at most once, the calls it is numbered by. */
  predicate Subsequence(ms: seq<Msg>, us: seq<Upcall>) {
    && Increasing(ms)
    && forall i :: 0 <= i < |ms| ==> ms[i].id < |us| && us[ms[i].id] == ms[i].call
  }

  /** In every interleaving, what was posted to a worker is what it handled, serves,
      holds pending or lost, nothing twice; and what it did not lose keeps its order. */
  lemma Conservation(acts: seq<Action>, t: State, w: nat)
    requires Reachable(acts, t) && w < WORKER_NUM
    ensures w < |t.workers|
    ensures var x := t.workers[w];
            && multiset(x.handled) + multiset(InService(x)) + multiset(Pending(x)) + multiset(x.overwritten)
               == multiset(Tickets(x.posted))
            && Subsequence(Flow(x), x.posted)
  {
    ReachableOk(acts, t);
    var x := t.workers[w];
    assert WorkerOk(x, w, t.poster);
    forall i | 0 <= i < |Flow(x)|
      ensures Flow(x)[i].id < |x.posted| && x.posted[Flow(x)[i].id] == Flow(x)[i].call
    {
      FlowPosted(x, Flow(x)[i]);
    }
  }

  /** What one step loses of worker `w`: the occupant of its slot, if the step fills the
      slot while it is taken. */
  function Lost(s: State, a: Action, w: nat): seq<Msg>
    requires w < |s.workers|
  {
    if a.PostFill? && s.poster.Locked? && s.poster.w == w then Pending(s.workers[w]) else []
  }

  /** The occupants of worker `w` that a run fills over, in order. */
  function Losses(s: State, acts: seq<Action>, w: nat): seq<Msg>
    requires w < |s.workers|
    decreases |acts|
  {
    if acts == [] || !Enabled(s, acts[0]) then [] else Lost(s, acts[0], w) + Losses(Do(s, acts[0]), acts[1..], w)
  }

  lemma StepLoses(s: State, a: Action, w: nat)
    requires Enabled(s, a) && w < |s.workers|
    ensures w < |Do(s, a).workers|
    ensures Do(s, a).workers[w].overwritten == s.workers[w].overwritten + Lost(s, a, w)
  {
    DoAfter(s, a, w);
  }

  /** Over any run a worker loses exactly the upcalls that were in its slot when another
      was filled in, in that order, and no others. */
  lemma {:induction false} RunLoses(s: State, acts: seq<Action>, t: State, w: nat)
    requires Leads(s, acts, t) && w < |s.workers|
    ensures w < |t.workers| && t.workers[w].overwritten == s.workers[w].overwritten + Losses(s, acts, w)
    decreases |acts|
  {
    if acts != [] {
      StepLoses(s, acts[0], w);
      RunLoses(Do(s, acts[0]), acts[1..], t, w);
      Associative(s.workers[w].overwritten, Lost(s, acts[0], w), Losses(Do(s, acts[0]), acts[1..], w));
    }
  }

  // ---- No lost wakeup ----------------------------------------------------

  /** In every reachable state a worker blocked unsignalled on a free mutex has an
      empty slot, and a live worker's `retval` is zero. */
  lemma NoLostWakeup(acts: seq<Action>, t: State, w: nat)
    requires Reachable(acts, t) && w < WORKER_NUM
    ensures w < |t.workers|
    ensures var x := t.workers[w]; x.mutex == Free && x.pc == Blocked ==> x.arg == None
    ensures var x := t.workers[w]; x.pc != Dead ==> x.retval == 0
  {
    ReachableOk(acts, t);
    assert WorkerOk(t.workers[w], w, t.poster);
  }

  /** The step that brings worker `w` closer to taking its pending upcall. */
  function Next(x: Worker, w: nat, p: Poster): Action {
    if p.Locked? && p.w == w then PostFill
    else if p.Filled? && p.w == w then PostSignalUnlock
    else
      match x.pc
      case AtTop => Lock(w)
      case Checking => Take(w)
      case Serving(_) => Finish(w, 0)
      case Answered(_) => Finish(w, 0)
      case _ => Relock(w)
  }

  /** How many such steps are left. */
  function Distance(x: Worker, w: nat, p: Poster): (n: nat)
    ensures n <= 5
  {
    (if p.Locked? && p.w == w then 2 else if p.Filled? && p.w == w then 1 else 0) +
    match x.pc
    case Checking => 1
    case Serving(_) => 3
    case Answered(_) => 3
    case _ => 2
  }

  predicate Waiting(x: Worker) {
    x.pc != Dead && x.arg.Some?
  }

  /** A step of worker `w`, or the rest of a post under way. */
  predicate Pushes(a: Action, w: nat) {
    a.PostFill? || a.PostSignalUnlock? || a == Lock(w) || a == Relock(w) || a == Take(w) || a == Finish(w, 0)
  }

  predicate Refills(p: Poster, w: nat) {
    p.Locked? && p.w == w
  }

  /** From `x` with poster `p` to `y` with poster `q`, worker `w` came closer to taking
      what is in its slot, or takes it. */
  predicate Closer(x: Worker, p: Poster, y: Worker, q: Poster, w: nat, takes: bool)
    requires Waiting(x)
  {
    && (if takes then y.pc.Serving? else Waiting(y) && Distance(y, w, q) < Distance(x, w, p))
    && (!Refills(p, w) ==>
          !Refills(q, w) && if takes then y.pc == Serving(x.arg.value) else y.arg == x.arg)
  }

  lemma NextLocal(x: Worker, p: Poster, w: nat)
    requires Waiting(x)
    requires x.mutex == ByWorker <==> x.pc == Checking
    requires x.mutex == ByDispatcher <==> Touches(p, w)
    requires x.pc == Blocked && x.arg.Some? ==> p == Filled(w)
    requires x.retval == 0
    ensures var a := Next(x, w, p);
            && Pushes(a, w) && Ready(x, p, a, w) && (p.Locked? || !a.PostFill?)
            && (a.PostFill? || a.PostSignalUnlock? || CanStep(x, a))
            && Closer(x, p, After(x, p, a, w), PosterAfter(p, a), w, a.Take?)
  {
  }

  lemma NextEnabled(s: State, w: nat)
    requires Inv(s) && w < WORKER_NUM && Waiting(s.workers[w])
    ensures var x := s.workers[w];
            var a := Next(x, w, s.poster);
            && Pushes(a, w) && Enabled(s, a) && Ready(x, s.poster, a, w)
            && Closer(x, s.poster, After(x, s.poster, a, w), PosterAfter(s.poster, a), w, a.Take?)
  {
    assert WorkerOk(s.workers[w], w, s.poster);
    NextLocal(s.workers[w], s.poster, w);
  }

  lemma OneStep(s: State, a: Action)
    requires Enabled(s, a)
    ensures Leads(s, [a], Do(s, a))
  {
    assert [a][1..] == [];
  }

  /** One such step, as a run. */
  lemma NextHelps(s: State, w: nat) returns (a: Action, r: State)
    requires Inv(s) && w < WORKER_NUM && Waiting(s.workers[w])
    ensures Pushes(a, w) && Leads(s, [a], r) && Inv(r)
    ensures Closer(s.workers[w], s.poster, r.workers[w], r.poster, w, a.Take?)
  {
    a := Next(s.workers[w], w, s.poster);
    NextEnabled(s, w);
    r := Do(s, a);
    DoAfter(s, a, w);
    StepKeeps(s, a);
    OneStep(s, a);
  }

  /** A step and then a run. */
  lemma LeadsOn(s: State, a: Action, r: State, rest: seq<Action>, t: State)
    requires Leads(s, [a], r) && Leads(r, rest, t)
    ensures Leads(s, [a] + rest, t)
  {
    assert [a][1..] == [] && ([a] + rest)[1..] == rest;
    assert Enabled(s, a) && Exec(Do(s, a), []) == Some(r);
  }

  /** A live worker with a pending upcall is never stuck: at most five steps, of that
      worker and of a post already under way, put that upcall into service, or the one
      the post is about to replace it with. A handler that is running returns zero. */
  lemma {:induction false} PendingIsServed(s: State, w: nat) returns (acts: seq<Action>, t: State)
    requires Inv(s) && w < WORKER_NUM && Waiting(s.workers[w])
    ensures Leads(s, acts, t) && w < |t.workers| && t.workers[w].pc.Serving?
    ensures Refills(s.poster, w) || t.workers[w].pc.m == s.workers[w].arg.value
    ensures |acts| <= Distance(s.workers[w], w, s.poster) <= 5
    ensures forall i :: 0 <= i < |acts| ==> Pushes(acts[i], w)
    decreases Distance(s.workers[w], w, s.poster)
  {
    var a, r := NextHelps(s, w);
    acts, t := [], r;
    if !a.Take? {
      acts, t := PendingIsServed(r, w);
    }
    LeadsOn(s, a, r, acts, t);
    acts := [a] + acts;
  }

  /** An opcode without a case never ends a worker. */
  lemma UnknownOpcodeContinues(acts: seq<Action>, t: State, w: nat, ret: int)
    requires Reachable(acts, t) && Enabled(t, Finish(w, ret))
    requires t.workers[w].pc.m.call.opcode !in {CLOSE, PIPE, SOCKET, POLL}
    requires t.workers[w].pc.m.call.opcode !in {BINDER_WRITE_READ, ALIEN_MMAP2, FUTEX_WAIT, FUTEX_WAKE}
    ensures ret == 0 && Do(t, Finish(w, ret)).workers[w].pc == AtTop
  {
    ReachableOk(acts, t);
    assert WorkerOk(t.workers[w], w, t.poster);
  }

  /** An upcall with an opcode from 9 on can always be offered, and is dropped. */
  lemma UnknownDropped(t: State, u: Upcall)
    requires t.poster == Outside && u.opcode >= 9
    ensures Enabled(t, PostUnknown(u)) && Do(t, PostUnknown(u)) == t
  {
    Routing(HandleOf(u));
  }

  /** A handler of one of the eight cases may return anything, and ends its worker just if
      that is not zero. */
  lemma HandlerEnds(t: State, w: nat, ret: int)
    requires w < |t.workers| && (t.workers[w].pc.Serving? || t.workers[w].pc.Answered?)
    requires var o := t.workers[w].pc.m.call.opcode;
             o in {CLOSE, PIPE, SOCKET, POLL} || o in {BINDER_WRITE_READ, ALIEN_MMAP2, FUTEX_WAIT, FUTEX_WAKE}
    ensures Enabled(t, Finish(w, ret))
    ensures Do(t, Finish(w, ret)).workers[w].pc == if ret == 0 then AtTop else Dead
  {
  }

  /** A spurious wakeup is always possible, and does no harm: the worker finds its slot
      empty and is where it was. */
  lemma SpuriousWakeHarmless(t: State, w: nat)
    requires w < |t.workers| && t.workers[w].pc == Blocked && t.workers[w].mutex == Free && t.workers[w].arg == None
    ensures Leads(t, [SpuriousWake(w), Relock(w), Wait(w)], t)
  {
    var s1 := Do(t, SpuriousWake(w));
    var s2 := Do(s1, Relock(w));
    assert Do(s2, Wait(w)).workers == t.workers;
    assert [Wait(w)][1..] == [];
    LeadsOn(s1, Relock(w), s2, [Wait(w)], t) by { OneStep(s1, Relock(w)); }
    LeadsOn(t, SpuriousWake(w), s1, [Relock(w)] + [Wait(w)], t) by { OneStep(t, SpuriousWake(w)); }
    assert [SpuriousWake(w)] + ([Relock(w)] + [Wait(w)]) == [SpuriousWake(w), Relock(w), Wait(w)];
  }

  // ---- Affinity and isolation --------------------------------------------

  /** Somewhere at worker `w`, handled or not. */
  predicate At(t: State, w: nat, m: Msg) {
    w < |t.workers| && (m in Flow(t.workers[w]) || m in t.workers[w].overwritten)
  }

  lemma AtItsWorker(acts: seq<Action>, t: State, w: nat, m: Msg)
    requires Reachable(acts, t) && At(t, w, m)
    ensures WorkerOf(m.call) == Some(w)
  {
    ReachableOk(acts, t);
    assert WorkerOk(t.workers[w], w, t.poster);
    FlowPosted(t.workers[w], m);
    assert m.call in t.workers[w].posted;
  }

  /** The calls of one client thread all meet at one worker. */
  lemma Affinity(acts: seq<Action>, t: State, v: nat, w: nat, m: Msg, n: Msg)
    requires Reachable(acts, t) && At(t, v, m) && At(t, w, n)
    requires m.call.opcode in {SOCKET, POLL, BINDER_WRITE_READ, FUTEX_WAIT, FUTEX_WAKE}
    requires n.call.opcode in {SOCKET, POLL, BINDER_WRITE_READ, FUTEX_WAIT, FUTEX_WAKE}
    requires HandleOf(m.call) / 8192 == HandleOf(n.call) / 8192
    ensures v == w == HandleOf(m.call) / 8192 % 19
  {
    AtItsWorker(acts, t, v, m);
    AtItsWorker(acts, t, w, n);
    Routing(HandleOf(m.call));
    Routing(HandleOf(n.call));
  }

  /** The last worker gets every synchronous call and nothing else, and an opcode at
      or above the call count reaches nobody. */
  lemma Isolation(acts: seq<Action>, t: State, w: nat, m: Msg)
    requires Reachable(acts, t) && At(t, w, m)
    ensures m.call.opcode < 9
    ensures w == 19 <==> m.call.opcode !in {SOCKET, POLL, BINDER_WRITE_READ, FUTEX_WAIT, FUTEX_WAKE}
  {
    AtItsWorker(acts, t, w, m);
    Routing(HandleOf(m.call));
  }

  // ---- Exactly once ------------------------------------------------------

  /** The client thread an upcall belongs to; all synchronous calls share one. */
  function Client(u: Upcall): Option<nat> {
    if IsAsync(u.opcode) then Some(ThreadIndex(HandleOf(u))) else None
  }

  /** Pending, or in a handler that has not answered. */
  function Unanswered(x: Worker): seq<Upcall> {
    (if x.arg.Some? then [x.arg.value.call] else []) + (if x.pc.Serving? then [x.pc.m.call] else [])
  }

  /** The upcall comes from one of these client threads, or is synchronous. */
  predicate From(ts: set<Thread>, u: Upcall) {
    IsAsync(u.opcode) ==> ThreadIndex(HandleOf(u)) in ts
  }

  /** No two of the threads share a worker. */
  ghost predicate Separate(ts: set<Thread>) {
    forall i: Thread, j: Thread :: i in ts && j in ts && i % (WORKER_NUM - 1) == j % (WORKER_NUM - 1) ==> i == j
  }

  /** No unanswered upcall of the same client, anywhere. */
  predicate ClientIdle(s: State, u: Upcall) {
    forall w | 0 <= w < |s.workers| :: forall v <- Unanswered(s.workers[w]) :: Client(v) != Client(u)
  }

  /** The discipline: a client posts only when it has nothing unanswered, it is
      one of the threads `ts`, and handlers succeed. */
  predicate Disciplined(ts: set<Thread>, s: State, a: Action) {
    match a
    case PostLock(u) => From(ts, u) && ClientIdle(s, u)
    case Finish(_, ret) => ret == 0
    case _ => true
  }

  predicate DisciplinedRun(ts: set<Thread>, s: State, acts: seq<Action>)
    decreases |acts|
  {
    acts == [] ||
    (Enabled(s, acts[0]) && Disciplined(ts, s, acts[0]) && DisciplinedRun(ts, Do(s, acts[0]), acts[1..]))
  }

  /** Separate threads meet at no worker. */
  lemma OneThreadPerWorker(ts: set<Thread>, u: Upcall, v: Upcall)
    requires Separate(ts) && From(ts, u) && From(ts, v) && WorkerOf(u).Some? && WorkerOf(u) == WorkerOf(v)
    ensures Client(u) == Client(v)
  {
    if IsAsync(u.opcode) && IsAsync(v.opcode) {
      var i, j := ThreadIndex(HandleOf(u)), ThreadIndex(HandleOf(v));
      assert i in ts && j in ts && i % (WORKER_NUM - 1) == j % (WORKER_NUM - 1);
    }
  }

  predicate WorkerClean(x: Worker, w: nat, ts: set<Thread>, p: Poster) {
    && x.overwritten == []
    && x.pc != Dead
    && (p.Locked? && p.w == w ==> x.arg == None)
    && forall u :: u in x.posted ==> From(ts, u)
  }

  /** Nothing lost, nobody dead, and the slot empty between lock and fill. */
  ghost predicate CleanInv(ts: set<Thread>, s: State) {
    && Inv(s) && Separate(ts)
    && (s.poster.Locked? ==> From(ts, s.poster.u))
    && forall w :: 0 <= w < WORKER_NUM ==> WorkerClean(s.workers[w], w, ts, s.poster)
  }

  /** The slot is empty when a disciplined client's upcall gets to it. */
  lemma SlotEmpty(ts: set<Thread>, s: State, u: Upcall)
    requires CleanInv(ts, s) && Enabled(s, PostLock(u)) && Disciplined(ts, s, PostLock(u))
    ensures s.workers[WorkerOf(u).value].arg == None
  {
    var w := WorkerOf(u).value;
    var x := s.workers[w];
    assert WorkerOk(x, w, s.poster) && WorkerClean(x, w, ts, s.poster);
    if x.arg.Some? {
      var m := x.arg.value;
      assert m == Flow(x)[|Flow(x)| - 1];
      FlowPosted(x, m);
      assert m.call in x.posted;
      OneThreadPerWorker(ts, u, m.call);
    }
  }

  lemma CleanLocal(x: Worker, p: Poster, a: Action, w: nat, ts: set<Thread>)
    requires WorkerClean(x, w, ts, p) && Ready(x, p, a, w)
    requires a.Finish? ==> a.ret == 0
    requires a.PostLock? && WorkerOf(a.u).value == w ==> x.arg == None
    requires p.Locked? ==> From(ts, p.u)
    ensures WorkerClean(After(x, p, a, w), w, ts, PosterAfter(p, a))
  {
  }

  lemma CleanStep(ts: set<Thread>, s: State, a: Action)
    requires CleanInv(ts, s) && Enabled(s, a) && Disciplined(ts, s, a)
    ensures CleanInv(ts, Do(s, a))
  {
    StepKeeps(s, a);
    if a.PostLock? {
      SlotEmpty(ts, s, a.u);
    }
    forall w | 0 <= w < WORKER_NUM
      ensures WorkerClean(Do(s, a).workers[w], w, ts, Do(s, a).poster)
    {
      DoAfter(s, a, w);
      CleanLocal(s.workers[w], s.poster, a, w, ts);
    }
  }

  lemma {:induction false} CleanRun(ts: set<Thread>, s: State, acts: seq<Action>, t: State)
    requires CleanInv(ts, s) && Leads(s, acts, t) && DisciplinedRun(ts, s, acts)
    ensures CleanInv(ts, t)
    decreases |acts|
  {
    if acts != [] {
      CleanStep(ts, s, acts[0]);
      CleanRun(ts, Do(s, acts[0]), acts[1..], t);
    }
  }

  /** Increasing numbers below their count are 0, 1, 2, ... */
  lemma {:induction false} IncreasingFull(ms: seq<Msg>, i: nat, n: nat)
    requires Increasing(ms) && i < |ms| && forall j :: 0 <= j < |ms| ==> ms[j].id < n
    ensures i <= ms[i].id <= n - (|ms| - i)
    decreases i
  {
    if i > 0 {
      IncreasingFull(ms, i - 1, n);
    }
    AtMost(ms, i, n);
  }

  lemma {:induction false} AtMost(ms: seq<Msg>, i: nat, n: nat)
    requires Increasing(ms) && i < |ms| && forall j :: 0 <= j < |ms| ==> ms[j].id < n
    ensures ms[i].id <= n - (|ms| - i)
    decreases |ms| - i
  {
    if i + 1 < |ms| {
      AtMost(ms, i + 1, n);
    }
  }

  lemma NothingLost(x: Worker)
    requires Accounted(x) && x.overwritten == []
    ensures Flow(x) == Tickets(x.posted)
  {
    var f := Flow(x);
    assert |multiset(f)| == |f| && |multiset(Tickets(x.posted))| == |x.posted|;
    assert multiset(f) + multiset(x.overwritten) == multiset(f);
    forall i | 0 <= i < |f|
      ensures f[i].id < |x.posted| && f[i].call == x.posted[f[i].id]
    {
      FlowPosted(x, f[i]);
    }
    forall i | 0 <= i < |f|
      ensures f[i] == Tickets(x.posted)[i]
    {
      IncreasingFull(f, i, |x.posted|);
    }
  }

  /** Under the discipline no slot is ever overwritten and no worker ends; what each
      worker handled, serves and holds is exactly what was posted to it, in order. */
  lemma ExactlyOnce(ts: set<Thread>, acts: seq<Action>, t: State, w: nat)
    requires Separate(ts) && Reachable(acts, t) && DisciplinedRun(ts, Start(), acts) && w < WORKER_NUM
    ensures w < |t.workers|
    ensures var x := t.workers[w]; x.overwritten == [] && x.pc != Dead && Flow(x) == Tickets(x.posted)
  {
    StartOk();
    CleanRun(ts, Start(), acts, t);
    var x := t.workers[w];
    assert WorkerOk(x, w, t.poster) && WorkerClean(x, w, ts, t.poster);
    NothingLost(x);
  }

  /** A client whose only open call has been answered may post again, although its worker
      is still in the handler. */
  lemma AnsweredIsIdle(s: State, w: nat, u: Upcall)
    requires w < |s.workers| && s.workers[w].pc.Serving? && s.workers[w].arg == None
    requires Client(s.workers[w].pc.m.call) == Client(u)
    requires forall v | 0 <= v < |s.workers| :: forall c <- Unanswered(s.workers[v]) :: Client(c) == Client(u) ==> v == w
    ensures Enabled(s, Answer(w)) && !ClientIdle(s, u) && ClientIdle(Do(s, Answer(w)), u)
  {
    var t := Do(s, Answer(w));
    assert s.workers[w].pc.m.call in Unanswered(s.workers[w]);
    forall v | 0 <= v < |t.workers|
      ensures forall c <- Unanswered(t.workers[v]) :: Client(c) != Client(u)
    {
      if v != w {
        assert t.workers[v] == s.workers[v];
      }
    }
  }

  // ---- From the buffer to the handlers -----------------------------------

  /** The calls among `us` meant for worker `w`. */
  function Project(us: seq<Upcall>, w: nat): seq<Upcall> {
    if us == [] then [] else ProjectOne(us[0], w) + Project(us[1..], w)
  }

  function ProjectOne(u: Upcall, w: nat): seq<Upcall> {
    if WorkerOf(u) == Some(w) then [u] else []
  }

  /** The upcalls the dispatcher offered in a run. */
  function Offered(acts: seq<Action>): seq<Upcall> {
    if acts == [] then []
    else OfferedBy(acts[0]) + Offered(acts[1..])
  }

  function OfferedBy(a: Action): seq<Upcall> {
    match a
    case PostUnknown(u) => [u]
    case PostLock(u) => [u]
    case _ => []
  }

  /** The upcall a post under way still holds for worker `w`. */
  function InHand(p: Poster, w: nat): seq<Upcall> {
    if p.Locked? && p.w == w then [p.u] else []
  }

  function Calls(ms: seq<Msg>): (us: seq<Upcall>)
    ensures |us| == |ms| && forall i :: 0 <= i < |ms| ==> us[i] == ms[i].call
  {
    seq(|ms|, i requires 0 <= i < |ms| => ms[i].call)
  }

  lemma {:induction false} ProjectConcat(us: seq<Upcall>, vs: seq<Upcall>, w: nat)
    ensures Project(us + vs, w) == Project(us, w) + Project(vs, w)
  {
    if us == [] {
      assert us + vs == vs;
    } else {
      ProjectConcat(us[1..], vs, w);
      assert (us + vs)[1..] == us[1..] + vs && (us + vs)[0] == us[0];
      Associative(ProjectOne(us[0], w), Project(us[1..], w), Project(vs, w));
    }
  }

  lemma StepProjects(s: State, a: Action, w: nat)
    requires Enabled(s, a) && w < |s.workers|
    ensures w < |Do(s, a).workers|
    ensures Do(s, a).workers[w].posted + InHand(Do(s, a).poster, w)
            == s.workers[w].posted + InHand(s.poster, w) + Project(OfferedBy(a), w)
  {
    DoAfter(s, a, w);
    if a.PostUnknown? || a.PostLock? {
      assert OfferedBy(a)[1..] == [];
    }
  }

  /** Posted to a worker is the part of what was offered that is meant for it. */
  lemma {:induction false} RunProjects(s: State, acts: seq<Action>, t: State, w: nat)
    requires Leads(s, acts, t) && w < |s.workers|
    ensures w < |t.workers|
    ensures t.workers[w].posted + InHand(t.poster, w)
            == s.workers[w].posted + InHand(s.poster, w) + Project(Offered(acts), w)
    decreases |acts|
  {
    if acts != [] {
      StepProjects(s, acts[0], w);
      RunProjects(Do(s, acts[0]), acts[1..], t, w);
      ProjectConcat(OfferedBy(acts[0]), Offered(acts[1..]), w);
    }
  }

  lemma EncodeInjective(u: Upcall, v: Upcall)
    requires Sendable(u) && Sendable(v) && Encode(u) == Encode(v)
    ensures u == v
  {
    var m := Encode(u);
    assert m[0..] == m + [];
    WordsOfFrame(m, 0, u, []);
    WordsOfFrame(m, 0, v, []);
    assert u.payload == m[HDR..] && v.payload == m[HDR..];
  }

  /** The upcalls are those of the first posts. */
  predicate Feeds(posts: seq<Post>, us: seq<Upcall>) {
    |us| <= |posts| && forall i :: 0 <= i < |us| ==> Sendable(us[i]) && posts[i] == PostOf(us[i])
  }

  lemma {:induction false} PostsOfAt(us: seq<Upcall>, i: nat)
    requires AllSendable(us) && i < |us|
    ensures PostsOf(us)[i] == PostOf(us[i])
  {
    if i > 0 {
      PostsOfAt(us[1..], i - 1);
    }
  }

  /** Posts hand over only one list of upcalls. */
  lemma FeedsPrefix(us: seq<Upcall>, more: seq<Post>, vs: seq<Upcall>)
    requires AllSendable(us) && Feeds(PostsOf(us) + more, vs) && |vs| <= |us|
    ensures vs <= us && us[..|vs|] == vs
  {
    forall i | 0 <= i < |vs|
      ensures vs[i] == us[i]
    {
      PostsOfAt(us, i);
      EncodeInjective(us[i], vs[i]);
    }
  }

  /** Under the discipline each worker has, in order and once each, just the offered
      upcalls meant for it. */
  lemma RunDelivers(ts: set<Thread>, acts: seq<Action>, t: State, w: nat)
    requires Separate(ts) && Reachable(acts, t) && DisciplinedRun(ts, Start(), acts) && w < WORKER_NUM
    ensures w < |t.workers|
    ensures Calls(Flow(t.workers[w])) + InHand(t.poster, w) == Project(Offered(acts), w)
  {
    ExactlyOnce(ts, acts, t, w);
    RunProjects(Start(), acts, t, w);
    var x := t.workers[w];
    assert Start().workers[w].posted == [];
    assert Calls(Tickets(x.posted)) == x.posted;
  }

  /** Dispatcher and workers together, whatever the clients do: the upcalls `uss` come in
      any number of reads and others after them, and the dispatcher has offered some of
      what its loop finds; then a worker was posted just those of that part meant for it. */
  lemma StreamPosted(ios: seq<Ioctl>, uss: seq<seq<Upcall>>, more: seq<Ioctl>, acts: seq<Action>, t: State, w: nat)
    requires AllCarry(ios, uss) && AllReadable(more) && AllReadable(ios + more)
    requires Reachable(acts, t) && w < WORKER_NUM
    requires Feeds(LoopPosts(ios + more), Offered(acts)) && |Offered(acts)| <= |Flatten(uss)|
    ensures w < |t.workers|
    ensures t.workers[w].posted + InHand(t.poster, w) == Project(Flatten(uss)[..|Offered(acts)|], w)
  {
    LoopDecodes(ios, uss, more);
    FeedsPrefix(Flatten(uss), LoopPosts(more), Offered(acts));
    RunProjects(Start(), acts, t, w);
  }

  /** And if the clients are disciplined, the worker has these in order and once each. */
  lemma StreamDelivered(ios: seq<Ioctl>, uss: seq<seq<Upcall>>, more: seq<Ioctl>,
                        ts: set<Thread>, acts: seq<Action>, t: State, w: nat)
    requires AllCarry(ios, uss) && AllReadable(more) && AllReadable(ios + more)
    requires Separate(ts) && Reachable(acts, t) && DisciplinedRun(ts, Start(), acts) && w < WORKER_NUM
    requires Feeds(LoopPosts(ios + more), Offered(acts)) && |Offered(acts)| <= |Flatten(uss)|
    ensures w < |t.workers|
    ensures Calls(Flow(t.workers[w])) + InHand(t.poster, w) == Project(Flatten(uss)[..|Offered(acts)|], w)
  {
    RunDelivers(ts, acts, t, w);
    StreamPosted(ios, uss, more, acts, t, w);
    RunProjects(Start(), acts, t, w);
  }

  // ---- Which threads may call at once -------------------------------------

  /** The two posts of the run below. */
  function Collision(u: Upcall, v: Upcall): seq<Action> {
    [PostLock(u), PostFill, PostSignalUnlock, PostLock(v), PostFill]
  }

  /** Nothing has happened yet but at worker `w`. */
  function Only(w: nat, x: Worker, p: Poster): State
    requires w < WORKER_NUM
  {
    State(Start().workers[w := x], p)
  }

  lemma OnlyStep(w: nat, x: Worker, p: Poster, a: Action)
    requires w < WORKER_NUM && Ready(x, p, a, w)
    requires (a.PostLock? && WorkerOf(a.u) == Some(w) && p == Outside) || (a.PostFill? && p.w == w) || (a.PostSignalUnlock? && p.w == w)
    ensures Enabled(Only(w, x, p), a)
    ensures Do(Only(w, x, p), a) == Only(w, After(x, p, a, w), PosterAfter(p, a))
  {
    var y := After(x, p, a, w);
    assert Start().workers[w := x][w := y] == Start().workers[w := y];
  }

  lemma OnlyIdle(w: nat, x: Worker, p: Poster, u: Upcall)
    requires w < WORKER_NUM && forall v <- Unanswered(x) :: Client(v) != Client(u)
    ensures ClientIdle(Only(w, x, p), u)
  {
  }

  lemma RunBack(ts: set<Thread>, s: State, a: Action, rest: seq<Action>, t: State)
    requires Enabled(s, a) && Disciplined(ts, s, a)
    requires Leads(Do(s, a), rest, t) && DisciplinedRun(ts, Do(s, a), rest)
    ensures Leads(s, [a] + rest, t) && DisciplinedRun(ts, s, [a] + rest)
  {
    assert ([a] + rest)[1..] == rest;
  }

  lemma Chain(ts: set<Thread>, s1: State, s2: State, s3: State, s4: State, t: State, u: Upcall, v: Upcall)
    requires Enabled(Start(), PostLock(u)) && Disciplined(ts, Start(), PostLock(u)) && s1 == Do(Start(), PostLock(u))
    requires Enabled(s1, PostFill) && s2 == Do(s1, PostFill)
    requires Enabled(s2, PostSignalUnlock) && s3 == Do(s2, PostSignalUnlock)
    requires Enabled(s3, PostLock(v)) && Disciplined(ts, s3, PostLock(v)) && s4 == Do(s3, PostLock(v))
    requires Enabled(s4, PostFill) && t == Do(s4, PostFill)
    ensures Leads(Start(), Collision(u, v), t) && DisciplinedRun(ts, Start(), Collision(u, v))
  {
    var r4 := [PostFill];
    var r3 := [PostLock(v)] + r4;
    var r2 := [PostSignalUnlock] + r3;
    var r1 := [PostFill] + r2;
    assert [PostFill] + [] == r4;
    RunBack(ts, s4, PostFill, [], t);
    RunBack(ts, s3, PostLock(v), r4, t);
    RunBack(ts, s2, PostSignalUnlock, r3, t);
    RunBack(ts, s1, PostFill, r2, t);
    RunBack(ts, Start(), PostLock(u), r1, t);
    assert Collision(u, v) == [PostLock(u)] + r1;
  }

  /** Two different threads that share a worker, each idle and posting its first call,
      keep the rest of the discipline and lose one of the two. */
  lemma SharedWorkerLoses(ts: set<Thread>, u: Upcall, v: Upcall) returns (t: State)
    requires IsAsync(u.opcode) && IsAsync(v.opcode) && From(ts, u) && From(ts, v)
    requires Client(u) != Client(v) && WorkerOf(u) == WorkerOf(v)
    ensures Reachable(Collision(u, v), t) && DisciplinedRun(ts, Start(), Collision(u, v))
    ensures WorkerOf(u).Some? && WorkerOf(u).value < |t.workers| && t.workers[WorkerOf(u).value].overwritten == [Msg(0, u)]
  {
    var w := WorkerOf(u).value;
    var s1, s2, s3 := FirstPost(ts, w, u);
    var s4;
    s4, t := SecondPost(ts, w, u, v);
    Chain(ts, s1, s2, s3, s4, t, u, v);
  }

  /** The worker after its first call was posted. */
  function Holding(u: Upcall): Worker {
    FreshWorker.(arg := Some(Msg(0, u)), posted := [u])
  }

  lemma FirstPost(ts: set<Thread>, w: nat, u: Upcall) returns (s1: State, s2: State, s3: State)
    requires WorkerOf(u) == Some(w) && From(ts, u)
    ensures Enabled(Start(), PostLock(u)) && Disciplined(ts, Start(), PostLock(u)) && s1 == Do(Start(), PostLock(u))
    ensures Enabled(s1, PostFill) && s2 == Do(s1, PostFill)
    ensures Enabled(s2, PostSignalUnlock) && s3 == Do(s2, PostSignalUnlock)
    ensures s3 == Only(w, Holding(u), Outside)
  {
    var x1 := FreshWorker.(mutex := ByDispatcher);
    var x2 := Holding(u).(mutex := ByDispatcher);
    s1, s2, s3 := Only(w, x1, Locked(w, u)), Only(w, x2, Filled(w)), Only(w, Holding(u), Outside);
    assert Only(w, FreshWorker, Outside) == Start();
    assert x1.posted + [u] == [u] && x1.overwritten + [] == [];
    OnlyIdle(w, FreshWorker, Outside, u);
    OnlyStep(w, FreshWorker, Outside, PostLock(u));
    OnlyStep(w, x1, Locked(w, u), PostFill);
    OnlyStep(w, x2, Filled(w), PostSignalUnlock);
  }

  lemma SecondPost(ts: set<Thread>, w: nat, u: Upcall, v: Upcall) returns (s4: State, t: State)
    requires WorkerOf(v) == Some(w) && From(ts, v) && Client(u) != Client(v)
    ensures var s3 := Only(w, Holding(u), Outside);
            Enabled(s3, PostLock(v)) && Disciplined(ts, s3, PostLock(v)) && s4 == Do(s3, PostLock(v))
    ensures Enabled(s4, PostFill) && t == Do(s4, PostFill)
    ensures w < |t.workers| && t.workers[w].overwritten == [Msg(0, u)]
  {
    var x4 := Holding(u).(mutex := ByDispatcher);
    OnlyIdle(w, Holding(u), Outside, v);
    OnlyStep(w, Holding(u), Outside, PostLock(v));
    OnlyStep(w, x4, Locked(w, v), PostFill);
    s4 := Only(w, x4, Locked(w, v));
    t := Only(w, FillSlot(x4, v), Filled(w));
  }

  /** An asynchronous call of a client thread. */
  function CallOf(i: Thread): Upcall {
    Upcall(SOCKET, Bytes(i * HANDLE_UNIT))
  }

  lemma CallOfThread(i: Thread)
    ensures var u := CallOf(i);
            IsAsync(u.opcode) && ThreadIndex(HandleOf(u)) == i && WorkerOf(u) == Some(i % (WORKER_NUM - 1))
  {
    WordOfBytes([], i * HANDLE_UNIT, []);
    assert [] + Bytes(i * HANDLE_UNIT) + [] == Bytes(i * HANDLE_UNIT);
  }

  predicate NothingOverwritten(t: State) {
    forall w :: 0 <= w < |t.workers| ==> t.workers[w].overwritten == []
  }

  /** Whatever clients with these threads do within the discipline, nothing is lost. */
  ghost predicate Safe(ts: set<Thread>) {
    forall acts, t :: Reachable(acts, t) && DisciplinedRun(ts, Start(), acts) ==> NothingOverwritten(t)
  }

  lemma SeparateIsSafe(ts: set<Thread>)
    requires Separate(ts)
    ensures Safe(ts)
  {
    forall acts, t | Reachable(acts, t) && DisciplinedRun(ts, Start(), acts)
      ensures NothingOverwritten(t)
    {
      ReachableOk(acts, t);
      forall w | 0 <= w < |t.workers|
        ensures t.workers[w].overwritten == []
      {
        ExactlyOnce(ts, acts, t, w);
      }
    }
  }

  lemma SharingIsUnsafe(ts: set<Thread>, i: Thread, j: Thread)
    requires i in ts && j in ts && i != j && i % (WORKER_NUM - 1) == j % (WORKER_NUM - 1)
    ensures !Safe(ts)
  {
    CallOfThread(i);
    CallOfThread(j);
    var t := SharedWorkerLoses(ts, CallOf(i), CallOf(j));
    assert !NothingOverwritten(t);
  }

  /** A set of client threads loses no upcall in any disciplined run if and only if no
      two of them have the same remainder modulo 19. */
  lemma SafeExactly(ts: set<Thread>)
    ensures Safe(ts) <==> Separate(ts)
  {
    if Separate(ts) {
      SeparateIsSafe(ts);
    } else {
      var i: Thread, j: Thread :| i in ts && j in ts && i % (WORKER_NUM - 1) == j % (WORKER_NUM - 1) && i != j;
      SharingIsUnsafe(ts, i, j);
    }
  }

  /** `width` consecutive threads. */
  ghost predicate Window(ts: set<Thread>, lo: nat, width: nat) {
    lo + width <= THREADS && forall i: Thread :: i in ts <==> lo <= i < lo + width
  }

  lemma SameResidue(lo: int, i: int, j: int)
    requires lo <= i < lo + 19 && lo <= j < lo + 19 && i % 19 == j % 19
    ensures i == j
  {
    assert i == 19 * (i / 19) + i % 19 && j == 19 * (j / 19) + j % 19;
  }

  /** So a window of consecutive threads is safe exactly up to 19 of them. */
  lemma WindowSafeExactly(ts: set<Thread>, lo: nat, width: nat)
    requires Window(ts, lo, width)
    ensures Safe(ts) <==> width <= WORKER_NUM - 1
  {
    SafeExactly(ts);
    if width <= WORKER_NUM - 1 {
      forall i: Thread, j: Thread | i in ts && j in ts && i % (WORKER_NUM - 1) == j % (WORKER_NUM - 1)
        ensures i == j
      {
        SameResidue(lo, i, j);
      }
    } else {
      var i: Thread, j: Thread := lo, lo + (WORKER_NUM - 1);
      assert i in ts && j in ts && i % (WORKER_NUM - 1) == j % (WORKER_NUM - 1);
    }
  }
}
