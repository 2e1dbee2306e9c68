/** The dispatcher and the worker mailboxes as a state machine: every
    interleaving of lock, wait, wake, take, handle, post and die. */
module Mailbox {
  import opened Words
  import opened Upcalls

  /** A posted upcall, numbered in the order of posting to its worker. */
  datatype Msg = Msg(id: nat, call: Upcall)

  datatype Owner = Free | ByWorker | ByDispatcher

  /** Where a worker is: about to lock, testing the slot under the mutex, blocked in
      `cond_wait`, woken but not yet holding the mutex, running a handler before and
      after its answer went out, or out of the loop. */
  datatype Pc = AtTop | Checking | Blocked | Woken | Serving(m: Msg) | Answered(m: Msg) | Dead

  /** One worker: mutex, program counter, slot and `retval`; and its history. */
  datatype Worker = Worker(mutex: Owner, pc: Pc, arg: Option<Msg>, retval: int,
                           posted: seq<Upcall>, handled: seq<Msg>, overwritten: seq<Msg>)

  /** The dispatcher in `post_upcall`: outside, holding a mutex, or with the slot
      filled and the signal still to be sent. */
  datatype Poster = Outside | Locked(w: nat, u: Upcall) | Filled(w: nat)

  datatype State = State(workers: seq<Worker>, poster: Poster)

  datatype Action =
    | PostUnknown(u: Upcall)
    | PostLock(u: Upcall)
    | PostFill
    | PostSignalUnlock
    | Lock(w: nat)
    | Wait(w: nat)
    | SpuriousWake(w: nat)
    | Relock(w: nat)
    | Take(w: nat)
    | Answer(w: nat)
    | Finish(w: nat, ret: int)

  const FreshWorker := Worker(Free, AtTop, None, 0, [], [], [])

  function Start(): State {
    State(seq(WORKER_NUM, i => FreshWorker), Outside)
  }

  /** `worker_loop` has a case for the opcode. */
  predicate Handles(opcode: u32) {
    || opcode == CLOSE || opcode == PIPE || opcode == SOCKET || opcode == POLL || opcode == BINDER_WRITE_READ
    || opcode == ALIEN_MMAP2 || opcode == FUTEX_WAIT || opcode == FUTEX_WAKE
  }

  // ---- Steps of one worker -----------------------------------------------

  /** `post_upcall` under the mutex: the slot gets the new upcall, whatever it held. */
  function FillSlot(x: Worker, u: Upcall): Worker {
    x.(arg := Some(Msg(|x.posted|, u)), posted := x.posted + [u],
       overwritten := x.overwritten + if x.arg.Some? then [x.arg.value] else [])
  }

  function SignalUnlock(x: Worker): Worker {
    x.(mutex := Free, pc := if x.pc == Blocked then Woken else x.pc)
  }

  predicate CanStep(x: Worker, a: Action) {
    match a
    case Lock(_) => x.pc == AtTop && x.mutex == Free
    case Wait(_) => x.pc == Checking && x.arg == None
    case SpuriousWake(_) => x.pc == Blocked
    case Relock(_) => x.pc == Woken && x.mutex == Free
    case Take(_) => x.pc == Checking && x.arg.Some?
    case Answer(_) => x.pc.Serving?
    case Finish(_, ret) =>
      (x.pc.Serving? || x.pc.Answered?) && (!Handles(x.pc.m.call.opcode) ==> ret == x.retval)
    case _ => false
  }

  /** A step of the worker itself. An opcode without a case leaves `retval` as it was. */
  function StepWorker(x: Worker, a: Action): Worker
    requires CanStep(x, a)
  {
    match a
    case Lock(_) => x.(mutex := ByWorker, pc := Checking)
    case Wait(_) => x.(mutex := Free, pc := Blocked)
    case SpuriousWake(_) => x.(pc := Woken)
    case Relock(_) => x.(mutex := ByWorker, pc := Checking)
    case Take(_) => x.(mutex := Free, pc := Serving(x.arg.value), arg := None)
    case Answer(_) => x.(pc := Answered(x.pc.m))
    case Finish(_, ret) => x.(retval := ret, handled := x.handled + [x.pc.m], pc := if ret != 0 then Dead else AtTop)
  }

  // ---- Steps of the system -----------------------------------------------

  predicate Enabled(s: State, a: Action) {
    match a
    case PostUnknown(u) => s.poster == Outside && WorkerOf(u) == None
    case PostLock(u) =>
      s.poster == Outside && WorkerOf(u).Some? && WorkerOf(u).value < |s.workers| && s.workers[WorkerOf(u).value].mutex == Free
    case PostFill => s.poster.Locked? && s.poster.w < |s.workers|
    case PostSignalUnlock => s.poster.Filled? && s.poster.w < |s.workers|
    case _ => a.w < |s.workers| && CanStep(s.workers[a.w], a)
  }

  function Do(s: State, a: Action): State
    requires Enabled(s, a)
  {
    match a
    case PostUnknown(_) => s
    case PostLock(u) =>
      var w := WorkerOf(u).value;
      State(s.workers[w := s.workers[w].(mutex := ByDispatcher)], Locked(w, u))
    case PostFill =>
      var w := s.poster.w;
      State(s.workers[w := FillSlot(s.workers[w], s.poster.u)], Filled(w))
    case PostSignalUnlock =>
      var w := s.poster.w;
      State(s.workers[w := SignalUnlock(s.workers[w])], Outside)
    case _ => s.(workers := s.workers[a.w := StepWorker(s.workers[a.w], a)])
  }

  /** What a step makes of the poster, and of worker `w`. */
  function PosterAfter(p: Poster, a: Action): Poster
    requires a.PostLock? ==> WorkerOf(a.u).Some?
    requires a.PostFill? ==> p.Locked?
  {
    match a
    case PostLock(u) => Locked(WorkerOf(u).value, u)
    case PostFill => Filled(p.w)
    case PostSignalUnlock => Outside
    case _ => p
  }

  /** Can worker `w` take its part in the step? */
  predicate Ready(x: Worker, p: Poster, a: Action, w: nat) {
    match a
    case PostUnknown(_) => true
    case PostLock(u) => WorkerOf(u).Some? && (WorkerOf(u).value == w ==> x.mutex == Free)
    case PostFill => p.Locked?
    case PostSignalUnlock => p.Filled?
    case _ => a.w == w ==> CanStep(x, a)
  }

  function After(x: Worker, p: Poster, a: Action, w: nat): Worker
    requires Ready(x, p, a, w)
  {
    match a
    case PostUnknown(_) => x
    case PostLock(u) => if WorkerOf(u).value == w then x.(mutex := ByDispatcher) else x
    case PostFill => if p.w == w then FillSlot(x, p.u) else x
    case PostSignalUnlock => if p.w == w then SignalUnlock(x) else x
    case _ => if a.w == w then StepWorker(x, a) else x
  }

  lemma DoAfter(s: State, a: Action, w: nat)
    requires Enabled(s, a) && w < |s.workers|
    ensures Ready(s.workers[w], s.poster, a, w) && |Do(s, a).workers| == |s.workers|
    ensures Do(s, a).workers[w] == After(s.workers[w], s.poster, a, w)
    ensures Do(s, a).poster == PosterAfter(s.poster, a)
  {
  }

  /** Where the run `acts` ends, unless some step of it is not enabled. */
  function Exec(s: State, acts: seq<Action>): Option<State>
    decreases |acts|
  {
    if acts == [] then Some(s)
    else if Enabled(s, acts[0]) then Exec(Do(s, acts[0]), acts[1..])
    else None
  }

  /** The run `acts` leads from `s` to `t`. */
  predicate Leads(s: State, acts: seq<Action>, t: State) {
    Exec(s, acts) == Some(t)
  }

  // ---- Invariant ---------------------------------------------------------

  function InService(x: Worker): seq<Msg> {
    if x.pc.Serving? || x.pc.Answered? then [x.pc.m] else []
  }

  function Pending(x: Worker): seq<Msg> {
    if x.arg.Some? then [x.arg.value] else []
  }

  /** Handled, then in service, then pending. */
  function Flow(x: Worker): seq<Msg> {
    x.handled + InService(x) + Pending(x)
  }

  function Tickets(us: seq<Upcall>): (t: seq<Msg>)
    ensures |t| == |us| && forall i :: 0 <= i < |us| ==> t[i] == Msg(i, us[i])
  {
    seq(|us|, i requires 0 <= i < |us| => Msg(i, us[i]))
  }

  predicate Increasing(ms: seq<Msg>) {
    forall i, j :: 0 <= i < j < |ms| ==> ms[i].id < ms[j].id
  }

  /** Every posted upcall is handled, in service, pending or overwritten, once, and
      the first three keep the order of posting. */
  predicate Accounted(x: Worker) {
    && multiset(Flow(x)) + multiset(x.overwritten) == multiset(Tickets(x.posted))
    && Increasing(Flow(x))
  }

  predicate Mine(x: Worker, w: nat) {
    forall u :: u in x.posted ==> WorkerOf(u) == Some(w)
  }

  predicate Touches(p: Poster, w: nat) {
    (p.Locked? && p.w == w) || (p.Filled? && p.w == w)
  }

  predicate WorkerOk(x: Worker, w: nat, p: Poster) {
    && (x.mutex == ByWorker <==> x.pc == Checking)
    && (x.mutex == ByDispatcher <==> Touches(p, w))
    && (x.pc == Blocked && x.arg.Some? ==> p == Filled(w))
    && (x.retval != 0 ==> x.pc == Dead)
    && Accounted(x) && Mine(x, w)
  }

  predicate Inv(s: State) {
    && |s.workers| == WORKER_NUM
    && (s.poster.Locked? ==> WorkerOf(s.poster.u) == Some(s.poster.w))
    && (s.poster.Filled? ==> s.poster.w < WORKER_NUM)
    && forall w :: 0 <= w < WORKER_NUM ==> WorkerOk(s.workers[w], w, s.poster)
  }

  // ---- Histories ---------------------------------------------------------

  lemma InTickets(us: seq<Upcall>, m: Msg)
    requires m in multiset(Tickets(us))
    ensures m.id < |us| && us[m.id] == m.call
  {
    var t := Tickets(us);
    assert m in t;
    var i :| 0 <= i < |t| && t[i] == m;
  }

  /** Everything in the flow and everything lost was posted. */
  lemma FlowPosted(x: Worker, m: Msg)
    requires Accounted(x) && (m in Flow(x) || m in x.overwritten)
    ensures m.id < |x.posted| && x.posted[m.id] == m.call
  {
    assert m in multiset(Flow(x)) + multiset(x.overwritten);
    InTickets(x.posted, m);
  }

  lemma TicketsSnoc(us: seq<Upcall>, u: Upcall)
    ensures Tickets(us + [u]) == Tickets(us) + [Msg(|us|, u)]
  {
  }

  lemma IncreasingSnoc(ms: seq<Msg>, m: Msg)
    requires Increasing(ms) && forall i :: 0 <= i < |ms| ==> ms[i].id < m.id
    ensures Increasing(ms + [m])
  {
  }

  lemma IncreasingPrefix(a: seq<Msg>, b: seq<Msg>)
    requires Increasing(a + b)
    ensures Increasing(a)
  {
    assert forall i :: 0 <= i < |a| ==> (a + b)[i] == a[i];
  }

  /** Filling the slot moves the old occupant, if any, to the overwritten ones. */
  lemma FillAccounts(x: Worker, u: Upcall)
    requires Accounted(x)
    ensures Accounted(FillSlot(x, u))
  {
    var base := x.handled + InService(x);
    var m := Msg(|x.posted|, u);
    var y := FillSlot(x, u);
    TicketsSnoc(x.posted, u);
    assert Flow(x) == base + Pending(x) && Flow(y) == base + [m];
    forall i | 0 <= i < |base|
      ensures base[i].id < m.id
    {
      assert Flow(x)[i] == base[i];
      FlowPosted(x, base[i]);
    }
    IncreasingPrefix(base, Pending(x));
    IncreasingSnoc(base, m);
    assert y.overwritten == x.overwritten + Pending(x);
    assert multiset(Flow(x)) == multiset(base) + multiset(Pending(x));
    assert multiset(Flow(y)) == multiset(base) + multiset{m};
    assert multiset(y.overwritten) == multiset(x.overwritten) + multiset(Pending(x));
    assert multiset(Tickets(y.posted)) == multiset(Tickets(x.posted)) + multiset{m};
  }

  /** The worker's own steps move upcalls along, and neither lose nor repeat any. */
  lemma StepKeepsFlow(x: Worker, a: Action)
    requires CanStep(x, a)
    ensures Flow(StepWorker(x, a)) == Flow(x) && StepWorker(x, a).posted == x.posted
    ensures StepWorker(x, a).overwritten == x.overwritten
  {
    var y := StepWorker(x, a);
    if a.Take? {
      assert Flow(y) == x.handled + [x.arg.value] + [];
      assert Flow(x) == x.handled + [] + [x.arg.value];
    } else if a.Finish? {
      assert Flow(y) == x.handled + [x.pc.m] + [] + Pending(x);
    }
  }

  lemma StepOk(x: Worker, a: Action, w: nat, p: Poster)
    requires WorkerOk(x, w, p) && CanStep(x, a)
    ensures WorkerOk(StepWorker(x, a), w, p)
  {
    StepKeepsFlow(x, a);
  }

  lemma FillOk(x: Worker, w: nat, u: Upcall)
    requires WorkerOk(x, w, Locked(w, u)) && WorkerOf(u) == Some(w)
    ensures WorkerOk(FillSlot(x, u), w, Filled(w))
  {
    FillAccounts(x, u);
  }

  lemma OthersOk(x: Worker, w: nat, p: Poster, q: Poster)
    requires WorkerOk(x, w, p) && !Touches(p, w) && !Touches(q, w)
    ensures WorkerOk(x, w, q)
  {
  }

  lemma LockOk(x: Worker, w: nat, u: Upcall)
    requires WorkerOk(x, w, Outside) && x.mutex == Free
    ensures WorkerOk(x.(mutex := ByDispatcher), w, Locked(w, u))
  {
    var y := x.(mutex := ByDispatcher);
    assert Flow(y) == Flow(x);
  }

  lemma SignalOk(x: Worker, w: nat)
    requires WorkerOk(x, w, Filled(w))
    ensures WorkerOk(SignalUnlock(x), w, Outside)
  {
    assert Flow(SignalUnlock(x)) == Flow(x);
  }

  /** A step of `post_upcall` keeps its own worker's invariant ... */
  lemma PostStepOk(s: State, a: Action, w: nat)
    requires Inv(s) && Enabled(s, a) && (a.PostLock? || a.PostFill? || a.PostSignalUnlock?)
    requires w == if a.PostLock? then WorkerOf(a.u).value else s.poster.w
    ensures w < WORKER_NUM && Touches(if a.PostSignalUnlock? then s.poster else Do(s, a).poster, w)
    ensures WorkerOk(Do(s, a).workers[w], w, Do(s, a).poster)
  {
    var x := s.workers[w];
    if a.PostLock? {
      LockOk(x, w, a.u);
    } else if a.PostFill? {
      FillOk(x, w, s.poster.u);
    } else {
      SignalOk(x, w);
    }
  }

  /** ... and no other worker's. */
  lemma PostKeeps(s: State, a: Action)
    requires Inv(s) && Enabled(s, a) && (a.PostLock? || a.PostFill? || a.PostSignalUnlock?)
    ensures Inv(Do(s, a))
  {
    var v := if a.PostLock? then WorkerOf(a.u).value else s.poster.w;
    PostStepOk(s, a, v);
    var t := Do(s, a);
    forall w | 0 <= w < WORKER_NUM
      ensures WorkerOk(t.workers[w], w, t.poster)
    {
      if w != v {
        OthersOk(s.workers[w], w, s.poster, t.poster);
      }
    }
  }

  lemma WorkerKeeps(s: State, a: Action, w: nat)
    requires Inv(s) && w < WORKER_NUM && CanStep(s.workers[w], a)
    ensures Inv(s.(workers := s.workers[w := StepWorker(s.workers[w], a)]))
  {
    var y := StepWorker(s.workers[w], a);
    assert WorkerOk(y, w, s.poster) by {
      StepOk(s.workers[w], a, w, s.poster);
    }
    Replaced(s, w, y);
  }

  lemma Replaced(s: State, w: nat, y: Worker)
    requires Inv(s) && w < WORKER_NUM && WorkerOk(y, w, s.poster)
    ensures Inv(s.(workers := s.workers[w := y]))
  {
  }

  /** Every step keeps the invariant. */
  lemma StepKeeps(s: State, a: Action)
    requires Inv(s) && Enabled(s, a)
    ensures Inv(Do(s, a))
  {
    match a
    case PostUnknown(_) =>
    case PostLock(_) => PostKeeps(s, a);
    case PostFill => PostKeeps(s, a);
    case PostSignalUnlock => PostKeeps(s, a);
    case _ => WorkerKeeps(s, a, a.w);
  }

  lemma StartOk()
    ensures Inv(Start())
  {
    assert Flow(FreshWorker) == [] && Tickets(FreshWorker.posted) == [];
  }

  /** So it holds in every reachable state. */
  lemma {:induction false} RunKeeps(s: State, acts: seq<Action>, t: State)
    requires Inv(s) && Leads(s, acts, t)
    ensures Inv(t)
    decreases |acts|
  {
    if acts != [] {
      StepKeeps(s, acts[0]);
      RunKeeps(Do(s, acts[0]), acts[1..], t);
    }
  }
}
