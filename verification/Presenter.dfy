/** The slide presenter: what one action does to the screen, and the one-slot monitor
    between the thread that signals actions and the thread that shows slides. */
module Presenter {
  import opened Words

  datatype Action = NO_OP | PREV_SLIDE | NEXT_SLIDE | TOGGLE_BLANK

  /** The slide index and whether the screen is blanked. */
  datatype View = View(slide: nat, blank: bool)

  // ---- What the actions mean ---------------------------------------------

  /** One action on a deck of `n` slides. */
  function Apply(n: nat, v: View, a: Action): View {
    match a
    case PREV_SLIDE => if v.slide > 1 then v.(slide := v.slide - 1) else v
    case NEXT_SLIDE => if v.slide < n then v.(slide := v.slide + 1) else v
    case TOGGLE_BLANK => v.(blank := !v.blank)
    case NO_OP => v
  }

  /** A sequence of actions, first to last. */
  function Fold(n: nat, v: View, acts: seq<Action>): View {
    if acts == [] then v else Apply(n, Fold(n, v, acts[..|acts| - 1]), acts[|acts| - 1])
  }

  lemma FoldSnoc(n: nat, v: View, acts: seq<Action>, a: Action)
    ensures Fold(n, v, acts + [a]) == Apply(n, Fold(n, v, acts), a)
  {
    assert (acts + [a])[..|acts|] == acts;
  }

  function Count(acts: seq<Action>, a: Action): nat {
    multiset(acts)[a]
  }

  /** The blank flag is the parity of the toggles; the slide stays in the deck, and
      counts the moves exactly where it cannot run into an end of it. */
  lemma {:induction false} FoldBounds(n: nat, v: View, acts: seq<Action>)
    ensures Fold(n, v, acts).blank == (v.blank != (Count(acts, TOGGLE_BLANK) % 2 == 1))
    ensures v.slide <= n ==> Fold(n, v, acts).slide <= n
    ensures 1 <= v.slide ==> 1 <= Fold(n, v, acts).slide
    ensures Fold(n, v, acts).slide <= v.slide + Count(acts, NEXT_SLIDE)
    ensures v.slide <= Fold(n, v, acts).slide + Count(acts, PREV_SLIDE)
    ensures v.slide > Count(acts, PREV_SLIDE) && v.slide + Count(acts, NEXT_SLIDE) <= n ==>
              Fold(n, v, acts).slide == v.slide + Count(acts, NEXT_SLIDE) - Count(acts, PREV_SLIDE)
  {
    if acts != [] {
      var init, a := acts[..|acts| - 1], acts[|acts| - 1];
      FoldBounds(n, v, init);
      assert acts == init + [a];
      CountSnoc(init, a, TOGGLE_BLANK);
      CountSnoc(init, a, NEXT_SLIDE);
      CountSnoc(init, a, PREV_SLIDE);
      Flips(Count(init, TOGGLE_BLANK));
    }
  }

  lemma CountSnoc(acts: seq<Action>, a: Action, b: Action)
    ensures Count(acts + [a], b) == Count(acts, b) + if a == b then 1 else 0
  {
    assert multiset(acts + [a]) == multiset(acts) + multiset{a};
  }

  lemma Flips(k: nat)
    ensures (k + 1) % 2 == 1 <==> k % 2 != 1
  {
  }

  /** The fields of the presenter that its thread works on. */
  class Screen {
    const mNumberOfSlides: nat
    var mCurrentSlide: nat
    var mBlankScreen: bool
    var mAction: Action

    function Shown(): View
      reads this
    {
      View(mCurrentSlide, mBlankScreen)
    }

    constructor (n: nat)
      ensures mNumberOfSlides == n && Shown() == View(0, false) && mAction == NO_OP
    {
      mNumberOfSlides := n;
      mCurrentSlide, mBlankScreen, mAction := 0, false, NO_OP;
    }

    /** The index is set only when the slide could be decoded. */
    method LoadSlide(n: nat, decodes: bool) returns (ok: bool)
      modifies this`mCurrentSlide
      ensures ok == decodes && mCurrentSlide == if ok then n else old(mCurrentSlide)
    {
      if decodes {
        mCurrentSlide := n;
      }
      return decodes;
    }

    /** One turn of the presentation loop, between the wait and the unlock: whether or
        not the slide can be decoded, the view moves as the action says. */
    method HandleAction(decodes: bool)
      modifies this
      ensures Shown() == Apply(mNumberOfSlides, old(Shown()), old(mAction)) && mAction == NO_OP
    {
      match mAction {
        case PREV_SLIDE =>
          if mCurrentSlide > 1 {
            mCurrentSlide := mCurrentSlide - 1;
            var _ := LoadSlide(mCurrentSlide, decodes);
          }
        case NEXT_SLIDE =>
          if mCurrentSlide < mNumberOfSlides {
            mCurrentSlide := mCurrentSlide + 1;
            var _ := LoadSlide(mCurrentSlide, decodes);
          }
        case TOGGLE_BLANK =>
          mBlankScreen := !mBlankScreen;
        case NO_OP =>
      }
      mAction := NO_OP;
    }
  }

  // ---- The monitor -------------------------------------------------------

  datatype Owner = Free | ByProducer | ByConsumer

  /** The thread in `signalAction`: outside; about to lock; testing `mAction` under the
      mutex; blocked in `cond_wait`; woken without the mutex; `mAction` set; signalled. */
  datatype Producer = Idle | Locking(a: Action) | Testing(a: Action) | Waiting(a: Action) | Roused(a: Action) | Set | Signalled

  /** The thread in `runPresentation`: before the first slide; about to lock; testing;
      blocked; woken; the new index chosen and to be loaded; about to clear `mAction`. */
  datatype Consumer = Starting | AtTop | Checking | Blocked | Woken | Loading(n: nat) | Clearing

  datatype State = State(owner: Owner, action: Action, slide: nat, blank: bool, producer: Producer, consumer: Consumer,
                         first: View, posted: seq<Action>, handled: seq<Action>)

  datatype Step =
    | Call(a: Action) | LockP | WaitP | SpuriousP | RelockP | SetAction | Signal | UnlockP
    | Initial(decodes: bool) | LockC | WaitC | SpuriousC | RelockC | Begin | Load(decodes: bool) | Clear

  function Start(): State {
    State(Free, NO_OP, 0, false, Idle, Starting, View(0, false), [], [])
  }

  /** Steps of the signalling thread. */
  predicate ProducerCan(s: State, t: Step) {
    match t
    case Call(_) => s.producer == Idle
    case LockP => s.producer.Locking? && s.owner == Free
    case WaitP => s.producer.Testing? && s.action != NO_OP
    case SpuriousP => s.producer.Waiting?
    case RelockP => s.producer.Roused? && s.owner == Free
    case SetAction => s.producer.Testing? && s.action == NO_OP
    case Signal => s.producer == Set
    case UnlockP => s.producer == Signalled
    case _ => false
  }

  function ProducerStep(s: State, t: Step): State
    requires ProducerCan(s, t)
  {
    match t
    case Call(a) => if a == NO_OP then s else s.(producer := Locking(a))
    case LockP => s.(owner := ByProducer, producer := Testing(s.producer.a))
    case WaitP => s.(owner := Free, producer := Waiting(s.producer.a))
    case SpuriousP => s.(producer := Roused(s.producer.a))
    case RelockP => s.(owner := ByProducer, producer := Testing(s.producer.a))
    case SetAction => s.(action := s.producer.a, producer := Set, posted := s.posted + [s.producer.a])
    case Signal => s.(producer := Signalled, consumer := if s.consumer == Blocked then Woken else s.consumer)
    case UnlockP => s.(owner := Free, producer := Idle)
  }

  /** Steps of the presenting thread. */
  predicate ConsumerCan(s: State, t: Step) {
    match t
    case Initial(_) => s.consumer == Starting
    case LockC => s.consumer == AtTop && s.owner == Free
    case WaitC => s.consumer == Checking && s.action == NO_OP
    case SpuriousC => s.consumer == Blocked
    case RelockC => s.consumer == Woken && s.owner == Free
    case Begin => s.consumer == Checking && s.action != NO_OP
    case Load(_) => s.consumer.Loading?
    case Clear => s.consumer == Clearing
    case _ => false
  }

  /** The switch on `mAction`, up to the call of `loadSlide`. */
  function BeginStep(n: nat, s: State): State {
    match s.action
    case PREV_SLIDE =>
      if s.slide > 1 then s.(slide := s.slide - 1, consumer := Loading(s.slide - 1)) else s.(consumer := Clearing)
    case NEXT_SLIDE =>
      if s.slide < n then s.(slide := s.slide + 1, consumer := Loading(s.slide + 1)) else s.(consumer := Clearing)
    case TOGGLE_BLANK => s.(blank := !s.blank, consumer := Clearing)
    case NO_OP => s.(consumer := Clearing)
  }

  function ConsumerStep(n: nat, s: State, t: Step): State
    requires ConsumerCan(s, t)
  {
    match t
    case Initial(decodes) =>
      var slide := if decodes then 1 else s.slide;
      s.(slide := slide, first := View(slide, s.blank), consumer := AtTop)
    case LockC => s.(owner := ByConsumer, consumer := Checking)
    case WaitC => s.(owner := Free, consumer := Blocked)
    case SpuriousC => s.(consumer := Woken)
    case RelockC => s.(owner := ByConsumer, consumer := Checking)
    case Begin => BeginStep(n, s)
    case Load(decodes) => s.(slide := if decodes then s.consumer.n else s.slide, consumer := Clearing)
    case Clear => s.(action := NO_OP, owner := Free, consumer := AtTop, handled := s.handled + [s.action])
  }

  predicate Enabled(s: State, t: Step) {
    ProducerCan(s, t) || ConsumerCan(s, t)
  }

  function Do(n: nat, s: State, t: Step): State
    requires Enabled(s, t)
  {
    if ProducerCan(s, t) then ProducerStep(s, t) else ConsumerStep(n, s, t)
  }

  /** Where a run ends, unless some step of it is not enabled. */
  function Exec(n: nat, s: State, steps: seq<Step>): Option<State>
    decreases |steps|
  {
    if steps == [] then Some(s)
    else if Enabled(s, steps[0]) then Exec(n, Do(n, s, steps[0]), steps[1..])
    else None
  }

  predicate Leads(n: nat, s: State, steps: seq<Step>, t: State) {
    Exec(n, s, steps) == Some(t)
  }

  // ---- Invariant ---------------------------------------------------------

  function Pending(s: State): seq<Action> {
    if s.action == NO_OP then [] else [s.action]
  }

  /** The action `signalAction` was called with and has not stored yet. */
  function InHand(p: Producer): seq<Action> {
    if p.Locking? || p.Testing? || p.Waiting? || p.Roused? then [p.a] else []
  }

  predicate Handling(c: Consumer) {
    c.Loading? || c.Clearing?
  }

  /** What the view has to be: the pending action counts from `Begin` on. */
  function Goal(n: nat, s: State): View {
    if Handling(s.consumer) then Apply(n, Fold(n, s.first, s.handled), s.action) else Fold(n, s.first, s.handled)
  }

  predicate Inv(n: nat, s: State) {
    && (s.owner == ByProducer <==> s.producer.Testing? || s.producer.Set? || s.producer.Signalled?)
    && (s.owner == ByConsumer <==> s.consumer.Checking? || Handling(s.consumer))
    && (s.producer.Set? || Handling(s.consumer) ==> s.action != NO_OP)
    && (s.consumer == Blocked && s.action != NO_OP ==> s.producer == Set)
    && (s.consumer.Loading? ==> s.consumer.n == s.slide)
    && NO_OP !in s.posted && NO_OP !in InHand(s.producer)
    && s.handled + Pending(s) == s.posted
    && (s.consumer == Starting ==> s.handled == [] && s.first == View(0, false))
    && s.first in {View(0, false), View(1, false)}
    && View(s.slide, s.blank) == Goal(n, s)
  }

  lemma ProducerKeeps(n: nat, s: State, t: Step)
    requires Inv(n, s) && ProducerCan(s, t)
    ensures Inv(n, ProducerStep(s, t))
  {
  }

  lemma BeginKeeps(n: nat, s: State)
    requires Inv(n, s) && ConsumerCan(s, Begin)
    ensures Inv(n, BeginStep(n, s))
  {
  }

  lemma ConsumerKeeps(n: nat, s: State, t: Step)
    requires Inv(n, s) && ConsumerCan(s, t)
    ensures Inv(n, ConsumerStep(n, s, t))
  {
    if t.Clear? {
      FoldSnoc(n, s.first, s.handled, s.action);
    } else if t.Begin? {
      BeginKeeps(n, s);
    }
  }

  lemma StepKeeps(n: nat, s: State, t: Step)
    requires Inv(n, s) && Enabled(s, t)
    ensures Inv(n, Do(n, s, t))
  {
    if ProducerCan(s, t) {
      ProducerKeeps(n, s, t);
    } else {
      ConsumerKeeps(n, s, t);
    }
  }

  lemma {:induction false} RunKeeps(n: nat, s: State, steps: seq<Step>, t: State)
    requires Inv(n, s) && Leads(n, s, steps, t)
    ensures Inv(n, t)
    decreases |steps|
  {
    if steps != [] {
      StepKeeps(n, s, steps[0]);
      RunKeeps(n, Do(n, s, steps[0]), steps[1..], t);
    }
  }

  // ---- Once, and in order ------------------------------------------------

  function CalledBy(t: Step): seq<Action> {
    if t.Call? && t.a != NO_OP then [t.a] else []
  }

  /** The actions `signalAction` was called with in a run, `NO_OP` left out. */
  function Called(steps: seq<Step>): seq<Action> {
    if steps == [] then [] else CalledBy(steps[0]) + Called(steps[1..])
  }

  lemma {:induction false} RunCalled(n: nat, s: State, steps: seq<Step>, t: State)
    requires Leads(n, s, steps, t)
    ensures t.posted + InHand(t.producer) == s.posted + InHand(s.producer) + Called(steps)
    decreases |steps|
  {
    if steps != [] {
      var r := Do(n, s, steps[0]);
      assert r.posted + InHand(r.producer) == s.posted + InHand(s.producer) + CalledBy(steps[0]);
      RunCalled(n, r, steps[1..], t);
    }
  }

  predicate Reachable(n: nat, steps: seq<Step>, t: State) {
    Leads(n, Start(), steps, t)
  }

  lemma ReachableOk(n: nat, steps: seq<Step>, t: State)
    requires Reachable(n, steps, t)
    ensures Inv(n, t)
  {
    assert Fold(n, View(0, false), []) == View(0, false);
    RunKeeps(n, Start(), steps, t);
  }

  /** In every interleaving, spurious wakeups included: what was handled, then what is
      pending, then what the caller still holds, is what was asked for, in order. */
  lemma OnceInOrder(n: nat, steps: seq<Step>, t: State)
    requires Reachable(n, steps, t)
    ensures t.handled + Pending(t) == t.posted
    ensures t.posted + InHand(t.producer) == Called(steps)
  {
    ReachableOk(n, steps, t);
    RunCalled(n, Start(), steps, t);
  }

  // ---- The screen --------------------------------------------------------

  lemma {:induction false} InitialOnce(n: nat, s: State, steps: seq<Step>, t: State)
    requires Leads(n, s, steps, t) && s.consumer != Starting
    ensures Initial(true) !in steps && t.first == s.first
    decreases |steps|
  {
    if steps != [] {
      InitialOnce(n, Do(n, s, steps[0]), steps[1..], t);
    }
  }

  /** The first view is slide 1 exactly if the first load succeeded. */
  lemma {:induction false} FirstView(n: nat, s: State, steps: seq<Step>, t: State)
    requires Leads(n, s, steps, t) && s.consumer == Starting && s.first == View(0, false) && s.slide == 0 && !s.blank
    ensures t.first == View(if Initial(true) in steps then 1 else 0, false)
    decreases |steps|
  {
    if steps != [] {
      var r := Do(n, s, steps[0]);
      assert steps == [steps[0]] + steps[1..];
      if steps[0].Initial? {
        InitialOnce(n, r, steps[1..], t);
      } else {
        FirstView(n, r, steps[1..], t);
      }
    }
  }

  /** Between actions the view is the fold of the handled actions over the first view,
      whichever slides failed to load; the blank flag is the parity of the toggles. */
  lemma ViewIsFold(n: nat, steps: seq<Step>, t: State)
    requires Reachable(n, steps, t) && !Handling(t.consumer)
    ensures View(t.slide, t.blank) == Fold(n, View(if Initial(true) in steps then 1 else 0, false), t.handled)
    ensures t.blank <==> Count(t.handled, TOGGLE_BLANK) % 2 == 1
  {
    ReachableOk(n, steps, t);
    FirstView(n, Start(), steps, t);
    FoldBounds(n, t.first, t.handled);
  }

  /** With a slide in the deck the index never passes its end, nor falls below 1 once
      the first slide was shown; also while an action is being handled. */
  lemma SlideInDeck(n: nat, steps: seq<Step>, t: State)
    requires Reachable(n, steps, t)
    ensures n >= 1 ==> t.slide <= n
    ensures Initial(true) in steps ==> t.slide >= 1
  {
    ReachableOk(n, steps, t);
    FirstView(n, Start(), steps, t);
    FoldBounds(n, t.first, t.handled);
  }

  // ---- Progress, and where it ends ---------------------------------------

  lemma LeadsBack(n: nat, s: State, a: Step, rest: seq<Step>, t: State)
    requires Enabled(s, a) && Leads(n, Do(n, s, a), rest, t)
    ensures Leads(n, s, [a] + rest, t)
  {
    assert ([a] + rest)[1..] == rest;
  }

  /** The step that brings the pending action closer to being handled. */
  function Next(s: State): Step {
    match s.producer
    case Testing(_) => WaitP
    case Set => Signal
    case Signalled => UnlockP
    case _ =>
      match s.consumer
      case Starting => Initial(true)
      case AtTop => LockC
      case Checking => Begin
      case Loading(_) => Load(true)
      case Clearing => Clear
      case _ => RelockC
  }

  function Distance(s: State): (d: nat)
    ensures d <= 7
  {
    (match s.producer
     case Testing(_) => 1
     case Set => 2
     case Signalled => 1
     case _ => 0) +
    match s.consumer
    case Starting => 5
    case AtTop => 4
    case Checking => 3
    case Loading(_) => 2
    case Clearing => 1
    case _ => 4
  }

  lemma NextHelps(n: nat, s: State)
    requires Inv(n, s) && s.action != NO_OP
    ensures Enabled(s, Next(s))
    ensures var r := Do(n, s, Next(s));
            if Next(s).Clear? then r.handled == s.handled + [s.action]
            else r.action == s.action && r.handled == s.handled && Distance(r) < Distance(s)
  {
  }

  /** No signal to the presenting thread is lost: from every reachable state, the
      pending action is handled within seven steps, no wakeup being spurious. */
  lemma {:induction false} PendingIsHandled(n: nat, s: State) returns (steps: seq<Step>, t: State)
    requires Inv(n, s) && s.action != NO_OP
    ensures Leads(n, s, steps, t) && |steps| <= Distance(s) && t.handled == s.handled + [s.action]
    ensures forall i :: 0 <= i < |steps| ==> !steps[i].SpuriousC? && !steps[i].SpuriousP? && !steps[i].Call?
    decreases Distance(s)
  {
    var a := Next(s);
    NextHelps(n, s);
    StepKeeps(n, s, a);
    var rest := [];
    t := Do(n, s, a);
    if !a.Clear? {
      rest, t := PendingIsHandled(n, t);
    }
    steps := [a] + rest;
    LeadsBack(n, s, a, rest, t);
  }

  predicate Spurious(t: Step) {
    t.SpuriousP? || t.SpuriousC?
  }

  /** Nothing but a spurious wakeup is possible just when both threads are blocked; the
      slot is then empty, and the caller waits for nothing. */
  lemma StuckExactly(n: nat, s: State)
    requires Inv(n, s)
    ensures (forall t :: Enabled(s, t) ==> Spurious(t)) <==> s.producer.Waiting? && s.consumer == Blocked
    ensures s.producer.Waiting? && s.consumer == Blocked ==> s.action == NO_OP
  {
    if !(s.producer.Waiting? && s.consumer == Blocked) {
      var t := Way(s);
      assert Enabled(s, t) && !Spurious(t);
    }
  }

  /** A step some thread can take. */
  function Way(s: State): Step {
    match s.producer
    case Idle => Call(NO_OP)
    case Testing(_) => if s.action == NO_OP then SetAction else WaitP
    case Set => Signal
    case Signalled => UnlockP
    case Locking(_) => if s.owner == Free then LockP else ConsumerWay(s)
    case Roused(_) => if s.owner == Free then RelockP else ConsumerWay(s)
    case Waiting(_) => ConsumerWay(s)
  }

  function ConsumerWay(s: State): Step {
    match s.consumer
    case Starting => Initial(true)
    case AtTop => LockC
    case Checking => if s.action == NO_OP then WaitC else Begin
    case Loading(_) => Load(true)
    case Clearing => Clear
    case _ => RelockC
  }

  // ---- When a call returns -----------------------------------------------

  /** A caller that has begun to wait waits for good, unless its wakeup is spurious. */
  lemma {:induction false} WaitsForever(n: nat, s: State, steps: seq<Step>, t: State)
    requires s.producer.Waiting? && Leads(n, s, steps, t) && SpuriousP !in steps
    ensures t.producer == s.producer && t.posted == s.posted
    decreases |steps|
  {
    if steps != [] {
      WaitsForever(n, Do(n, s, steps[0]), steps[1..], t);
    }
  }

  /** So does one that finds the slot taken. */
  lemma {:induction false} FullSlotStrands(n: nat, s: State, steps: seq<Step>, t: State)
    requires Inv(n, s) && s.producer.Testing? && s.action != NO_OP && Leads(n, s, steps, t) && SpuriousP !in steps
    ensures t.posted == s.posted && (t.producer == s.producer || t.producer == Waiting(s.producer.a))
    decreases |steps|
  {
    if steps != [] {
      var r := Do(n, s, steps[0]);
      StepKeeps(n, s, steps[0]);
      if r.producer.Waiting? {
        WaitsForever(n, r, steps[1..], t);
      } else {
        FullSlotStrands(n, r, steps[1..], t);
      }
    }
  }

  /** The run from `s` to `t` stores the action the caller is at, without help of a
      spurious wakeup. */
  predicate Stores(n: nat, s: State, steps: seq<Step>, t: State)
    requires s.producer.Testing?
  {
    Leads(n, s, steps, t) && SpuriousP !in steps && t.posted == s.posted + [s.producer.a]
  }

  lemma EmptySlotReturns(n: nat, s: State) returns (steps: seq<Step>, t: State)
    requires s.producer.Testing? && s.action == NO_OP
    ensures Stores(n, s, steps, t) && t.producer == Idle
  {
    var s1 := Do(n, s, SetAction);
    var s2 := Do(n, s1, Signal);
    t := Do(n, s2, UnlockP);
    LeadsBack(n, s2, UnlockP, [], t);
    LeadsBack(n, s1, Signal, [UnlockP] + [], t);
    LeadsBack(n, s, SetAction, [Signal] + ([UnlockP] + []), t);
    steps := [SetAction] + ([Signal] + ([UnlockP] + []));
  }

  /** A call that tests the slot can still store its action if and only if it finds the
      slot empty; it then returns in three steps. */
  lemma ReturnsExactly(n: nat, s: State)
    requires Inv(n, s) && s.producer.Testing?
    ensures s.action == NO_OP <==> exists steps: seq<Step>, t: State :: Stores(n, s, steps, t)
    ensures s.action == NO_OP ==> exists steps: seq<Step>, t: State :: Stores(n, s, steps, t) && t.producer == Idle
  {
    if s.action == NO_OP {
      var steps, t := EmptySlotReturns(n, s);
      assert Stores(n, s, steps, t) && t.producer == Idle;
    } else {
      forall steps: seq<Step>, t: State
        ensures !Stores(n, s, steps, t)
      {
        if Stores(n, s, steps, t) {
          FullSlotStrands(n, s, steps, t);
        }
      }
    }
  }

  /** What lets a stranded caller go after all: a spurious wakeup, with which its action is
      stored and the call returns. */
  lemma SpuriousWakeupReturns(n: nat, s: State) returns (steps: seq<Step>, t: State)
    requires s.producer.Waiting? && s.owner == Free && s.action == NO_OP
    ensures Leads(n, s, [SpuriousP] + steps, t) && SpuriousP !in steps
    ensures t.posted == s.posted + [s.producer.a] && t.producer == Idle
  {
    var s1 := Do(n, s, SpuriousP);
    var s2 := Do(n, s1, RelockP);
    var rest;
    rest, t := EmptySlotReturns(n, s2);
    LeadsBack(n, s1, RelockP, rest, t);
    steps := [RelockP] + rest;
    LeadsBack(n, s, SpuriousP, steps, t);
  }

  /** A spurious wakeup without cause does no harm: the thread waits on. */
  lemma SpuriousHarmless(n: nat, s: State)
    requires s.owner == Free
    ensures s.producer.Waiting? && s.action != NO_OP ==> Leads(n, s, [SpuriousP] + ([RelockP] + ([WaitP] + [])), s)
    ensures s.consumer == Blocked && s.action == NO_OP ==> Leads(n, s, [SpuriousC] + ([RelockC] + ([WaitC] + [])), s)
  {
    if s.producer.Waiting? && s.action != NO_OP {
      var s1 := Do(n, s, SpuriousP);
      var s2 := Do(n, s1, RelockP);
      LeadsBack(n, s2, WaitP, [], s);
      LeadsBack(n, s1, RelockP, [WaitP] + [], s);
      LeadsBack(n, s, SpuriousP, [RelockP] + ([WaitP] + []), s);
    }
    if s.consumer == Blocked && s.action == NO_OP {
      var s1 := Do(n, s, SpuriousC);
      var s2 := Do(n, s1, RelockC);
      LeadsBack(n, s2, WaitC, [], s);
      LeadsBack(n, s1, RelockC, [WaitC] + [], s);
      LeadsBack(n, s, SpuriousC, [RelockC] + ([WaitC] + []), s);
    }
  }

  /** A slide may fail to decode, and but for the first slide it makes no difference: both
      loads are possible and come to the same. */
  lemma LoadEither(n: nat, s: State)
    requires Inv(n, s)
    ensures s.consumer.Loading? ==> Enabled(s, Load(true)) && Enabled(s, Load(false))
    ensures s.consumer.Loading? ==> Do(n, s, Load(true)) == Do(n, s, Load(false))
    ensures s.consumer == Starting ==> Enabled(s, Initial(true)) && Enabled(s, Initial(false))
    ensures s.consumer == Starting ==> Do(n, s, Initial(true)).slide == 1 && Do(n, s, Initial(false)).slide == 0
  {
  }

  lemma {:induction false} RunWaits(n: nat, s: State, steps: seq<Step>, t: State)
    requires Leads(n, s, steps, t) && SpuriousP !in steps
    ensures t.producer.Waiting? <==> s.producer.Waiting? || WaitP in steps
    decreases |steps|
  {
    if steps != [] {
      RunWaits(n, Do(n, s, steps[0]), steps[1..], t);
      assert WaitP in steps <==> steps[0] == WaitP || WaitP in steps[1..];
    }
  }

  /** A run without a spurious wakeup of the caller ends with a caller stranded if and
      only if some call in it found the slot taken. */
  lemma StrandedExactly(n: nat, steps: seq<Step>, t: State)
    requires Reachable(n, steps, t) && SpuriousP !in steps
    ensures t.producer.Waiting? <==> WaitP in steps
  {
    RunWaits(n, Start(), steps, t);
  }

  lemma {:induction false} HandledGrows(n: nat, s: State, steps: seq<Step>, t: State)
    requires Leads(n, s, steps, t)
    ensures s.handled <= t.handled
    decreases |steps|
  {
    if steps != [] {
      HandledGrows(n, Do(n, s, steps[0]), steps[1..], t);
    }
  }

  /** While a caller waits, only the action in the slot is still handled; once the slot
      is empty, the screen does not change any more. */
  lemma NothingFollows(n: nat, s: State, steps: seq<Step>, t: State)
    requires Inv(n, s) && s.producer.Waiting? && Leads(n, s, steps, t) && SpuriousP !in steps
    ensures s.handled <= t.handled && t.handled + Pending(t) == s.handled + Pending(s)
    ensures s.action == NO_OP && s.consumer != Starting ==> t.handled == s.handled && t.slide == s.slide && t.blank == s.blank
  {
    WaitsForever(n, s, steps, t);
    RunKeeps(n, s, steps, t);
    HandledGrows(n, s, steps, t);
    if s.action == NO_OP && s.consumer != Starting {
      assert |t.handled| + |Pending(t)| == |s.handled|;
      InitialOnce(n, s, steps, t);
    }
  }

  /** Two actions in quick succession are enough to get both threads stuck. */
  lemma StuckReachable(n: nat) returns (steps: seq<Step>, t: State)
    ensures Reachable(n, steps, t) && Called(steps) == [TOGGLE_BLANK, NEXT_SLIDE]
    ensures t.producer == Waiting(NEXT_SLIDE) && t.consumer == Blocked
    ensures forall i :: 0 <= i < |steps| ==> !Spurious(steps[i])
  {
    var s1 := Do(n, Do(n, Start(), Initial(true)), Call(TOGGLE_BLANK));
    var s2 := Do(n, Do(n, s1, LockP), SetAction);
    assert Do(n, Do(n, s2, Signal), UnlockP) == Posted();
    steps, t := StuckFromPosted(n);
    steps := Prepend(n, s2, Signal, UnlockP, steps, t);
    steps := Prepend(n, s1, LockP, SetAction, steps, t);
    steps := Prepend(n, Start(), Initial(true), Call(TOGGLE_BLANK), steps, t);
  }

  /** After the first action was posted and before it is seen. */
  function Posted(): State {
    State(Free, TOGGLE_BLANK, 1, false, Idle, AtTop, View(1, false), [TOGGLE_BLANK], [])
  }

  lemma StuckFromPosted(n: nat) returns (steps: seq<Step>, t: State)
    ensures Leads(n, Posted(), steps, t) && Called(steps) == [NEXT_SLIDE]
    ensures t.producer == Waiting(NEXT_SLIDE) && t.consumer == Blocked
    ensures forall i :: 0 <= i < |steps| ==> !Spurious(steps[i])
  {
    var s4 := Do(n, Do(n, Posted(), Call(NEXT_SLIDE)), LockP);
    var s5 := Do(n, Do(n, s4, WaitP), LockC);
    assert s5 == Taken();
    steps, t := StuckFromTaken(n);
    steps := Prepend(n, s4, WaitP, LockC, steps, t);
    steps := Prepend(n, Posted(), Call(NEXT_SLIDE), LockP, steps, t);
  }

  /** The second caller is waiting, and the first action about to be handled. */
  function Taken(): State {
    Posted().(owner := ByConsumer, producer := Waiting(NEXT_SLIDE), consumer := Checking)
  }

  lemma StuckFromTaken(n: nat) returns (steps: seq<Step>, t: State)
    ensures Leads(n, Taken(), steps, t) && Called(steps) == []
    ensures t.producer == Waiting(NEXT_SLIDE) && t.consumer == Blocked
    ensures forall i :: 0 <= i < |steps| ==> !Spurious(steps[i])
  {
    var s6 := Do(n, Do(n, Taken(), Begin), Clear);
    t := Do(n, Do(n, s6, LockC), WaitC);
    steps := Prepend(n, s6, LockC, WaitC, [], t);
    steps := Prepend(n, Taken(), Begin, Clear, steps, t);
  }

  lemma Prepend(n: nat, s: State, a: Step, b: Step, rest: seq<Step>, t: State) returns (steps: seq<Step>)
    requires Enabled(s, a) && Enabled(Do(n, s, a), b) && Leads(n, Do(n, Do(n, s, a), b), rest, t)
    requires !Spurious(a) && !Spurious(b) && forall i :: 0 <= i < |rest| ==> !Spurious(rest[i])
    ensures Leads(n, s, steps, t) && Called(steps) == CalledBy(a) + CalledBy(b) + Called(rest)
    ensures forall i :: 0 <= i < |steps| ==> !Spurious(steps[i])
  {
    LeadsBack(n, Do(n, s, a), b, rest, t);
    LeadsBack(n, s, a, [b] + rest, t);
    steps := [a] + ([b] + rest);
    assert steps[1..] == [b] + rest && ([b] + rest)[1..] == rest;
  }
}
