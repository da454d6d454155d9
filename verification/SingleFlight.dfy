/**
 The lock that lets one exchange per question go to the transport at a time. Every thread
 brings a channel of its own; whoever finds no channel registered for its question leads,
 everybody else waits for the registered channel to be closed or gives up. Then each looks
 into the cache, and asks the transport if the answer is not there. A leader first takes
 its channel out of the map and then closes it.
 */
module SingleFlight {
  import opened Wrappers

  type Question = nat
  type Transport = nat
  /** Thread `i` makes channel `i`, and brings no other. */
  type Channel = nat

  /** What a thread that went on has done about its question. */
  datatype Work = ToLoad | ToAsk | Done

  datatype Phase =
    | Arriving                            // about to load or store
    | Leading(work: Work)                 // holds the entry
    | Leaving                             // took its entry out, has not closed its channel yet
    | Waiting(on: Channel)
    | Woken(on: Channel, work: Work)      // saw the channel closed and went on
    | GaveUp                              // its context ended while it waited
    | Finished                            // closed its channel

  datatype Thread = Thread(question: Question, transport: Transport, phase: Phase)

  /** What answers are cached under: the transport is part of it when every transport has a cache of its own. */
  datatype Key = Key(question: Question, transport: Option<Transport>)

  /**
   The lock is by question, whatever the caches. `closes` counts how often each channel was closed;
   closing one twice would panic. `asked` counts how often a question was put to a transport, by what
   its answer is cached under, and `cached` has the keys whose answer is kept.
   */
  datatype State = State(
    shared: bool,
    threads: seq<Thread>,
    entries: map<Question, Channel>,
    closes: map<Channel, nat>,
    asked: map<Key, nat>,
    cached: set<Key>)

  datatype Action =
    | Arrive(question: Question, transport: Transport)   // a new thread
    | LoadOrStore(t: nat)
    | Load(t: nat)                        // looks into the cache
    | Ask(t: nat, kept: bool)             // asks the transport; whether the answer may be kept
    | TakeOut(t: nat)
    | Close(t: nat)
    | Wake(t: nat)
    | GiveUp(t: nat)

  function Initial(shared: bool): State {
    State(shared, [], map[], map[], map[], {})
  }

  function KeyOf(shared: bool, thread: Thread): Key {
    Key(thread.question, if shared then None else Some(thread.transport))
  }

  function Closes(s: State, c: Channel): nat {
    if c in s.closes then s.closes[c] else 0
  }

  function Asked(s: State, k: Key): nat {
    if k in s.asked then s.asked[k] else 0
  }

  /** Leading or woken, with this still to do. */
  predicate Has(phase: Phase, work: Work) {
    (phase.Leading? || phase.Woken?) && phase.work == work
  }

  predicate Enabled(s: State, a: Action) {
    match a
    case Arrive(_, _) => true
    case LoadOrStore(t) => t < |s.threads| && s.threads[t].phase == Arriving
    case Load(t) => t < |s.threads| && Has(s.threads[t].phase, ToLoad)
    case Ask(t, _) => t < |s.threads| && Has(s.threads[t].phase, ToAsk)
    case TakeOut(t) => t < |s.threads| && s.threads[t].phase == Leading(Done)
    case Close(t) => t < |s.threads| && s.threads[t].phase == Leaving
    case Wake(t) => t < |s.threads| && s.threads[t].phase.Waiting? && Closes(s, s.threads[t].phase.on) > 0
    case GiveUp(t) => t < |s.threads| && s.threads[t].phase.Waiting?
  }

  function Become(s: State, t: nat, phase: Phase): State
    requires t < |s.threads|
  {
    s.(threads := s.threads[t := s.threads[t].(phase := phase)])
  }

  function Next(s: State, a: Action): State
    requires Enabled(s, a)
  {
    match a
    case Arrive(q, transport) => s.(threads := s.threads + [Thread(q, transport, Arriving)])
    case LoadOrStore(t) =>
      var q := s.threads[t].question;
      if q in s.entries then Become(s, t, Waiting(s.entries[q]))
      else Become(s, t, Leading(ToLoad)).(entries := s.entries[q := t])
    case Load(t) =>
      Become(s, t, s.threads[t].phase.(work := if KeyOf(s.shared, s.threads[t]) in s.cached then Done else ToAsk))
    case Ask(t, kept) =>
      var k := KeyOf(s.shared, s.threads[t]);
      Become(s, t, s.threads[t].phase.(work := Done)).(
        asked := s.asked[k := Asked(s, k) + 1],
        cached := if kept then s.cached + {k} else s.cached)
    case TakeOut(t) => Become(s, t, Leaving).(entries := s.entries - {s.threads[t].question})
    case Close(t) => Become(s, t, Finished).(closes := s.closes[t := Closes(s, t) + 1])
    case Wake(t) => Become(s, t, Woken(s.threads[t].phase.on, ToLoad))
    case GiveUp(t) => Become(s, t, GaveUp)
  }

  // ----- the invariant -----

  /**
   A thread leads exactly when its channel is its question's entry, and has closed its channel exactly when it
   finished.
   */
  ghost predicate ThreadTrue(s: State, t: nat)
    requires t < |s.threads|
  {
    var thread := s.threads[t];
    && (thread.phase.Leading? <==> thread.question in s.entries && s.entries[thread.question] == t)
    && Closes(s, t) == (if thread.phase == Finished then 1 else 0)
    && (thread.phase.Waiting? || thread.phase.Woken? ==> Led(s, thread.phase.on, thread.question, thread.phase.Woken?))
  }

  /** Channel `c` belongs to a leader of question `q` who is still at work or has closed it. */
  predicate Led(s: State, c: Channel, q: Question, closed: bool) {
    && c < |s.threads| && s.threads[c].question == q
    && (s.threads[c].phase == Finished || (!closed && (s.threads[c].phase.Leading? || s.threads[c].phase == Leaving)))
  }

  predicate Leads(s: State, t: nat, q: Question) {
    t < |s.threads| && s.threads[t].question == q && s.threads[t].phase.Leading?
  }

  ghost predicate Inv(s: State) {
    && (forall t: nat :: t < |s.threads| ==> ThreadTrue(s, t))
    && (forall q :: q in s.entries ==> Leads(s, s.entries[q], q))
    && (forall c: Channel :: c >= |s.threads| ==> Closes(s, c) == 0)
  }

  lemma InitialInv(shared: bool)
    ensures Inv(Initial(shared))
  {
  }

  lemma ClosesAfter(s: State, a: Action, c: Channel)
    requires Enabled(s, a)
    ensures Closes(Next(s, a), c) == Closes(s, c) + if a == Close(c) then 1 else 0
  {
  }

  lemma StepKeepsOwn(s: State, a: Action)
    requires Inv(s) && Enabled(s, a) && !a.Arrive?
    ensures ThreadTrue(Next(s, a), a.t)
  {
    hide Closes, Asked;
    ClosesAfter(s, a, a.t);
    assert ThreadTrue(s, a.t);
    if s.threads[a.t].phase.Waiting? {
      assert ThreadTrue(s, s.threads[a.t].phase.on);
    }
  }

  lemma StepKeepsOther(s: State, a: Action, t: nat)
    requires Inv(s) && Enabled(s, a) && !a.Arrive? && t < |s.threads| && a.t != t
    ensures ThreadTrue(Next(s, a), t)
  {
    hide Closes, Asked;
    ClosesAfter(s, a, t);
    assert ThreadTrue(s, t) && ThreadTrue(s, a.t);
    assert Next(s, a).threads[t] == s.threads[t];
  }

  lemma ArrivalKeepsThread(s: State, a: Action, t: nat)
    requires Inv(s) && a.Arrive? && t <= |s.threads|
    ensures ThreadTrue(Next(s, a), t)
  {
    hide Closes;
    ClosesAfter(s, a, t);
    if t < |s.threads| {
      assert ThreadTrue(s, t);
    }
  }

  lemma StepKeepsInv(s: State, a: Action)
    requires Inv(s) && Enabled(s, a)
    ensures Inv(Next(s, a))
  {
    hide ThreadTrue, Closes;
    var s' := Next(s, a);
    forall t: nat | t < |s'.threads| ensures ThreadTrue(s', t) {
      if a.Arrive? {
        ArrivalKeepsThread(s, a, t);
      } else if a.t == t {
        StepKeepsOwn(s, a);
      } else {
        StepKeepsOther(s, a, t);
      }
    }
    forall q | q in s'.entries ensures Leads(s', s'.entries[q], q) {
      if q in s.entries {
        assert Leads(s, s.entries[q], q);
      }
    }
    forall c: Channel | c >= |s'.threads| ensures Closes(s', c) == 0 {
      ClosesAfter(s, a, c);
    }
  }

  // ----- runs -----

  ghost predicate Possible(s: State, actions: seq<Action>)
    decreases actions
  {
    actions == [] || (Enabled(s, actions[0]) && Possible(Next(s, actions[0]), actions[1..]))
  }

  function Run(s: State, actions: seq<Action>): State
    requires Possible(s, actions)
    decreases actions
  {
    if actions == [] then s else Run(Next(s, actions[0]), actions[1..])
  }

  lemma {:induction false} RunKeepsInv(s: State, actions: seq<Action>)
    requires Inv(s) && Possible(s, actions)
    ensures Inv(Run(s, actions))
    decreases actions
  {
    if actions != [] {
      StepKeepsInv(s, actions[0]);
      hide Inv, Next, Enabled;
      RunKeepsInv(Next(s, actions[0]), actions[1..]);
    }
  }

  /**
   For any number of threads in any order: a question has at most one leader, no channel is
   closed twice, nobody goes on before the channel it waits for is closed, and whoever waits does
   so for a channel of its own question that is closed or whose leader is still on the way.
   */
  lemma EveryRunIsSafe(shared: bool, actions: seq<Action>)
    requires Possible(Initial(shared), actions)
    ensures var s := Run(Initial(shared), actions);
            && (forall q, t, u :: Leads(s, t, q) && Leads(s, u, q) ==> t == u)
            && (forall c: Channel :: Closes(s, c) <= 1)
            && (forall t: nat :: t < |s.threads| && s.threads[t].phase == Finished ==> Closes(s, t) == 1)
            && (forall t: nat :: t < |s.threads| && s.threads[t].phase.Waiting? ==>
                  Led(s, s.threads[t].phase.on, s.threads[t].question, false))
            && (forall t: nat :: t < |s.threads| && s.threads[t].phase.Woken? ==> Closes(s, s.threads[t].phase.on) == 1)
  {
    InitialInv(shared);
    RunKeepsInv(Initial(shared), actions);
    var s := Run(Initial(shared), actions);
    hide Run, Possible;
    forall t: nat | t < |s.threads|
      ensures Closes(s, t) <= 1 && (s.threads[t].phase == Finished ==> Closes(s, t) == 1)
      ensures s.threads[t].phase.Waiting? ==> Led(s, s.threads[t].phase.on, s.threads[t].question, false)
    {
      assert ThreadTrue(s, t);
    }
    forall q, t, u | Leads(s, t, q) && Leads(s, u, q) ensures t == u {
      assert ThreadTrue(s, t) && ThreadTrue(s, u);
    }
    forall t: nat | t < |s.threads| && s.threads[t].phase.Woken? ensures Closes(s, s.threads[t].phase.on) == 1 {
      assert ThreadTrue(s, t) && ThreadTrue(s, s.threads[t].phase.on);
    }
  }

  // ----- no lost wake-up -----

  /** Nothing can happen but new threads arriving or a waiting thread's context ending. */
  ghost predicate Quiet(s: State) {
    forall a: Action :: a.Arrive? || a.GiveUp? || !Enabled(s, a)
  }

  /** What a leader, or whoever closes a channel, does next. */
  function LeaderStep(phase: Phase, t: nat): Action {
    match phase
    case Leading(ToLoad) => Load(t)
    case Leading(ToAsk) => Ask(t, false)
    case Leading(Done) => TakeOut(t)
    case _ => Close(t)
  }

  /** A waiting thread can go on, or the leader it waits for can. */
  lemma WaiterIsServed(s: State, t: nat)
    requires Inv(s) && t < |s.threads| && s.threads[t].phase.Waiting?
    ensures var c := s.threads[t].phase.on;
            Enabled(s, Wake(t)) || (c < |s.threads| && Enabled(s, LeaderStep(s.threads[c].phase, c)))
  {
    var c := s.threads[t].phase.on;
    assert ThreadTrue(s, t) && ThreadTrue(s, c);
  }

  lemma LeaderGoesOn(s: State, q: Question)
    requires Inv(s) && q in s.entries
    ensures Leads(s, s.entries[q], q) && Enabled(s, LeaderStep(s.threads[s.entries[q]].phase, s.entries[q]))
  {
    assert Leads(s, s.entries[q], q);
  }

  /** When only that is left to happen, nobody waits any more and the map is empty: no wake-up is lost. */
  lemma NoLostWakeUp(s: State)
    requires Inv(s) && Quiet(s)
    ensures s.entries == map[] && forall t: nat :: t < |s.threads| ==> !s.threads[t].phase.Waiting?
  {
    forall t: nat | t < |s.threads| && s.threads[t].phase.Waiting? ensures false {
      WaiterIsServed(s, t);
    }
    forall q | q in s.entries ensures false {
      LeaderGoesOn(s, q);
    }
  }

  function Weight(phase: Phase): nat {
    match phase
    case Arriving => 5
    case Leading(ToLoad) => 4
    case Leading(ToAsk) => 3
    case Leading(Done) => 2
    case Leaving => 1
    case Waiting(_) => 3
    case Woken(_, ToLoad) => 2
    case Woken(_, ToAsk) => 1
    case _ => 0
  }

  function TotalWeight(threads: seq<Thread>): nat {
    if threads == [] then 0 else Weight(threads[0].phase) + TotalWeight(threads[1..])
  }

  lemma {:induction false} WeightUpdate(threads: seq<Thread>, t: nat, thread: Thread)
    requires t < |threads|
    ensures TotalWeight(threads[t := thread]) == TotalWeight(threads) - Weight(threads[t].phase) + Weight(thread.phase)
  {
    if t == 0 {
      assert threads[0 := thread][1..] == threads[1..];
    } else {
      assert threads[t := thread][1..] == threads[1..][t - 1 := thread];
      WeightUpdate(threads[1..], t - 1, thread);
    }
  }

  /** Every step of a thread that has arrived uses up weight, so with no new arrivals every run becomes quiet. */
  lemma {:induction false} RunsEnd(s: State, actions: seq<Action>)
    requires Possible(s, actions) && forall i :: 0 <= i < |actions| ==> !actions[i].Arrive?
    ensures |actions| + TotalWeight(Run(s, actions).threads) <= TotalWeight(s.threads)
    decreases actions
  {
    if actions != [] {
      StepWeighs(s, actions[0]);
      hide TotalWeight, Next, Enabled;
      RunsEnd(Next(s, actions[0]), actions[1..]);
    }
  }

  lemma StepWeighs(s: State, a: Action)
    requires Enabled(s, a) && !a.Arrive?
    ensures TotalWeight(Next(s, a).threads) < TotalWeight(s.threads)
  {
    hide TotalWeight, Asked;
    WeightUpdate(s.threads, a.t, Next(s, a).threads[a.t]);
  }

  // ----- one question, one exchange -----

  /** Before anything led, or while its leader is still at it. */
  predicate Pending(phase: Phase) {
    phase == Arriving || phase == GaveUp || phase.Waiting? || phase == Leading(ToLoad) || phase == Leading(ToAsk)
  }

  /** The combinations threads arrive with. */
  type Pairs = set<(Question, Transport)>

  /** Answers to one question all have one key: the cache is shared, or no question goes to two transports. */
  ghost predicate OneKeyEach(shared: bool, pairs: Pairs) {
    shared || forall q, t, u :: (q, t) in pairs && (q, u) in pairs ==> t == u
  }

  /**
   An unkept answer was never asked for and nobody is past asking; a kept one was asked for once at
   most and nobody will ask.
   */
  predicate AskedTrue(s: State, pairs: Pairs, t: nat)
    requires t < |s.threads|
  {
    var thread := s.threads[t];
    && (thread.question, thread.transport) in pairs
    && if KeyOf(s.shared, thread) in s.cached then !Has(thread.phase, ToAsk) else Pending(thread.phase)
  }

  ghost predicate AskedOnce(s: State, pairs: Pairs) {
    && (forall t: nat :: t < |s.threads| ==> AskedTrue(s, pairs, t))
    && forall k :: Asked(s, k) <= if k in s.cached then 1 else 0
  }

  /** The action brings a thread of these combinations, and an answer is kept. */
  predicate Plain(a: Action, pairs: Pairs) {
    && (a.Arrive? ==> (a.question, a.transport) in pairs)
    && (a.Ask? ==> a.kept)
  }

  lemma StepKeepsAskedOnce(s: State, pairs: Pairs, a: Action)
    requires Inv(s) && AskedOnce(s, pairs) && OneKeyEach(s.shared, pairs) && Enabled(s, a) && Plain(a, pairs)
    ensures AskedOnce(Next(s, a), pairs)
  {
    hide Closes, ThreadTrue, OneKeyEach;
    var s' := Next(s, a);
    forall t: nat | t < |s'.threads| ensures AskedTrue(s', pairs, t) {
      if t < |s.threads| {
        StepKeepsAsked(s, pairs, a, t);
      }
    }
    if a.Ask? {
      assert AskedTrue(s, pairs, a.t);
    }
    hide AskedTrue;
    forall k ensures Asked(s', k) <= if k in s'.cached then 1 else 0 {
      assert Asked(s, k) <= if k in s.cached then 1 else 0;
    }
  }

  lemma StepKeepsAsked(s: State, pairs: Pairs, a: Action, t: nat)
    requires Inv(s) && AskedOnce(s, pairs) && OneKeyEach(s.shared, pairs) && Enabled(s, a) && Plain(a, pairs)
    requires t < |s.threads|
    ensures AskedTrue(Next(s, a), pairs, t)
  {
    assert AskedTrue(s, pairs, t);
    if a.Arrive? {
      assert Next(s, a).threads[t] == s.threads[t];
    } else if a.t == t {
      if s.threads[t].phase.Waiting? {
        WakingIsLate(s, pairs, t);
      }
      hide OneKeyEach, Inv, AskedOnce;
      OwnStepKeepsAsked(s, pairs, a);
    } else {
      assert AskedTrue(s, pairs, a.t);
      assert ThreadTrue(s, t) && ThreadTrue(s, a.t);
      hide OneKeyEach, Inv, AskedOnce;
      OtherStepKeepsAsked(s, pairs, a, t);
    }
  }

  lemma OwnStepKeepsAsked(s: State, pairs: Pairs, a: Action)
    requires Enabled(s, a) && !a.Arrive? && Plain(a, pairs) && AskedTrue(s, pairs, a.t)
    requires var thread := s.threads[a.t];
             a.Wake? && Closes(s, thread.phase.on) > 0 ==> KeyOf(s.shared, thread) in s.cached
    ensures AskedTrue(Next(s, a), pairs, a.t)
  {
  }

  /** An answer that is kept now was asked for by the one leader of its question, so by nobody else. */
  lemma OtherStepKeepsAsked(s: State, pairs: Pairs, a: Action, t: nat)
    requires Enabled(s, a) && !a.Arrive? && t < |s.threads| && a.t != t
    requires AskedTrue(s, pairs, t) && AskedTrue(s, pairs, a.t) && ThreadTrue(s, t) && ThreadTrue(s, a.t)
    ensures AskedTrue(Next(s, a), pairs, t)
  {
    assert Next(s, a).threads[t] == s.threads[t];
    hide Closes, Led, Asked;
  }

  /** When a waiting thread can be woken, the leader it waited for has finished, and its answer was kept. */
  lemma WakingIsLate(s: State, pairs: Pairs, t: nat)
    requires Inv(s) && AskedOnce(s, pairs) && OneKeyEach(s.shared, pairs)
    requires t < |s.threads| && s.threads[t].phase.Waiting?
    ensures Closes(s, s.threads[t].phase.on) > 0 ==> KeyOf(s.shared, s.threads[t]) in s.cached
  {
    var c := s.threads[t].phase.on;
    assert ThreadTrue(s, t) && ThreadTrue(s, c) && AskedTrue(s, pairs, t) && AskedTrue(s, pairs, c);
  }

  lemma {:induction false} RunKeepsAskedOnce(s: State, pairs: Pairs, actions: seq<Action>)
    requires Inv(s) && AskedOnce(s, pairs) && OneKeyEach(s.shared, pairs) && Possible(s, actions)
    requires forall a :: a in actions ==> Plain(a, pairs)
    ensures AskedOnce(Run(s, actions), pairs)
    decreases actions
  {
    if actions != [] {
      StepKeepsInv(s, actions[0]);
      StepKeepsAskedOnce(s, pairs, actions[0]);
      assert Next(s, actions[0]).shared == s.shared;
      hide Inv, AskedOnce, Next, Enabled, Plain, OneKeyEach;
      RunKeepsAskedOnce(Next(s, actions[0]), pairs, actions[1..]);
    }
  }

  /** A run of threads of these combinations in which every answer is kept; nothing expires. */
  ghost predicate PlainRun(shared: bool, pairs: Pairs, actions: seq<Action>) {
    Possible(Initial(shared), actions) && forall a :: a in actions ==> Plain(a, pairs)
  }

  ghost predicate AlwaysOnce(shared: bool, pairs: Pairs) {
    forall actions, k :: PlainRun(shared, pairs, actions) ==> Asked(Run(Initial(shared), actions), k) <= 1
  }

  /**
   What the lock is for: while answers are kept and none expires, what is cached under one key is
   asked for once at most, however many threads ask and in whatever order they run. That is so
   exactly when the cache is shared or no question goes to two transports, since the lock does not
   tell transports apart.
   */
  lemma EveryKeyIsAskedOnce(shared: bool, pairs: Pairs)
    ensures AlwaysOnce(shared, pairs) <==> OneKeyEach(shared, pairs)
  {
    if OneKeyEach(shared, pairs) {
      forall actions, k | PlainRun(shared, pairs, actions) ensures Asked(Run(Initial(shared), actions), k) <= 1 {
        InitialInv(shared);
        RunKeepsAskedOnce(Initial(shared), pairs, actions);
      }
    } else {
      var q, t, u :| (q, t) in pairs && (q, u) in pairs && t != u;
      var actions := TwoWaitersAskTwice(q, t, u);
      assert PlainRun(false, pairs, actions);
    }
  }

  // ----- caches of their own -----

  lemma {:induction false} OneMore(s: State, actions: seq<Action>, a: Action)
    requires Possible(s, actions) && Enabled(Run(s, actions), a)
    ensures Possible(s, actions + [a]) && Run(s, actions + [a]) == Next(Run(s, actions), a)
    decreases actions
  {
    hide Next, Enabled;
    if actions == [] {
      assert actions + [a] == [a] && [a][1..] == [];
    } else {
      assert (actions + [a])[0] == actions[0] && (actions + [a])[1..] == actions[1..] + [a];
      OneMore(Next(s, actions[0]), actions[1..], a);
    }
  }

  /** Three threads with the same question: one to transport `t`, two to transport `u`. */
  function Three(q: Question, t: Transport, u: Transport, x: Phase, y: Phase, z: Phase): seq<Thread> {
    [Thread(q, t, x), Thread(q, u, y), Thread(q, u, z)]
  }

  /** The first has asked once, its answer is kept, and its channel closed. */
  function Answered(k: Key, threads: seq<Thread>): State {
    State(false, threads, map[], map[0 := 1], map[k := 1], {k})
  }

  /** They arrive, and the first leads. */
  lemma LeaderAndWaiters(q: Question, t: Transport, u: Transport) returns (actions: seq<Action>)
    ensures Possible(Initial(false), actions) && forall a :: a in actions ==> Plain(a, {(q, t), (q, u)})
    ensures Run(Initial(false), actions)
         == State(false, Three(q, t, u, Leading(ToLoad), Waiting(0), Waiting(0)), map[q := 0], map[], map[], {})
  {
    actions := [];
    assert Possible(Initial(false), actions) && Run(Initial(false), actions) == Initial(false);
    hide Possible, Run;
    actions := Do(actions, Arrive(q, t));
    actions := Do(actions, Arrive(q, u));
    actions := Do(actions, Arrive(q, u));
    assert Run(Initial(false), actions).threads == Three(q, t, u, Arriving, Arriving, Arriving);
    actions := Do(actions, LoadOrStore(0));
    actions := Do(actions, LoadOrStore(1));
    actions := Do(actions, LoadOrStore(2));
    assert Run(Initial(false), actions).threads == Three(q, t, u, Leading(ToLoad), Waiting(0), Waiting(0));
  }

  lemma Do(actions: seq<Action>, a: Action) returns (more: seq<Action>)
    requires Possible(Initial(false), actions) && Enabled(Run(Initial(false), actions), a)
    ensures more == actions + [a] && Possible(Initial(false), more)
    ensures Run(Initial(false), more) == Next(Run(Initial(false), actions), a)
  {
    more := actions + [a];
    OneMore(Initial(false), actions, a);
  }

  /** The leader asks its transport, keeps the answer under its key and leaves. */
  lemma LeaderFinishes(q: Question, t: Transport, u: Transport) returns (actions: seq<Action>)
    ensures Possible(Initial(false), actions) && forall a :: a in actions ==> Plain(a, {(q, t), (q, u)})
    ensures Run(Initial(false), actions)
         == Answered(Key(q, Some(t)), Three(q, t, u, Finished, Waiting(0), Waiting(0)))
  {
    actions := LeaderAndWaiters(q, t, u);
    hide Possible, Run;
    actions := Do(actions, Load(0));
    actions := Do(actions, Ask(0, true));
    actions := Do(actions, TakeOut(0));
    actions := Do(actions, Close(0));
    var s := Run(Initial(false), actions);
    assert s.threads == Three(q, t, u, Finished, Waiting(0), Waiting(0));
    assert s.entries == map[] && s.closes == map[0 := 1] && s.cached == {Key(q, Some(t))};
  }

  /** Both waiters wake and find nothing under their own key. */
  lemma WaitersMiss(q: Question, t: Transport, u: Transport) returns (actions: seq<Action>)
    requires t != u
    ensures Possible(Initial(false), actions) && forall a :: a in actions ==> Plain(a, {(q, t), (q, u)})
    ensures Run(Initial(false), actions)
         == Answered(Key(q, Some(t)), Three(q, t, u, Finished, Woken(0, ToAsk), Woken(0, ToAsk)))
  {
    actions := LeaderFinishes(q, t, u);
    hide Possible, Run;
    actions := Do(actions, Wake(1));
    actions := Do(actions, Wake(2));
    actions := Do(actions, Load(1));
    actions := Do(actions, Load(2));
    assert Run(Initial(false), actions).threads == Three(q, t, u, Finished, Woken(0, ToAsk), Woken(0, ToAsk));
  }

  /** Then both ask, although every answer is kept. */
  lemma TwoWaitersAskTwice(q: Question, t: Transport, u: Transport) returns (actions: seq<Action>)
    requires t != u
    ensures PlainRun(false, {(q, t), (q, u)}, actions)
    ensures Asked(Run(Initial(false), actions), Key(q, Some(u))) == 2
  {
    actions := WaitersMiss(q, t, u);
    hide Possible, Run;
    actions := Do(actions, Ask(1, true));
    actions := Do(actions, Ask(2, true));
  }
}
