/**
 The daemon's start, reload and close protocol, as a state machine over its lock-held
 segments. A reload gives up the lock twice: to close the instance it replaces, and to
 run the new instance's own start. Any number of callers interleave between segments.
 */
module DaemonService {
  import opened Wrappers

  type CallerId = nat
  type Instance = nat

  datatype Status = Idle | Starting | Started | Stopping | Fatal

  /** Where a caller stands between two lock-held segments. */
  datatype Caller =
    | Outside
    | ToClose(replaced: Instance)
    | HasClosed(replaced: Instance)
    | ToStart(made: Instance)
    | StartDone(made: Instance, ok: bool)

  /** `next` is the first instance not made yet; `closes` counts the service's Close calls. */
  datatype State = State(
    status: Status,
    instance: Option<Instance>,
    next: Instance,
    closes: multiset<Instance>,
    callers: map<CallerId, Caller>)
  {
    function At(t: CallerId): Caller {
      if t in callers then callers[t] else Outside
    }

    function Move(t: CallerId, c: Caller): State {
      this.(callers := callers[t := c])
    }
  }

  /** One segment, or one unlocked call, of caller `t`; the booleans say whether the call it makes succeeds. */
  datatype Action =
    | ReloadEnter(t: CallerId, made: bool)
    | CloseOld(t: CallerId)
    | ReloadAgain(t: CallerId, made: bool)
    | RunStart(t: CallerId, ok: bool)
    | Report(t: CallerId)
    | CloseService(t: CallerId, ok: bool)
    | SetError(t: CallerId)

  const INITIAL := State(Idle, None, 0, multiset{}, map[])

  /** Builds and installs a new instance while holding the lock, over whatever is installed. */
  function Install(s: State, t: CallerId, made: bool): State {
    if made then s.Move(t, ToStart(s.next)).(status := Starting, instance := Some(s.next), next := s.next + 1)
    else s.Move(t, Outside).(status := Fatal)
  }

  function Next(s: State, a: Action): State {
    match (a, s.At(a.t))
    case (ReloadEnter(t, made), Outside) =>
      if s.status == Stopping || s.status == Fatal then s
      else if s.instance.Some? then s.Move(t, ToClose(s.instance.value)).(status := Stopping)
      else Install(s, t, made)
    case (CloseOld(t), ToClose(i)) =>
      s.Move(t, HasClosed(i)).(closes := s.closes + multiset{i})
    case (ReloadAgain(t, made), HasClosed(_)) => Install(s, t, made)
    case (RunStart(t, ok), ToStart(i)) => s.Move(t, StartDone(i, ok))
    case (Report(t), StartDone(_, ok)) =>
      if s.status != Starting then s.Move(t, Outside)
      else s.Move(t, Outside).(status := if ok then Started else Fatal)
    case (CloseService(_, ok), Outside) =>
      if s.status != Starting && s.status != Started then s
      else if s.instance.None? then s.(status := Idle)
      else
        var closed := s.(closes := s.closes + multiset{s.instance.value});
        if ok then closed.(instance := None, status := Idle) else closed.(status := Fatal)
    case (SetError(_), Outside) => s.(status := Fatal)
    case _ => s
  }

  function Run(s: State, actions: seq<Action>): State
    decreases actions
  {
    if actions == [] then s else Run(Next(s, actions[0]), actions[1..])
  }

  // ----- the invariant -----

  /** In the window where the lock is given up to close the instance being replaced. */
  predicate InWindow(c: Caller) {
    c.ToClose? || c.HasClosed?
  }

  ghost predicate OneInWindow(s: State) {
    forall t, u :: InWindow(s.At(t)) && InWindow(s.At(u)) ==> t == u
  }

  /** What the caller in the window keeps: the instance it replaces stays installed, and only it closes it. */
  ghost predicate WindowGuarded(s: State) {
    forall t :: InWindow(s.At(t)) ==>
      && (s.status == Stopping || s.status == Fatal)
      && s.instance == Some(s.At(t).replaced)
      && s.closes[s.At(t).replaced] == if s.At(t).HasClosed? then 1 else 0
  }

  /** Every instance ever made is installed, or was closed; none is closed twice. */
  ghost predicate Accounted(s: State) {
    && (forall i :: s.closes[i] <= 1)
    && (forall i :: 0 <= i < s.next ==> s.instance == Some(i) || s.closes[i] == 1)
    && (forall i :: s.next <= i ==> s.closes[i] == 0)
    && (s.instance.Some? ==> s.instance.value < s.next)
  }

  ghost predicate StatusTrue(s: State) {
    && (s.status == Starting || s.status == Started ==> s.instance.Some? && s.closes[s.instance.value] == 0)
    && (s.status == Idle ==> s.instance == None)
    && (s.status == Stopping ==> exists t :: InWindow(s.At(t)))
  }

  ghost predicate StartersKnown(s: State) {
    forall t :: s.At(t).ToStart? || s.At(t).StartDone? ==> s.At(t).made < s.next
  }

  ghost predicate Inv(s: State) {
    OneInWindow(s) && WindowGuarded(s) && Accounted(s) && StatusTrue(s) && StartersKnown(s)
  }

  lemma InstallKeepsInv(s: State, t: CallerId, made: bool)
    requires Inv(s) && (s.At(t) == Outside || InWindow(s.At(t)))
    requires s.instance.Some? ==> s.At(t).HasClosed?
    requires s.instance.None? ==> s.status != Stopping && s.status != Fatal
    ensures Inv(Install(s, t, made))
  {
    var s' := Install(s, t, made);
    forall u ensures s'.At(u) == if u == t then s'.At(t) else s.At(u) {}
    forall u ensures !InWindow(s'.At(u)) {
      assert u != t ==> !InWindow(s.At(u));
    }
  }

  lemma CloseOldKeepsInv(s: State, t: CallerId)
    requires Inv(s) && s.At(t).ToClose?
    ensures Inv(Next(s, CloseOld(t)))
  {
    var s' := Next(s, CloseOld(t));
    assert InWindow(s.At(t)) && InWindow(s'.At(t));
    forall u ensures u != t ==> s'.At(u) == s.At(u) {}
    forall u | InWindow(s'.At(u)) ensures u == t {
      assert u != t ==> InWindow(s.At(u));
    }
  }

  lemma StepKeepsInv(s: State, a: Action)
    requires Inv(s)
    ensures Inv(Next(s, a))
  {
    var s', t := Next(s, a), a.t;
    forall u ensures u != t ==> s'.At(u) == s.At(u) {}
    match (a, s.At(t)) {
      case (ReloadEnter(_, made), Outside) =>
        if s.status != Stopping && s.status != Fatal {
          if s.instance.Some? {
            assert InWindow(s'.At(t));
          } else {
            InstallKeepsInv(s, t, made);
          }
        }
      case (CloseOld(_), ToClose(i)) =>
        CloseOldKeepsInv(s, t);
      case (ReloadAgain(_, made), HasClosed(_)) =>
        assert InWindow(s.At(t));
        InstallKeepsInv(s, t, made);
      case (RunStart(_, _), ToStart(_)) =>
        OtherMoved(s, s', t);
      case (Report(_), StartDone(_, _)) =>
        OtherMoved(s, s', t);
      case _ =>
    }
  }

  /** Moving a caller that is not in the window leaves the window as it was. */
  lemma OtherMoved(s: State, s': State, t: CallerId)
    requires !InWindow(s.At(t)) && !InWindow(s'.At(t))
    requires forall u :: u != t ==> s'.At(u) == s.At(u)
    ensures forall u :: InWindow(s'.At(u)) <==> InWindow(s.At(u))
  {
    forall u ensures InWindow(s'.At(u)) <==> InWindow(s.At(u)) {
      if u == t {}
    }
  }

  /**
   Under every interleaving of any number of callers: one caller at most is in the closing
   window, no instance is closed twice or dropped unclosed, and Starting or Started means
   an installed instance that the service has not closed.
   */
  lemma {:induction false} EveryRunIsSafe(s: State, actions: seq<Action>)
    requires Inv(s)
    ensures Inv(Run(s, actions))
    decreases actions
  {
    if actions != [] {
      StepKeepsInv(s, actions[0]);
      EveryRunIsSafe(Next(s, actions[0]), actions[1..]);
    }
  }

  lemma InitialIsSafe(actions: seq<Action>)
    ensures Inv(Run(INITIAL, actions))
  {
    assert forall t :: INITIAL.At(t) == Outside;
    EveryRunIsSafe(INITIAL, actions);
  }

  /** An installed instance is only ever replaced or removed by the caller that closed it, once. */
  lemma ReplacedOnlyByItsCloser(s: State, a: Action)
    requires Inv(s) && s.instance.Some? && Next(s, a).instance != s.instance
    ensures Next(s, a).closes[s.instance.value] == 1
    ensures s.At(a.t) == HasClosed(s.instance.value)
         || (a.CloseService? && a.ok && s.closes[s.instance.value] == 0)
  {
    if s.At(a.t).HasClosed? {
      assert InWindow(s.At(a.t));
    }
  }

  // ----- what the calls do -----

  /** The state is as it was, but for where the callers stand. */
  predicate SameService(s: State, r: State) {
    r.status == s.status && r.instance == s.instance && r.next == s.next && r.closes == s.closes
  }

  ghost predicate OthersStay(s: State, r: State, t: CallerId) {
    forall u :: u != t ==> r.At(u) == s.At(u)
  }

  /** The segments of a whole reload; whether an instance can be made, and whether its start succeeds. */
  function ReloadBy(s: State, t: CallerId, made: bool, ok: bool): seq<Action> {
    [ReloadEnter(t, made)]
    + ((if s.instance.Some? then [CloseOld(t), ReloadAgain(t, made)] else [])
       + if made then [RunStart(t, ok), Report(t)] else [])
  }

  /**
   A reload nobody gets in the way of closes the installed instance once and installs a new one,
   which is then started; without one to install, the closed one stays. It ends Started, or Fatal.
   */
  lemma UndisturbedReload(s: State, t: CallerId, made: bool, ok: bool)
    requires s.At(t) == Outside && s.status != Stopping && s.status != Fatal
    ensures var r := Run(s, ReloadBy(s, t, made, ok));
            && r.At(t) == Outside && OthersStay(s, r, t)
            && r.status == (if made && ok then Started else Fatal)
            && r.instance == (if made then Some(s.next) else s.instance)
            && r.next == (if made then s.next + 1 else s.next)
            && r.closes == s.closes + if s.instance.Some? then multiset{s.instance.value} else multiset{}
  {
    var start := if made then [RunStart(t, ok), Report(t)] else [];
    var r := Replaces(s, t, made, start);
    if made {
      Starts(r, t, ok);
    } else {
      assert Run(r, start) == r;
    }
    hide Run;
  }

  /** The first half: the installed instance is closed and another put in its place. */
  lemma Replaces(s: State, t: CallerId, made: bool, rest: seq<Action>) returns (r: State)
    requires s.At(t) == Outside && s.status != Stopping && s.status != Fatal
    ensures r.At(t) == (if made then ToStart(s.next) else Outside) && OthersStay(s, r, t)
    ensures r.status == if made then Starting else Fatal
    ensures r.instance == if made then Some(s.next) else s.instance
    ensures r.next == if made then s.next + 1 else s.next
    ensures r.closes == s.closes + if s.instance.Some? then multiset{s.instance.value} else multiset{}
    ensures Run(s, [ReloadEnter(t, made)]
                   + ((if s.instance.Some? then [CloseOld(t), ReloadAgain(t, made)] else []) + rest))
         == Run(r, rest)
  {
    hide Run;
    r := Next(s, ReloadEnter(t, made));
    if s.instance.Some? {
      var middle := Next(r, CloseOld(t));
      var again := [ReloadAgain(t, made)] + rest;
      assert [CloseOld(t), ReloadAgain(t, made)] + rest == [CloseOld(t)] + again;
      Then(s, ReloadEnter(t, made), [CloseOld(t)] + again);
      Then(r, CloseOld(t), again);
      Then(middle, ReloadAgain(t, made), rest);
      r := Next(middle, ReloadAgain(t, made));
    } else {
      assert [] + rest == rest;
      Then(s, ReloadEnter(t, made), rest);
    }
  }

  /** The second half: the new instance is started. */
  lemma Starts(s: State, t: CallerId, ok: bool)
    requires s.At(t).ToStart? && s.status == Starting
    ensures var r := Run(s, [RunStart(t, ok), Report(t)]);
            && r.At(t) == Outside && OthersStay(s, r, t)
            && r == s.(status := if ok then Started else Fatal, callers := r.callers)
  {
    var done := Next(s, RunStart(t, ok));
    assert [RunStart(t, ok), Report(t)] == [RunStart(t, ok)] + ([Report(t)] + []);
    Then(s, RunStart(t, ok), [Report(t)] + []);
    Then(done, Report(t), []);
  }

  /** While a reload closes the installed instance without the lock, the service is stopping. */
  lemma ReloadStops(s: State, t: CallerId, made: bool)
    requires s.At(t) == Outside && s.status != Stopping && s.status != Fatal && s.instance.Some?
    ensures var r := Next(s, ReloadEnter(t, made));
            && r == s.(status := Stopping, callers := r.callers)
            && r.At(t) == ToClose(s.instance.value) && OthersStay(s, r, t)
  {
  }

  /** While the service is stopping, or after a fatal error, a reload is refused. */
  lemma RefusedReload(s: State, t: CallerId, made: bool)
    requires s.At(t) == Outside && (s.status == Stopping || s.status == Fatal)
    ensures Next(s, ReloadEnter(t, made)) == s
  {
  }

  /** Closing takes a running service to Idle without an instance, or to Fatal with it, and any other nowhere. */
  lemma Closes(s: State, t: CallerId, ok: bool)
    requires s.At(t) == Outside
    ensures var r, running := Next(s, CloseService(t, ok)), s.status == Starting || s.status == Started;
            && r.callers == s.callers && r.next == s.next
            && (!running ==> r == s)
            && (running ==>
                  && r.status == (if ok || s.instance.None? then Idle else Fatal)
                  && r.instance == (if ok then None else s.instance)
                  && r.closes == s.closes + if s.instance.Some? then multiset{s.instance.value} else multiset{})
  {
  }

  /** A reported error is fatal whatever was before, and touches nothing else. */
  lemma ErrorsAreFatal(s: State, t: CallerId)
    requires s.At(t) == Outside
    ensures Next(s, SetError(t)) == s.(status := Fatal)
  {
  }

  /** A starter that was overtaken reports nothing. */
  lemma LateReport(s: State, t: CallerId)
    requires s.At(t).StartDone? && s.status != Starting
    ensures var r := Next(s, Report(t)); SameService(s, r) && r.At(t) == Outside && OthersStay(s, r, t)
  {
  }

  /** Nobody moves but the caller itself, and it only in its turn. */
  lemma OnlyInTurn(s: State, a: Action)
    ensures OthersStay(s, Next(s, a), a.t)
    ensures Next(s, a) != s ==>
              match a
              case ReloadEnter(t, _) => s.At(t) == Outside
              case CloseOld(t) => s.At(t).ToClose?
              case ReloadAgain(t, _) => s.At(t).HasClosed?
              case RunStart(t, _) => s.At(t).ToStart?
              case Report(t) => s.At(t).StartDone?
              case CloseService(t, _) => s.At(t) == Outside
              case SetError(t) => s.At(t) == Outside
  {
  }

  /** Started, then closed: idle again, with the one instance made in between closed once. */
  lemma ReloadThenClose(s: State, t: CallerId)
    requires s.At(t) == Outside && s.status == Idle && s.instance == None
    ensures var r := Next(Run(s, ReloadBy(s, t, true, true)), CloseService(t, true));
            r.status == Idle && r.instance == None && r.next == s.next + 1 && r.closes == s.closes + multiset{s.next}
  {
    UndisturbedReload(s, t, true, true);
    hide ReloadBy, Run;
    Closes(Run(s, ReloadBy(s, t, true, true)), t, true);
  }

  // ----- Started -----

  /**
   Report marks Started on the status alone. The starter that does so either started the
   installed instance, or one the service has already closed.
   */
  lemma WhoMarksStarted(s: State, a: Action)
    requires Inv(s) && s.status != Started && Next(s, a).status == Started
    ensures a.Report? && s.At(a.t).StartDone? && s.At(a.t).ok
    ensures (s.closes[s.At(a.t).made] == 1) != (s.instance == Some(s.At(a.t).made))
  {
    assert s.At(a.t).made < s.next;
  }

  lemma Then(s: State, a: Action, rest: seq<Action>)
    ensures Run(s, [a] + rest) == Run(Next(s, a), rest)
  {
    assert ([a] + rest)[1..] == rest;
  }

  /** A starter overtaken by a reload reports Started while the installed instance is still starting. */
  lemma StaleStarterMarksStarted()
    ensures
      var reload := [ReloadEnter(1, true), CloseOld(1), ReloadAgain(1, true)];
      var s := Run(INITIAL, [ReloadEnter(0, true)] + reload + [RunStart(0, true), Report(0)]);
      s.status == Started && s.instance == Some(1) && s.At(1) == ToStart(1) && s.closes[0] == 1
  {
    hide Run;
    Overtaking([RunStart(0, true), Report(0)]);
    var s3 := Overtaken();
    assert [RunStart(0, true), Report(0)] == [RunStart(0, true)] + ([Report(0)] + []);
    Then(s3, RunStart(0, true), [Report(0)] + []);
    Then(Next(s3, RunStart(0, true)), Report(0), []);
    RunNothing(Next(Next(s3, RunStart(0, true)), Report(0)));
  }

  lemma RunNothing(s: State)
    ensures Run(s, []) == s
  {
  }

  /** Caller 1 has replaced the instance caller 0 is about to start. */
  function Overtaken(): State {
    State(Starting, Some(1), 2, multiset{0}, map[0 := ToStart(0), 1 := ToStart(1)])
  }

  lemma Overtaking(rest: seq<Action>)
    ensures Run(INITIAL, [ReloadEnter(0, true)] + [ReloadEnter(1, true), CloseOld(1), ReloadAgain(1, true)] + rest)
         == Run(Overtaken(), rest)
  {
    hide Run;
    var s1 := Next(INITIAL, ReloadEnter(0, true));
    var s2 := Next(s1, ReloadEnter(1, true));
    var s3 := Next(s2, CloseOld(1));
    var r3 := [ReloadAgain(1, true)] + rest;
    var r2 := [CloseOld(1)] + r3;
    var r1 := [ReloadEnter(1, true)] + r2;
    Then(INITIAL, ReloadEnter(0, true), r1);
    Then(s1, ReloadEnter(1, true), r2);
    Then(s2, CloseOld(1), r3);
    Then(s3, ReloadAgain(1, true), rest);
    assert Next(s3, ReloadAgain(1, true)) == Overtaken();
    assert [ReloadEnter(0, true)] + [ReloadEnter(1, true), CloseOld(1), ReloadAgain(1, true)] + rest
        == [ReloadEnter(0, true)] + r1;
  }

  // ----- Fatal -----

  lemma FatalStep(s: State, a: Action)
    requires s.status == Fatal && forall t :: !InWindow(s.At(t))
    ensures Next(s, a).status == Fatal && Next(s, a).instance == s.instance && Next(s, a).closes == s.closes
    ensures forall t :: !InWindow(Next(s, a).At(t))
  {
    assert !InWindow(s.At(a.t));
    forall u ensures u != a.t ==> Next(s, a).At(u) == s.At(u) {}
    forall t ensures !InWindow(Next(s, a).At(t)) {
      if t == a.t {}
    }
  }

  lemma {:induction false} FatalRun(s: State, actions: seq<Action>)
    requires s.status == Fatal && forall t :: !InWindow(s.At(t))
    ensures Run(s, actions).status == Fatal
    ensures Run(s, actions).instance == s.instance && Run(s, actions).closes == s.closes
    decreases actions
  {
    if actions != [] {
      FatalStep(s, actions[0]);
      FatalRun(Next(s, actions[0]), actions[1..]);
    }
  }

  /**
   Fatal can be left exactly while some caller is in the closing window. Otherwise it is
   final, and whatever instance is installed then is never closed by the service.
   */
  lemma FatalIsFinalOutsideTheWindow(s: State)
    requires s.status == Fatal
    ensures (exists actions :: Run(s, actions).status != Fatal) <==> exists t :: InWindow(s.At(t))
  {
    if t :| InWindow(s.At(t)) {
      var actions := TheCloserGoesOn(s, t);
      assert Run(s, actions).status != Fatal;
    } else {
      forall actions ensures Run(s, actions).status == Fatal {
        FatalRun(s, actions);
      }
    }
  }

  lemma TheCloserGoesOn(s: State, t: CallerId) returns (actions: seq<Action>)
    requires InWindow(s.At(t))
    ensures Run(s, actions).status == Starting
  {
    var again := [ReloadAgain(t, true)];
    if s.At(t).ToClose? {
      var s1 := Next(s, CloseOld(t));
      assert s1.At(t).HasClosed?;
      actions := [CloseOld(t)] + again;
      assert actions[1..] == again;
      assert Run(s, actions) == Run(s1, again) == Run(Next(s1, again[0]), again[1..]);
    } else {
      actions := again;
      assert Run(s, again) == Run(Next(s, again[0]), again[1..]);
    }
  }
}
