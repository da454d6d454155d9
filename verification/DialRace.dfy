/**
 The parallel dial races. Racers dial in the background and offer their result on an
 unbuffered channel, or notice that the race is over; the main loop takes results and,
 when the fallback timer fires, launches the fallback racers. The fast variant launches
 everything at once and has no timer; the network race is the one with a single racer on each side.
 */
module DialRace {
  datatype Racer =
    | NotLaunched
    | Dialing
    | Connected          // holds a connection it has not handed over
    | Failing            // holds an error it has not handed over
    | Delivered(ok: bool)
    | Closed             // the race was over: closed its own connection
    | Dropped            // the race was over: dropped its error

  datatype Timer = NoTimer | Armed | Fired | Spent

  datatype Main = Racing | ReturnedConn(winner: nat) | ReturnedErrors

  /** Racers below `primaries` are primary. `launches` counts how often the fallbacks were launched by the timer. */
  datatype State = State(primaries: nat, racers: seq<Racer>, timer: Timer, main: Main, errors: nat, launches: nat)

  /**
   `drains` is whether stopping a timer that has fired but was not received takes the
   value back, which depends on the version of the Go runtime.
   */
  datatype Action =
    | Dial(r: nat, ok: bool)
    | Fire
    | TakeTimer
    | Deliver(r: nat, drains: bool)
    | GiveUp(r: nat)

  function Initial(primaries: nat, fallbacks: nat, fast: bool): State {
    State(
      primaries,
      seq(primaries + fallbacks, i => if i < primaries || fast then Dialing else NotLaunched),
      if fast || fallbacks == 0 then NoTimer else Armed,
      Racing, 0, 0)
  }

  predicate Enabled(s: State, a: Action) {
    match a
    case Dial(r, _) => r < |s.racers| && s.racers[r] == Dialing
    case Fire => s.main == Racing && s.timer == Armed
    case TakeTimer => s.main == Racing && s.timer == Fired
    case Deliver(r, _) => s.main == Racing && r < |s.racers| && Offers(s.racers[r])
    case GiveUp(r) => s.main != Racing && r < |s.racers| && Offers(s.racers[r])
  }

  predicate Offers(racer: Racer) {
    racer == Connected || racer == Failing
  }

  function Launch(racers: seq<Racer>, primaries: nat): (launched: seq<Racer>)
    ensures |launched| == |racers|
    ensures forall i :: 0 <= i < |racers| ==> launched[i] == if i < primaries then racers[i] else Dialing
  {
    seq(|racers|, i requires 0 <= i < |racers| => if i < primaries then racers[i] else Dialing)
  }

  /** A primary failure brings the fallbacks forward: a timer that Stop reports as stopped is rearmed at once. */
  function Hurry(t: Timer, drains: bool): Timer {
    if t == Fired && drains then Armed else t
  }

  function Next(s: State, a: Action): State
    requires Enabled(s, a)
  {
    match a
    case Dial(r, ok) => s.(racers := s.racers[r := if ok then Connected else Failing])
    case Fire => s.(timer := Fired)
    case TakeTimer => s.(racers := Launch(s.racers, s.primaries), timer := Spent, launches := s.launches + 1)
    case Deliver(r, drains) =>
      if s.racers[r] == Connected then s.(racers := s.racers[r := Delivered(true)], main := ReturnedConn(r))
      else
        var s' := s.(racers := s.racers[r := Delivered(false)], errors := s.errors + 1);
        if s'.errors == |s.racers| then s'.(main := ReturnedErrors)
        else if r < s.primaries then s'.(timer := Hurry(s.timer, drains)) else s'
    case GiveUp(r) => s.(racers := s.racers[r := if s.racers[r] == Connected then Closed else Dropped])
  }

  // ----- counting -----

  function Rank(r: Racer): nat {
    match r
    case NotLaunched => 3
    case Dialing => 2
    case Connected => 1
    case Failing => 1
    case _ => 0
  }

  function TotalRank(racers: seq<Racer>): nat {
    if racers == [] then 0 else Rank(racers[0]) + TotalRank(racers[1..])
  }

  function Failures(racers: seq<Racer>): nat {
    if racers == [] then 0 else (if racers[0] == Delivered(false) then 1 else 0) + Failures(racers[1..])
  }

  lemma {:induction false} Update(racers: seq<Racer>, i: nat, r: Racer)
    requires i < |racers|
    ensures TotalRank(racers[i := r]) == TotalRank(racers) - Rank(racers[i]) + Rank(r)
    ensures Failures(racers[i := r]) == Failures(racers) + (if r == Delivered(false) then 1 else 0)
                                      - if racers[i] == Delivered(false) then 1 else 0
  {
    if i == 0 {
      assert racers[0 := r][1..] == racers[1..];
    } else {
      assert racers[i := r][1..] == racers[1..][i - 1 := r];
      Update(racers[1..], i - 1, r);
    }
  }

  lemma {:induction false} AllFailed(racers: seq<Racer>)
    ensures Failures(racers) <= |racers|
    ensures Failures(racers) == |racers| <==> forall i :: 0 <= i < |racers| ==> racers[i] == Delivered(false)
  {
    if racers != [] {
      AllFailed(racers[1..]);
      assert forall i :: 0 < i < |racers| ==> racers[i] == racers[1..][i - 1];
    }
  }

  /** Launching idle fallbacks lowers the rank and fails nobody. */
  lemma {:induction false} LaunchCounts(before: seq<Racer>, after: seq<Racer>)
    requires |before| == |after|
    requires forall i :: 0 <= i < |before| ==>
        after[i] == before[i] || (before[i] == NotLaunched && after[i] == Dialing)
    ensures TotalRank(after) <= TotalRank(before) && Failures(after) == Failures(before)
    ensures after != before ==> TotalRank(after) < TotalRank(before)
  {
    if before != [] {
      LaunchCounts(before[1..], after[1..]);
      assert before == [before[0]] + before[1..] && after == [after[0]] + after[1..];
    }
  }

  // ----- the invariant -----

  /** The timer still has to launch the fallbacks. */
  predicate Pending(s: State) {
    s.timer == Armed || s.timer == Fired
  }

  ghost predicate RacerTrue(s: State, i: nat)
    requires i < |s.racers|
  {
    && (s.racers[i] == NotLaunched <==> i >= s.primaries && Pending(s))
    && (s.racers[i] == Delivered(true) <==> s.main == ReturnedConn(i))
    && (s.racers[i] == Closed || s.racers[i] == Dropped ==> s.main != Racing)
  }

  ghost predicate Inv(s: State) {
    && s.primaries <= |s.racers| && |s.racers| > 0
    && (forall i: nat :: i < |s.racers| ==> RacerTrue(s, i))
    && s.errors == Failures(s.racers)
    && (s.main == Racing ==> s.errors < |s.racers|)
    && (s.main.ReturnedConn? ==> s.main.winner < |s.racers|)
    && (s.main == ReturnedErrors ==> s.errors == |s.racers|)
    && (Pending(s) ==> s.primaries < |s.racers|)
    && s.launches == if s.timer == Spent then 1 else 0
  }

  lemma InitialInv(primaries: nat, fallbacks: nat, fast: bool)
    requires primaries + fallbacks > 0
    ensures Inv(Initial(primaries, fallbacks, fast))
  {
    var s := Initial(primaries, fallbacks, fast);
    NobodyFailed(s.racers);
  }

  lemma {:induction false} NobodyFailed(racers: seq<Racer>)
    requires forall i :: 0 <= i < |racers| ==> racers[i] != Delivered(false)
    ensures Failures(racers) == 0
  {
    if racers != [] {
      NobodyFailed(racers[1..]);
    }
  }

  lemma StepKeepsInv(s: State, a: Action)
    requires Inv(s) && Enabled(s, a)
    ensures Inv(Next(s, a))
  {
    var s' := Next(s, a);
    forall i: nat | i < |s.racers| ensures RacerTrue(s', i) {
      assert RacerTrue(s, i);
    }
    StepCounts(s, a);
    AllFailed(s'.racers);
  }

  /** Twice the ranks, and one for an armed timer: every step uses some of it up. */
  function Fuel(s: State): nat {
    2 * TotalRank(s.racers) + if s.timer == Armed then 1 else 0
  }

  lemma StepCounts(s: State, a: Action)
    requires Inv(s) && Enabled(s, a)
    ensures Next(s, a).errors == Failures(Next(s, a).racers)
    ensures Fuel(Next(s, a)) < Fuel(s)
  {
    match a {
      case Fire =>
      case TakeTimer => LaunchingCounts(s);
      case _ => RacerCounts(s, a);
    }
  }

  lemma RacerCounts(s: State, a: Action)
    requires Enabled(s, a) && !a.Fire? && !a.TakeTimer? && s.errors == Failures(s.racers)
    ensures Next(s, a).errors == Failures(Next(s, a).racers) && Fuel(Next(s, a)) < Fuel(s)
  {
    var racer := Next(s, a).racers[a.r];
    assert Next(s, a).racers == s.racers[a.r := racer];
    assert Rank(racer) < Rank(s.racers[a.r]);
    assert Next(s, a).errors == s.errors + if racer == Delivered(false) then 1 else 0;
    hide Failures, TotalRank, Rank;
    Update(s.racers, a.r, racer);
  }

  lemma LaunchingCounts(s: State)
    requires Inv(s) && Enabled(s, TakeTimer)
    ensures var launched := Launch(s.racers, s.primaries);
            Failures(launched) == Failures(s.racers) && TotalRank(launched) < TotalRank(s.racers)
  {
    hide Failures, TotalRank;
    var launched := Launch(s.racers, s.primaries);
    forall i: nat | i < |s.racers| ensures s.racers[i] == NotLaunched <==> i >= s.primaries {
      assert RacerTrue(s, i);
    }
    assert launched[s.primaries] != s.racers[s.primaries];
    LaunchCounts(s.racers, launched);
  }

  // ----- whole races -----

  /** The states of a race are those its enabled actions lead through. */
  ghost predicate Possible(s: State, actions: seq<Action>)
    decreases actions
  {
    actions == [] || (Enabled(s, actions[0]) && Possible(Next(s, actions[0]), actions[1..]))
  }

  function Run(s: State, actions: seq<Action>): State
    requires Possible(s, actions)
    decreases actions
  {
    if actions == [] then s else Run(Next(s, actions[0]), actions[1..])
  }

  /** Every race is finite: no schedule takes more steps than there is fuel. */
  lemma {:induction false} EveryRaceEnds(s: State, actions: seq<Action>)
    requires Inv(s) && Possible(s, actions)
    ensures Inv(Run(s, actions)) && |actions| + Fuel(Run(s, actions)) <= Fuel(s)
    decreases actions
  {
    if actions != [] {
      StepKeepsInv(s, actions[0]);
      StepCounts(s, actions[0]);
      EveryRaceEnds(Next(s, actions[0]), actions[1..]);
    }
  }

  ghost predicate Over(s: State) {
    forall a :: !Enabled(s, a)
  }

  /** The racer never hangs on to a connection: it is the one returned, or it was closed. */
  ghost predicate NoLeak(s: State) {
    forall i: nat :: i < |s.racers| ==>
      && !Offers(s.racers[i]) && s.racers[i] != Dialing
      && (s.racers[i] == Delivered(true) <==> s.main == ReturnedConn(i))
  }

  /** The race never gets stuck: when nothing more can happen, main has returned and no connection leaked. */
  lemma OverMeansReturned(s: State)
    requires Inv(s) && Over(s)
    ensures s.main != Racing && NoLeak(s)
  {
    forall i: nat | i < |s.racers|
      ensures !Offers(s.racers[i]) && s.racers[i] != Dialing
      ensures s.racers[i] == Delivered(true) <==> s.main == ReturnedConn(i)
    {
      assert RacerTrue(s, i);
      assert !Enabled(s, Dial(i, true)) && !Enabled(s, Deliver(i, true)) && !Enabled(s, GiveUp(i));
    }
    if s.main == Racing {
      assert !Enabled(s, Fire) && !Enabled(s, TakeTimer);
      forall i: nat | i < |s.racers| ensures s.racers[i] == Delivered(false) {
        assert RacerTrue(s, i);
      }
      AllFailed(s.racers);
    }
  }

  // ----- how the dials ended -----

  /** The racer's dial brought a connection: held, handed over, or closed again. */
  predicate Won(racer: Racer) {
    racer == Connected || racer == Delivered(true) || racer == Closed
  }

  /** The racer's dial failed. */
  predicate Lost(racer: Racer) {
    racer == Failing || racer == Delivered(false) || racer == Dropped
  }

  /**
   What became of racer `i` between two states of a race: it won or lost by a dial that ended that
   way, was launched by the timer, handed over what it had, or kept to itself what came too late.
   */
  ghost predicate Accounted(before: State, actions: seq<Action>, after: State, i: nat)
    requires i < |before.racers| == |after.racers|
  {
    && (Won(after.racers[i]) <==> Won(before.racers[i]) || Dial(i, true) in actions)
    && (Lost(after.racers[i]) <==> Lost(before.racers[i]) || Dial(i, false) in actions)
    && (after.racers[i] != NotLaunched <==> before.racers[i] != NotLaunched || TakeTimer in actions)
    && (after.racers[i].Delivered? <==> before.racers[i].Delivered? || exists d :: Deliver(i, d) in actions)
    && (Settled(after.racers[i]) <==> Settled(before.racers[i]) || GiveUp(i) in actions)
  }

  /** Too late for the main loop: the connection was closed, or the error dropped. */
  predicate Settled(racer: Racer) {
    racer == Closed || racer == Dropped
  }

  lemma StepAccounts(s: State, a: Action, i: nat)
    requires Inv(s) && Enabled(s, a) && i < |s.racers|
    ensures |Next(s, a).racers| == |s.racers| && Accounted(s, [a], Next(s, a), i)
  {
    assert RacerTrue(s, i);
    forall d | a == Deliver(i, d) ensures Deliver(i, d) in [a] {
      assert [a][0] == Deliver(i, d);
    }
  }

  lemma {:induction false} RunAccounts(s: State, actions: seq<Action>, i: nat)
    requires Inv(s) && Possible(s, actions) && i < |s.racers|
    ensures |Run(s, actions).racers| == |s.racers| && Accounted(s, actions, Run(s, actions), i)
    decreases actions
  {
    if actions != [] {
      var a := actions[0];
      StepKeepsInv(s, a);
      StepAccounts(s, a, i);
      hide Inv, Enabled, Next;
      RunAccounts(Next(s, a), actions[1..], i);
      assert actions == [a] + actions[1..];
    }
  }

  /**
   In every race a racer has a connection, or had one, exactly when its dial succeeded, and an error
   exactly when it failed; never both. A fallback is launched by the timer, unless all were at once.
   */
  lemma DialsDecide(primaries: nat, fallbacks: nat, fast: bool, actions: seq<Action>, i: nat)
    requires primaries + fallbacks > 0 && Possible(Initial(primaries, fallbacks, fast), actions)
    requires i < primaries + fallbacks
    ensures var s := Run(Initial(primaries, fallbacks, fast), actions);
            && |s.racers| == primaries + fallbacks
            && (Won(s.racers[i]) <==> Dial(i, true) in actions)
            && (Lost(s.racers[i]) <==> Dial(i, false) in actions)
            && !(Dial(i, true) in actions && Dial(i, false) in actions)
            && (s.racers[i] == NotLaunched <==> i >= primaries && !fast && TakeTimer !in actions)
            && (s.racers[i] == Delivered(true) <==> Dial(i, true) in actions && exists d :: Deliver(i, d) in actions)
            && (s.racers[i] == Closed <==> Dial(i, true) in actions && GiveUp(i) in actions)
  {
    InitialInv(primaries, fallbacks, fast);
    RunAccounts(Initial(primaries, fallbacks, fast), actions, i);
  }

  /**
   Any race, under any schedule and any timer behaviour: fallbacks are launched at most once, an
   error is returned only after every racer was launched, dialled and failed, a connection only
   when its racer's dial succeeded, and once nothing more can happen the race has returned and
   every other connection a dial brought was closed.
   */
  lemma RaceIsCorrect(primaries: nat, fallbacks: nat, fast: bool, actions: seq<Action>)
    requires primaries + fallbacks > 0 && Possible(Initial(primaries, fallbacks, fast), actions)
    ensures var s, n := Run(Initial(primaries, fallbacks, fast), actions), primaries + fallbacks;
            && s.launches <= 1
            && (s.main == ReturnedErrors ==> forall i: nat :: i < n ==> Dial(i, false) in actions)
            && (s.main.ReturnedConn? ==> s.main.winner < n && Dial(s.main.winner, true) in actions)
            && (Over(s) ==>
                  && s.main != Racing && NoLeak(s)
                  && (s.main == ReturnedErrors <==> forall i: nat :: i < n ==> Dial(i, false) in actions)
                  && forall i: nat :: i < n && Dial(i, true) in actions ==>
                       s.main == ReturnedConn(i) || GiveUp(i) in actions)
            && |actions| <= Fuel(Initial(primaries, fallbacks, fast))
  {
    InitialInv(primaries, fallbacks, fast);
    EveryRaceEnds(Initial(primaries, fallbacks, fast), actions);
    var s, n := Run(Initial(primaries, fallbacks, fast), actions), primaries + fallbacks;
    AllFailed(s.racers);
    forall i: nat | i < n
      ensures s.main == ReturnedErrors ==> Dial(i, false) in actions
      ensures s.main == ReturnedConn(i) ==> Dial(i, true) in actions && Dial(i, false) !in actions
      ensures Over(s) && Dial(i, true) in actions ==> s.main == ReturnedConn(i) || GiveUp(i) in actions
    {
      DialsDecide(primaries, fallbacks, fast, actions, i);
      assert RacerTrue(s, i);
      if Over(s) {
        OverMeansReturned(s);
      }
    }
    DialsDecide(primaries, fallbacks, fast, actions, 0);
    if Over(s) {
      OverMeansReturned(s);
    }
  }
}
