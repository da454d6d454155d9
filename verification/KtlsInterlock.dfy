/**
 The interlock between Write and Close on a kernel-TLS connection: one atomic word counts
 writers by twos and carries the closed bit. Any number of writers and closers race on it
 with load and compare-and-swap.
 */
module KtlsInterlock {
  import opened Wrappers

  type Caller = nat

  /** Where a caller stands; `seen` is the value it loaded. A failed swap goes back to Idle and loads again. */
  datatype Place =
    | Idle
    | WriteLoaded(seen: nat)
    | InWrite
    | CloseLoaded(seen: nat)
    | Closing(seen: nat)

  /**
   `active` is the word. `winner` remembers who set the closed bit and what the word was
   then, `finished` whether that Close got past its notification, `notices` how many
   close_notify alerts went out; `notified` is the connection's own flag.
   */
  datatype State = State(
    active: nat,
    places: map<Caller, Place>,
    handshaken: bool,
    notified: bool,
    notices: nat,
    winner: Option<(Caller, nat)>,
    finished: bool)
  {
    function At(t: Caller): Place {
      if t in places then places[t] else Idle
    }

    function Move(t: Caller, p: Place): State {
      this.(places := places[t := p])
    }
  }

  datatype Action =
    | LoadForWrite(t: Caller)
    | LoadForClose(t: Caller)
    | Swap(t: Caller)
    | EndWrite(t: Caller)
    | Notify(t: Caller)

  function Next(s: State, a: Action): State {
    match (a, s.At(a.t))
    case (LoadForWrite(t), Idle) => if s.active % 2 == 1 then s else s.Move(t, WriteLoaded(s.active))
    case (LoadForClose(t), Idle) => if s.active % 2 == 1 then s else s.Move(t, CloseLoaded(s.active))
    case (Swap(t), WriteLoaded(x)) =>
      if s.active == x then s.Move(t, InWrite).(active := x + 2) else s.Move(t, Idle)
    case (Swap(t), CloseLoaded(x)) =>
      if s.active == x then s.Move(t, Closing(x)).(active := x + 1, winner := Some((t, x))) else s.Move(t, Idle)
    case (EndWrite(t), InWrite) =>
      s.Move(t, Idle).(active := if s.active < 2 then 0 else s.active - 2)
    case (Notify(t), Closing(x)) =>
      // with a write in flight, or no handshake, or a notice already out, nothing is sent
      var sends := x == 0 && s.handshaken && !s.notified;
      s.Move(t, Idle).(
        finished := true,
        notified := s.notified || sends,
        notices := s.notices + if sends then 1 else 0)
    case _ => s
  }

  function Run(s: State, actions: seq<Action>): State
    decreases actions
  {
    if actions == [] then s else Run(Next(s, actions[0]), actions[1..])
  }

  function Initial(handshaken: bool): State {
    State(0, map[], handshaken, false, 0, None, false)
  }

  // ----- the invariant -----

  /** The callers with a write in progress. */
  function Writing(places: map<Caller, Place>): set<Caller> {
    set t | t in places && places[t] == InWrite
  }

  function Writers(s: State): set<Caller> {
    Writing(s.places)
  }

  ghost predicate WordCounts(s: State) {
    s.active == 2 * |Writers(s)| + if s.winner.Some? then 1 else 0
  }

  /** A loaded value never has the closed bit; the one closing caller holds the value it swapped from. */
  ghost predicate PlaceTrue(s: State, t: Caller) {
    match s.At(t)
    case WriteLoaded(x) => x % 2 == 0
    case CloseLoaded(x) => x % 2 == 0
    case Closing(x) => s.winner == Some((t, x)) && !s.finished
    case _ => true
  }

  ghost predicate PlacesTrue(s: State) {
    forall t :: PlaceTrue(s, t)
  }

  ghost predicate NoticesTrue(s: State) {
    && (s.notified <==> s.notices == 1) && s.notices <= 1
    && (s.winner == None ==> s.notices == 0 && !s.finished)
    && (s.winner.Some? && s.winner.value.1 == 0 ==> Writers(s) == {})
    && (s.finished ==> s.winner.Some? && s.notices == if s.winner.value.1 == 0 && s.handshaken then 1 else 0)
    && (!s.finished ==> s.notices == 0)
    && (s.winner.Some? ==> s.winner.value.1 % 2 == 0)
  }

  ghost predicate Inv(s: State) {
    WordCounts(s) && PlacesTrue(s) && NoticesTrue(s)
  }

  lemma MoveWriters(places: map<Caller, Place>, t: Caller, p: Place)
    ensures Writing(places[t := p]) == if p == InWrite then Writing(places) + {t} else Writing(places) - {t}
    ensures |Writing(places[t := p])| == |Writing(places)| + (if p == InWrite then 1 else 0)
                                      - if t in places && places[t] == InWrite then 1 else 0
  {
    var others := Writing(places) - {t};
    assert Writing(places[t := p]) == if p == InWrite then others + {t} else others;
    assert Writing(places) == if t in Writing(places) then others + {t} else others;
    assert |others + {t}| == |others| + 1;
  }

  lemma StepKeepsPlaces(s: State, a: Action)
    requires Inv(s)
    ensures PlacesTrue(Next(s, a))
  {
    var s' := Next(s, a);
    assert PlaceTrue(s, a.t);
    forall u ensures PlaceTrue(s', u) {
      assert PlaceTrue(s, u);
      assert u != a.t ==> s'.At(u) == s.At(u);
    }
  }

  lemma StepKeepsWord(s: State, a: Action)
    requires Inv(s)
    ensures WordCounts(Next(s, a))
  {
    hide Writing;
    assert PlaceTrue(s, a.t);
    MoveWriters(s.places, a.t, Next(s, a).At(a.t));
  }

  /** With the closed bit set the word is odd, a loaded value is even, and no swap succeeds. */
  lemma ClosedStep(s: State, a: Action)
    requires Inv(s) && s.winner.Some?
    ensures Next(s, a).winner == s.winner && Writers(Next(s, a)) <= Writers(s)
  {
    assert PlaceTrue(s, a.t) && s.active % 2 == 1;
    hide Writing, NoticesTrue, PlacesTrue;
    MoveWriters(s.places, a.t, Next(s, a).At(a.t));
  }

  lemma OpenKeepsNotices(s: State, a: Action)
    requires Inv(s) && s.winner.None?
    ensures NoticesTrue(Next(s, a))
  {
    assert PlaceTrue(s, a.t);
    assert s.active == 0 ==> Writers(s) == {};
    hide PlacesTrue, Writing;
    if Next(s, a).winner.Some? {
      MoveWriters(s.places, a.t, Next(s, a).At(a.t));
    }
  }

  lemma ClosedKeepsNotices(s: State, a: Action)
    requires Inv(s) && s.winner.Some?
    ensures NoticesTrue(Next(s, a))
  {
    assert PlaceTrue(s, a.t);
    ClosedStep(s, a);
    hide PlacesTrue, Writing, Writers;
  }

  lemma StepKeepsNotices(s: State, a: Action)
    requires Inv(s)
    ensures NoticesTrue(Next(s, a))
  {
    hide NoticesTrue, Next;
    if s.winner.Some? {
      ClosedKeepsNotices(s, a);
    } else {
      OpenKeepsNotices(s, a);
    }
  }

  lemma StepKeepsInv(s: State, a: Action)
    requires Inv(s)
    ensures Inv(Next(s, a))
  {
    StepKeepsPlaces(s, a);
    StepKeepsWord(s, a);
    StepKeepsNotices(s, a);
  }

  /** The safety of the interlock in every run of any number of callers. */
  lemma {:induction false} EveryRunIsSafe(s: State, actions: seq<Action>)
    requires Inv(s)
    ensures Inv(Run(s, actions))
    decreases actions
  {
    if actions != [] {
      StepKeepsInv(s, actions[0]);
      EveryRunIsSafe(Next(s, actions[0]), actions[1..]);
    }
  }

  /**
   In every run the word is twice the number of writes in progress plus the closed bit,
   and at most one close_notify goes out.
   */
  lemma WordIsExact(handshaken: bool, actions: seq<Action>)
    ensures var s := Run(Initial(handshaken), actions);
            && s.active / 2 == |Writers(s)| && (s.active % 2 == 1 <==> s.winner.Some?)
            && s.notices <= 1
  {
    var s0 := Initial(handshaken);
    assert Writers(s0) == {};
    EveryRunIsSafe(s0, actions);
  }

  /**
   A notice only goes out with no write in progress, and a finished Close sent it unless one was or no
   handshake completed.
   */
  lemma NoticeOnlyWhenQuiet(s: State, a: Action)
    requires Inv(s)
    ensures Next(s, a).notices > s.notices ==> Writers(s) == {} && s.winner == Some((a.t, 0)) && s.handshaken
    ensures Next(s, a).finished && !s.finished ==>
              s.winner.Some? && (Next(s, a).notices == 1 <==> s.winner.value.1 == 0 && s.handshaken)
  {
    assert PlaceTrue(s, a.t);
  }

  /** Once the closed bit is set it stays, with the same winner, and no write begins. */
  lemma {:induction false} ClosedStaysClosed(s: State, actions: seq<Action>)
    requires Inv(s) && s.winner.Some?
    ensures Run(s, actions).winner == s.winner && Writers(Run(s, actions)) <= Writers(s)
    decreases actions
  {
    if actions != [] {
      StepKeepsInv(s, actions[0]);
      ClosedStep(s, actions[0]);
      hide Writing, Inv, Next;
      ClosedStaysClosed(Next(s, actions[0]), actions[1..]);
    }
  }

  // ----- what the calls do -----

  ghost predicate OthersStay(s: State, r: State, t: Caller) {
    forall u :: u != t ==> r.At(u) == s.At(u)
  }

  /**
   A swap goes through exactly when the word is what it was when loaded. A write then is in progress,
   a close has won, and otherwise nothing changes but that the caller loads again.
   */
  lemma SwapExactly(s: State, t: Caller)
    requires Inv(s) && (s.At(t).WriteLoaded? || s.At(t).CloseLoaded?)
    ensures var r, x := Next(s, Swap(t)), s.At(t).seen;
            && OthersStay(s, r, t)
            && (t in Writers(r) <==> s.At(t).WriteLoaded? && s.active == x)
            && (r.winner == Some((t, x)) && s.winner.None? <==> s.At(t).CloseLoaded? && s.active == x)
            && (s.active != x ==> r == s.(places := r.places) && r.At(t) == Idle)
  {
    assert PlaceTrue(s, t);
  }

  /** While nobody has closed, a write that is not disturbed begins. */
  lemma WriteBegins(s: State, t: Caller)
    requires Inv(s) && s.At(t) == Idle && s.winner.None?
    ensures var r := Next(Next(s, LoadForWrite(t)), Swap(t));
            && OthersStay(s, r, t) && Writers(r) == Writers(s) + {t}
            && r == s.(places := r.places, active := s.active + 2)
  {
    WriteSteps(s, t);
    hide Inv, Next, Writing;
    WritersMoved(s, t, InWrite, Next(Next(s, LoadForWrite(t)), Swap(t)));
  }

  lemma WriteSteps(s: State, t: Caller)
    requires s.At(t) == Idle && s.active % 2 == 0
    ensures Next(Next(s, LoadForWrite(t)), Swap(t)) == s.(places := s.places[t := InWrite], active := s.active + 2)
  {
    assert s.places[t := WriteLoaded(s.active)][t := InWrite] == s.places[t := InWrite];
  }

  lemma CloseSteps(s: State, t: Caller)
    requires s.At(t) == Idle && s.active % 2 == 0
    ensures Next(Next(s, LoadForClose(t)), Swap(t))
         == s.(places := s.places[t := Closing(s.active)], active := s.active + 1, winner := Some((t, s.active)))
  {
    assert s.places[t := CloseLoaded(s.active)][t := Closing(s.active)] == s.places[t := Closing(s.active)];
  }

  lemma WritersMoved(s: State, t: Caller, p: Place, r: State)
    requires r.places == s.places[t := p]
    ensures Writers(r) == (if p == InWrite then Writers(s) + {t} else Writers(s) - {t})
    ensures OthersStay(s, r, t) && r.At(t) == p
  {
    MoveWriters(s.places, t, p);
  }

  /**
   A close that is not disturbed wins and finishes; it says so to the peer exactly when no write is in
   progress and the handshake was completed.
   */
  lemma CloseAlone(s: State, t: Caller)
    requires Inv(s) && s.At(t) == Idle && s.winner.None?
    ensures var won := Next(Next(s, LoadForClose(t)), Swap(t));
            var done := Next(won, Notify(t));
            && OthersStay(s, done, t) && won.winner == Some((t, s.active)) && done.winner == won.winner
            && done.finished && done.At(t) == Idle && Writers(done) == Writers(s)
            && done.notices == if Writers(s) == {} && s.handshaken then 1 else 0
  {
    assert s.active % 2 == 0 && s.notices == 0 && !s.notified && t !in Writers(s);
    assert s.active == 0 <==> Writers(s) == {};
    CloseSteps(s, t);
    hide Inv, Writing, Writers;
    var won := Next(Next(s, LoadForClose(t)), Swap(t));
    var done := Next(won, Notify(t));
    assert done.places == won.places[t := Idle];
    assert done.finished && done.winner == won.winner && done.notices == if s.active == 0 && s.handshaken then 1 else 0;
    hide Next;
    WritersMoved(s, t, Closing(s.active), won);
    WritersMoved(won, t, Idle, done);
  }

  /** Once somebody has closed, writes and closes are refused. */
  lemma RefusedOnceClosed(s: State, t: Caller)
    requires Inv(s) && s.At(t) == Idle && s.winner.Some?
    ensures Next(s, LoadForWrite(t)) == s && Next(s, LoadForClose(t)) == s
  {
  }

  /** A write that ends takes exactly itself out, closed or not. */
  lemma WriteEnds(s: State, t: Caller)
    requires Inv(s) && s.At(t) == InWrite
    ensures var r := Next(s, EndWrite(t));
            && OthersStay(s, r, t) && r.At(t) == Idle && Writers(r) == Writers(s) - {t}
            && r == s.(places := r.places, active := r.active) && r.active + 2 == s.active
  {
    assert t in Writers(s);
    assert |Writers(s)| > 0;
    hide Inv, Writing, Writers;
    WritersMoved(s, t, Idle, Next(s, EndWrite(t)));
  }
}
