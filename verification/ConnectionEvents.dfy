/**
 The delta-encoded stream of connection events. A subscriber is first told every known
 connection, then what opens and closes, and at every tick by how much the byte counters
 grew since the last one. What was said is kept in one snapshot per connection.
 */
module ConnectionEvents {
  import opened Sequences
  import opened Wrappers

  type Id = nat
  type Time = int
  /** A byte counter: an int64 that is never negative, so differences cannot overflow. */
  type Count = c: int | 0 <= c < 0x8000_0000_0000_0000

  datatype Reading = Reading(up: Count, down: Count)
  datatype Snapshot = Snapshot(seen: Reading, hadTraffic: bool)

  /** A connection in the manager's list, with the counters as they are read for one event. */
  datatype Tracked = Tracked(id: Id, now: Reading, closedAt: Option<Time>)

  datatype ManagerEvent =
    | Opened(connection: Tracked)
    | Ended(id: Id, closedAt: Option<Time>, metadataClosedAt: Option<Time>)
    | Other

  datatype Message =
    | New(id: Id, totals: Reading, closedAt: Option<Time>)
    | Update(id: Id, up: int, down: int)
    | Closed(id: Id, at: Time)

  /** What the journal of a subscription holds: what was sent, and when a counter was found to have gone back. */
  datatype Entry = Sent(message: Message) | Rebased(id: Id, to: Reading)

  type Snapshots = map<Id, Snapshot>

  // ----- the account a journal gives of one connection -----

  /**
   `sumUp` and `sumDown` are what the deltas since the last baseline add up to, and `moving`
   is whether the last delta was not zero. A connection announced as already closed is history and opens no account.
   */
  datatype Account =
    | NotOpen
    | Open(base: Reading, sumUp: int, sumDown: int, moving: bool)

  function Post(a: Account, e: Entry, id: Id): Account {
    match e
    case Sent(New(i, totals, closedAt)) =>
      if i == id && closedAt.None? then Open(totals, 0, 0, false) else a
    case Sent(Closed(i, _)) => if i == id then NotOpen else a
    case Sent(Update(i, up, down)) =>
      if i == id && a.Open? then
        a.(sumUp := a.sumUp + up, sumDown := a.sumDown + down, moving := up != 0 || down != 0)
      else a
    case Rebased(i, to) =>
      if i == id && a.Open? then a.(base := to, sumUp := 0, sumDown := 0, moving := false) else a
  }

  function AccountOf(journal: seq<Entry>, id: Id): Account {
    if journal == [] then NotOpen
    else Post(AccountOf(journal[..|journal| - 1], id), journal[|journal| - 1], id)
  }

  lemma AccountAfter(journal: seq<Entry>, e: Entry, id: Id)
    ensures AccountOf(journal + [e], id) == Post(AccountOf(journal, id), e, id)
  {
    assert (journal + [e])[..|journal|] == journal;
  }

  // ----- the rules every journal keeps -----

  predicate IsUpdate(e: Entry, id: Id) {
    e.Sent? && e.message.Update? && e.message.id == id
  }

  predicate IsZero(e: Entry, id: Id) {
    IsUpdate(e, id) && e.message.up == 0 && e.message.down == 0
  }

  predicate StartsOrEnds(e: Entry, id: Id) {
    e.Sent? && !e.message.Update? && e.message.id == id && (e.message.New? ==> e.message.closedAt.None?)
  }

  /** Deltas go to open connections only, are never negative, and are zero only to say that traffic stopped. */
  predicate LawfulEntry(a: Account, e: Entry) {
    e.Sent? && e.message.Update? ==>
      a.Open? && e.message.up >= 0 && e.message.down >= 0 && (e.message.up == 0 && e.message.down == 0 ==> a.moving)
  }

  predicate Lawful(journal: seq<Entry>) {
    journal == []
    || (Lawful(journal[..|journal| - 1])
        && LawfulEntry(AccountOf(journal[..|journal| - 1], Subject(journal[|journal| - 1])), journal[|journal| - 1]))
  }

  function Subject(e: Entry): Id {
    if e.Sent? then e.message.id else e.id
  }

  /** The snapshot of a connection says what its account says. */
  predicate Agrees(a: Account, s: Snapshot) {
    && a.Open? && a.moving == s.hadTraffic
    && a.base.up + a.sumUp == s.seen.up && a.base.down + a.sumDown == s.seen.down
  }

  /** Snapshots are kept for exactly the open connections. */
  ghost predicate InStep(journal: seq<Entry>, snapshots: Snapshots) {
    forall id: Id :: if id in snapshots then Agrees(AccountOf(journal, id), snapshots[id])
        else AccountOf(journal, id).NotOpen?
  }

  /** One more entry about `id`, with its snapshot adjusted to match, keeps everything in step. */
  lemma EntryKeeps(journal: seq<Entry>, e: Entry, before: Snapshots, after: Snapshots)
    requires Lawful(journal) && InStep(journal, before)
    requires LawfulEntry(AccountOf(journal, Subject(e)), e)
    requires var a, id := Post(AccountOf(journal, Subject(e)), e, Subject(e)), Subject(e);
             if id in after then Agrees(a, after[id]) else a.NotOpen?
    requires forall id: Id :: id != Subject(e) ==>
        (id in before <==> id in after) && (id in before ==> before[id] == after[id])
    ensures Lawful(journal + [e]) && InStep(journal + [e], after)
  {
    assert (journal + [e])[..|journal|] == journal;
    forall id: Id
      ensures if id in after then Agrees(AccountOf(journal + [e], id), after[id])
          else AccountOf(journal + [e], id).NotOpen?
    {
      AccountAfter(journal, e, id);
    }
  }

  // ----- one connection at a tick -----

  datatype Visited = Visited(snapshots: Snapshots, entries: seq<Entry>)

  /** What the counters of one listed connection make the service say, and what it remembers. */
  function Visit(snapshots: Snapshots, t: Tracked): Visited {
    if t.id !in snapshots then
      Visited(snapshots[t.id := Snapshot(t.now, false)], [Sent(New(t.id, t.now, None))])
    else
      var s := snapshots[t.id];
      var up, down := t.now.up - s.seen.up, t.now.down - s.seen.down;
      if up < 0 || down < 0 then
        Visited(snapshots[t.id := Snapshot(t.now, false)],
                (if s.hadTraffic then [Sent(Update(t.id, 0, 0))] else []) + [Rebased(t.id, t.now)])
      else if up > 0 || down > 0 then
        Visited(snapshots[t.id := Snapshot(t.now, true)], [Sent(Update(t.id, up, down))])
      else if s.hadTraffic then
        Visited(snapshots[t.id := Snapshot(t.now, false)], [Sent(Update(t.id, 0, 0))])
      else Visited(snapshots, [])
  }

  function Messages(entries: seq<Entry>): seq<Message> {
    if entries == [] then []
    else Messages(entries[..|entries| - 1]) + match entries[|entries| - 1] case Sent(m) => [m] case Rebased(_, _) => []
  }

  lemma {:induction false} MessagesAppend(a: seq<Entry>, b: seq<Entry>)
    ensures Messages(a + b) == Messages(a) + Messages(b)
  {
    if b == [] {
      assert a + b == a;
    } else {
      assert (a + b)[..|a + b| - 1] == a + b[..|b| - 1];
      MessagesAppend(a, b[..|b| - 1]);
    }
  }

  lemma OneMessage(m: Message)
    ensures Messages([Sent(m)]) == [m]
  {
    assert [Sent(m)][..0] == [];
  }

  lemma MessagesOfVisit(snapshots: Snapshots, t: Tracked)
    ensures var m := Messages(Visit(snapshots, t).entries);
            if t.id !in snapshots then m == [New(t.id, t.now, None)]
            else
              var s := snapshots[t.id];
              var up, down := t.now.up - s.seen.up, t.now.down - s.seen.down;
              if up >= 0 && down >= 0 && (up > 0 || down > 0) then m == [Update(t.id, up, down)]
              else m == if s.hadTraffic then [Update(t.id, 0, 0)] else []
  {
    var entries := Visit(snapshots, t).entries;
    if entries != [] {
      var init, last := entries[..|entries| - 1], entries[|entries| - 1];
      assert |init| == 0 || init[..0] == [];
      assert Messages(entries) == Messages(init) + if last.Sent? then [last.message] else [];
      assert |init| == 1 ==> Messages(init) == [Update(t.id, 0, 0)];
    }
  }

  /** A baseline is moved exactly when a reading is below the one remembered, and then to that reading. */
  lemma RebasedExactlyWhenBelow(snapshots: Snapshots, t: Tracked, id: Id, r: Reading)
    ensures Rebased(id, r) in Visit(snapshots, t).entries <==>
              && id == t.id && r == t.now && id in snapshots
              && (r.up < snapshots[id].seen.up || r.down < snapshots[id].seen.down)
  {
    if t.id in snapshots {
      var e := Rebased(t.id, t.now);
      assert [Sent(Update(t.id, 0, 0))] + [e] == [Sent(Update(t.id, 0, 0)), e] && [] + [e] == [e];
    }
  }

  // ----- everything that can happen to a subscription -----

  /**
   A subscription starts with announcements and recollections. After that connections open and end,
   and a tick reads the listed connections one by one and ends the ones that vanished.
   */
  datatype Step =
    | Announces(connection: Tracked)
    | Recalls(id: Id, totals: Reading, at: Time)
    | Opens(connection: Tracked)
    | Reads(connection: Tracked)
    | Ends(id: Id, at: Time)

  function Announce(snapshots: Snapshots, t: Tracked): Visited {
    Visited(snapshots[t.id := Snapshot(t.now, false)], [Sent(New(t.id, t.now, None))])
  }

  function Take(snapshots: Snapshots, step: Step): Visited {
    match step
    case Announces(t) => Announce(snapshots, t)
    case Recalls(id, totals, at) => Visited(snapshots, [Sent(New(id, totals, Some(at)))])
    case Opens(t) => if t.id in snapshots then Visited(snapshots, []) else Announce(snapshots, t)
    case Reads(t) => Visit(snapshots, t)
    case Ends(id, at) => Visited(snapshots - {id}, [Sent(Closed(id, at))])
  }

  function TakeAll(snapshots: Snapshots, steps: seq<Step>): Visited {
    if steps == [] then Visited(snapshots, [])
    else
      var before := TakeAll(snapshots, steps[..|steps| - 1]);
      var last := Take(before.snapshots, steps[|steps| - 1]);
      Visited(last.snapshots, before.entries + last.entries)
  }

  /** A subscription after `steps`. */
  function After(steps: seq<Step>): Visited {
    TakeAll(map[], steps)
  }

  lemma TakeNothing(snapshots: Snapshots)
    ensures TakeAll(snapshots, []) == Visited(snapshots, []) && Messages([]) == []
  {
  }

  lemma TakeOneMore(snapshots: Snapshots, steps: seq<Step>, step: Step)
    ensures var before, all := TakeAll(snapshots, steps), TakeAll(snapshots, steps + [step]);
            var last := Take(before.snapshots, step);
            && all.snapshots == last.snapshots && all.entries == before.entries + last.entries
            && Messages(all.entries) == Messages(before.entries) + Messages(last.entries)
  {
    hide Take, Messages;
    assert (steps + [step])[..|steps|] == steps;
    var before := TakeAll(snapshots, steps);
    MessagesAppend(before.entries, Take(before.snapshots, step).entries);
  }

  lemma {:induction false} TakeInTwo(snapshots: Snapshots, first: seq<Step>, second: seq<Step>)
    ensures var before := TakeAll(snapshots, first);
            var after := TakeAll(before.snapshots, second);
            TakeAll(snapshots, first + second) == Visited(after.snapshots, before.entries + after.entries)
  {
    hide Take, Messages;
    var before := TakeAll(snapshots, first);
    if second == [] {
      assert first + second == first && before.entries + [] == before.entries;
    } else {
      var init, last := second[..|second| - 1], second[|second| - 1];
      assert first + second == first + init + [last] && second == init + [last];
      TakeInTwo(snapshots, first, init);
      TakeOneMore(snapshots, first + init, last);
      var middle := TakeAll(before.snapshots, init);
      Associate(before.entries, middle.entries, Take(middle.snapshots, last).entries);
    }
  }

  /** Whatever happens next keeps the rules of the stream and the agreement of snapshots and journal. */
  lemma TakeKeeps(journal: seq<Entry>, snapshots: Snapshots, step: Step)
    requires Lawful(journal) && InStep(journal, snapshots)
    ensures var v := Take(snapshots, step); Lawful(journal + v.entries) && InStep(journal + v.entries, v.snapshots)
  {
    hide Lawful, InStep, AccountOf, Visit;
    var v := Take(snapshots, step);
    match step {
      case Reads(t) =>
        VisitKeeps(journal, snapshots, t);
      case Opens(t) =>
        if t.id in snapshots {
          assert journal + [] == journal;
        } else {
          EntryKeeps(journal, v.entries[0], snapshots, v.snapshots);
        }
      case Recalls(id, _, _) =>
        AccountAgrees(journal, snapshots, id);
        EntryKeeps(journal, v.entries[0], snapshots, v.snapshots);
      case _ =>
        EntryKeeps(journal, v.entries[0], snapshots, v.snapshots);
    }
  }

  lemma VisitKeeps(journal: seq<Entry>, snapshots: Snapshots, t: Tracked)
    requires Lawful(journal) && InStep(journal, snapshots)
    ensures var v := Visit(snapshots, t); Lawful(journal + v.entries) && InStep(journal + v.entries, v.snapshots)
  {
    hide Lawful, InStep, AccountOf;
    var v := Visit(snapshots, t);
    AccountAgrees(journal, snapshots, t.id);
    if v.entries == [] {
      assert journal + v.entries == journal;
    } else if |v.entries| == 1 {
      EntryKeeps(journal, v.entries[0], snapshots, v.snapshots);
      assert v.entries == [v.entries[0]];
    } else {
      var first := v.entries[0];
      var between := snapshots[t.id := snapshots[t.id].(hadTraffic := false)];
      EntryKeeps(journal, first, snapshots, between);
      AccountAfter(journal, first, t.id);
      EntryKeeps(journal + [first], v.entries[1], between, v.snapshots);
      assert journal + v.entries == journal + [first] + [v.entries[1]];
    }
  }

  lemma AccountAgrees(journal: seq<Entry>, snapshots: Snapshots, id: Id)
    requires InStep(journal, snapshots)
    ensures if id in snapshots then Agrees(AccountOf(journal, id), snapshots[id]) else AccountOf(journal, id).NotOpen?
  {
  }

  /** In every run of steps the journal is lawful and the snapshots are those of the open connections. */
  lemma {:induction false} EveryRunIsLawful(steps: seq<Step>)
    ensures Lawful(After(steps).entries) && InStep(After(steps).entries, After(steps).snapshots)
  {
    hide Lawful, InStep, Take;
    if steps == [] {
      NothingIsLawful();
    } else {
      var init := steps[..|steps| - 1];
      EveryRunIsLawful(init);
      TakeKeeps(After(init).entries, After(init).snapshots, steps[|steps| - 1]);
    }
  }

  lemma NothingIsLawful()
    ensures Lawful([]) && InStep([], map[])
  {
  }

  // ----- what follows from the rules -----

  lemma {:induction false} LawfulPrefix(journal: seq<Entry>, k: nat)
    requires Lawful(journal) && k < |journal|
    ensures Lawful(journal[..k]) && LawfulEntry(AccountOf(journal[..k], Subject(journal[k])), journal[k])
  {
    var init := journal[..|journal| - 1];
    if k == |journal| - 1 {
    } else {
      LawfulPrefix(init, k);
      assert init[..k] == journal[..k];
    }
  }

  /** Once quiet, an account stays quiet until it is restarted or traffic is reported. */
  lemma {:induction false} StaysQuiet(journal: seq<Entry>, a: nat, b: nat, id: Id)
    requires a < b <= |journal| && IsZero(journal[a], id)
    requires forall k :: a < k < b ==>
        !StartsOrEnds(journal[k], id) && (IsUpdate(journal[k], id) ==> IsZero(journal[k], id))
    ensures AccountOf(journal[..b], id).Open? ==> !AccountOf(journal[..b], id).moving
  {
    assert journal[..b] == journal[..b - 1] + [journal[b - 1]];
    AccountAfter(journal[..b - 1], journal[b - 1], id);
    if b > a + 1 {
      StaysQuiet(journal, a, b - 1, id);
    }
  }

  /** Two zero deltas in one lifetime of a connection always have a non-zero one between them. */
  lemma ZeroUpdatesAreSeparated(steps: seq<Step>, a: nat, b: nat, id: Id)
    requires a < b < |After(steps).entries| && IsZero(After(steps).entries[a], id)
        && IsZero(After(steps).entries[b], id)
    requires forall k :: a < k < b ==> !StartsOrEnds(After(steps).entries[k], id)
    ensures var journal := After(steps).entries;
            exists k :: a < k < b && IsUpdate(journal[k], id) && !IsZero(journal[k], id)
  {
    EveryRunIsLawful(steps);
    hide After;
    var journal := After(steps).entries;
    LawfulPrefix(journal, b);
    if forall k :: a < k < b && IsUpdate(journal[k], id) ==> IsZero(journal[k], id) {
      StaysQuiet(journal, a, b, id);
      assert false;
    }
  }

  /** A delta reaches a client only while the last opening or closing event of its connection is an opening. */
  lemma UpdatesFollowNew(steps: seq<Step>, b: nat)
    requires b < |After(steps).entries| && IsUpdate(After(steps).entries[b], Subject(After(steps).entries[b]))
    ensures var journal := After(steps).entries;
            exists a: nat ::
              && a < b && StartsOrEnds(journal[a], Subject(journal[b])) && journal[a].message.New?
              && forall k :: a < k < b ==> !StartsOrEnds(journal[k], Subject(journal[b]))
  {
    EveryRunIsLawful(steps);
    hide After;
    var journal := After(steps).entries;
    LawfulPrefix(journal, b);
    OpenedSomewhere(journal, b, Subject(journal[b]));
  }

  lemma {:induction false} OpenedSomewhere(journal: seq<Entry>, b: nat, id: Id)
    requires b <= |journal| && AccountOf(journal[..b], id).Open?
    ensures exists a: nat ::
              && a < b && StartsOrEnds(journal[a], id) && journal[a].message.New?
              && forall k :: a < k < b ==> !StartsOrEnds(journal[k], id)
  {
    var e := journal[b - 1];
    assert journal[..b] == journal[..b - 1] + [e];
    AccountAfter(journal[..b - 1], e, id);
    if StartsOrEnds(e, id) {
      assert b - 1 < b && journal[b - 1].message.New?;
    } else {
      OpenedSomewhere(journal, b - 1, id);
      var a: nat :| a < b - 1 && StartsOrEnds(journal[a], id) && journal[a].message.New?
                    && forall k :: a < k < b - 1 ==> !StartsOrEnds(journal[k], id);
      assert forall k :: a < k < b ==> !StartsOrEnds(journal[k], id);
    }
  }

  /** The baseline a client's deltas count from: an announcement, or a counter found to have gone back. */
  predicate IsBaseline(e: Entry, id: Id, r: Reading) {
    e == Sent(New(id, r, None)) || e == Rebased(id, r)
  }

  function UpSum(entries: seq<Entry>, id: Id): int {
    if entries == [] then 0
    else UpSum(entries[1..], id) + if IsUpdate(entries[0], id) then entries[0].message.up else 0
  }

  function DownSum(entries: seq<Entry>, id: Id): int {
    if entries == [] then 0
    else DownSum(entries[1..], id) + if IsUpdate(entries[0], id) then entries[0].message.down else 0
  }

  lemma {:induction false} SumsAppend(entries: seq<Entry>, e: Entry, id: Id)
    ensures UpSum(entries + [e], id) == UpSum(entries, id) + if IsUpdate(e, id) then e.message.up else 0
    ensures DownSum(entries + [e], id) == DownSum(entries, id) + if IsUpdate(e, id) then e.message.down else 0
  {
    if entries == [] {
      assert [] + [e] == [e];
      assert [e][1..] == [];
    } else {
      assert (entries + [e])[1..] == entries[1..] + [e];
      SumsAppend(entries[1..], e, id);
    }
  }

  /** Entry `p` is the last baseline of `id`, and the deltas after it lead from it to the account's sums. */
  ghost predicate CountsFrom(journal: seq<Entry>, p: nat, id: Id, a: Account)
    requires a.Open? && p < |journal|
  {
    && IsBaseline(journal[p], id, a.base)
    && (forall k, r :: p < k < |journal| ==> !IsBaseline(journal[k], id, r))
    && UpSum(journal[p + 1..], id) == a.sumUp && DownSum(journal[p + 1..], id) == a.sumDown
  }

  lemma {:induction false} AccountCounts(journal: seq<Entry>, id: Id) returns (p: nat)
    requires AccountOf(journal, id).Open?
    ensures p < |journal| && CountsFrom(journal, p, id, AccountOf(journal, id))
  {
    var init, e := journal[..|journal| - 1], journal[|journal| - 1];
    var a := AccountOf(journal, id);
    if IsBaseline(e, id, a.base) {
      p := |journal| - 1;
      assert journal[p + 1..] == [];
    } else {
      p := AccountCounts(init, id);
      assert journal[p + 1..] == init[p + 1..] + [e];
      SumsAppend(init[p + 1..], e, id);
      forall k, r | p < k < |journal| ensures !IsBaseline(journal[k], id, r) {
        if k < |init| {
          assert journal[k] == init[k];
        }
      }
    }
  }

  // ----- the counters themselves -----

  /**
   What the readings of one connection amount to, told without snapshots or messages: the last
   reading, the baseline, which is the first reading or the last one below its predecessor, and
   how much was lost from view when readings went back.
   */
  datatype Watch =
    | Unwatched
    | Watching(last: Reading, base: Reading, lostUp: int, lostDown: int)

  predicate Below(r: Reading, s: Reading) {
    r.up < s.up || r.down < s.down
  }

  function Begin(r: Reading): Watch {
    Watching(r, r, 0, 0)
  }

  function Continue(w: Watch, r: Reading): Watch {
    if w.Unwatched? then Begin(r)
    else if Below(r, w.last) then Watching(r, r, w.lostUp + w.last.up - r.up, w.lostDown + w.last.down - r.down)
    else w.(last := r)
  }

  function WatchStep(w: Watch, step: Step, id: Id): Watch {
    match step
    case Announces(t) => if t.id == id then Begin(t.now) else w
    case Recalls(_, _, _) => w
    case Opens(t) => if t.id == id && w.Unwatched? then Begin(t.now) else w
    case Reads(t) => if t.id == id then Continue(w, t.now) else w
    case Ends(i, _) => if i == id then Unwatched else w
  }

  function Watched(steps: seq<Step>, id: Id): Watch {
    if steps == [] then Unwatched else WatchStep(Watched(steps[..|steps| - 1], id), steps[|steps| - 1], id)
  }

  /** The total a client shows: the one announced and every delta since. */
  datatype Total = Nothing | Total(up: int, down: int)

  function Show(total: Total, m: Message, id: Id): Total {
    match m
    case New(i, totals, closedAt) => if i == id && closedAt.None? then Total(totals.up, totals.down) else total
    case Update(i, up, down) => if i == id && total.Total? then Total(total.up + up, total.down + down) else total
    case Closed(i, _) => if i == id then Nothing else total
  }

  function TotalOf(messages: seq<Message>, id: Id): Total {
    if messages == [] then Nothing else Show(TotalOf(messages[..|messages| - 1], id), messages[|messages| - 1], id)
  }

  lemma TotalAfter(messages: seq<Message>, more: seq<Message>, id: Id)
    requires |more| <= 1
    ensures TotalOf(messages + more, id)
         == if more == [] then TotalOf(messages, id) else Show(TotalOf(messages, id), more[0], id)
  {
    if more == [] {
      assert messages + more == messages;
    } else {
      assert (messages + more)[..|messages|] == messages;
    }
  }

  /** Watching a connection, remembering it and showing it to the client come to the same. */
  predicate Balanced(w: Watch, snapshots: Snapshots, total: Total, id: Id) {
    if w.Unwatched? then id !in snapshots && total == Nothing
    else
      && id in snapshots && snapshots[id].seen == w.last
      && total == Total(w.last.up + w.lostUp, w.last.down + w.lostDown)
  }

  lemma StepKeepsBalance(w: Watch, snapshots: Snapshots, messages: seq<Message>, step: Step, id: Id)
    requires Balanced(w, snapshots, TotalOf(messages, id), id)
    ensures var v := Take(snapshots, step);
            Balanced(WatchStep(w, step, id), v.snapshots, TotalOf(messages + Messages(v.entries), id), id)
  {
    hide TotalOf, Messages;
    var v := Take(snapshots, step);
    if step.Reads? {
      MessagesOfVisit(snapshots, step.connection);
    } else if v.entries == [] {
      TakeNothing(snapshots);
    } else {
      OneMessage(v.entries[0].message);
    }
    TotalAfter(messages, Messages(v.entries), id);
  }

  lemma NothingYet(id: Id)
    ensures After([]) == Visited(map[], []) && AccountOf([], id) == NotOpen
    ensures Balanced(Unwatched, map[], TotalOf(Messages([]), id), id)
  {
  }

  /**
   Conservation, for every run and every connection: a snapshot is kept exactly while the connection
   is watched and holds its last reading, and the client's total is that reading plus exactly what
   was lost when readings went back.
   */
  lemma {:induction false} Conservation(steps: seq<Step>, id: Id)
    ensures Balanced(Watched(steps, id), After(steps).snapshots, TotalOf(Messages(After(steps).entries), id), id)
  {
    hide Take, Messages, WatchStep, Balanced;
    if steps == [] {
      NothingYet(id);
    } else {
      var init, last := steps[..|steps| - 1], steps[|steps| - 1];
      Conservation(init, id);
      StepKeepsBalance(Watched(init, id), After(init).snapshots, Messages(After(init).entries), last, id);
      assert steps == init + [last];
      TakeOneMore(map[], init, last);
    }
  }

  /** The reading of `id` a step takes note of. */
  function ReadingOf(step: Step, id: Id): Option<Reading> {
    if (step.Announces? || step.Opens? || step.Reads?) && step.connection.id == id then Some(step.connection.now)
    else None
  }

  /** The counters of `id` never go back from one reading to a later one. */
  ghost predicate NeverGoesBack(steps: seq<Step>, id: Id) {
    forall i, j :: 0 <= i < j < |steps| && ReadingOf(steps[i], id).Some? && ReadingOf(steps[j], id).Some? ==>
      !Below(ReadingOf(steps[j], id).value, ReadingOf(steps[i], id).value)
  }

  lemma {:induction false} NothingIsLost(steps: seq<Step>, id: Id)
    requires NeverGoesBack(steps, id) && Watched(steps, id).Watching?
    ensures Watched(steps, id).lostUp == 0 && Watched(steps, id).lostDown == 0
    ensures exists i :: 0 <= i < |steps| && ReadingOf(steps[i], id) == Some(Watched(steps, id).last)
  {
    var n := |steps| - 1;
    var init := steps[..n];
    assert forall i :: 0 <= i < n ==> steps[i] == init[i];
    if Watched(init, id).Watching? {
      NothingIsLost(init, id);
      var i :| 0 <= i < n && ReadingOf(init[i], id) == Some(Watched(init, id).last);
      assert ReadingOf(steps[i], id) == Some(Watched(init, id).last);
    }
    assert || ReadingOf(steps[n], id) == Some(Watched(steps, id).last)
           || (Watched(init, id).Watching? && Watched(steps, id).last == Watched(init, id).last);
  }

  /** While its counters never go back, the total a client shows for a connection is their last reading. */
  lemma ClientTotalIsExact(steps: seq<Step>, id: Id)
    requires NeverGoesBack(steps, id) && Watched(steps, id).Watching?
    ensures var last := Watched(steps, id).last;
            TotalOf(Messages(After(steps).entries), id) == Total(last.up, last.down)
  {
    Conservation(steps, id);
    NothingIsLost(steps, id);
  }

  /** A step moves the journal's baseline exactly as it moves that of the readings. */
  lemma StepKeepsBase(w: Watch, snapshots: Snapshots, journal: seq<Entry>, step: Step, id: Id)
    requires w.Watching? <==> id in snapshots
    requires w.Watching? ==> snapshots[id].seen == w.last
    requires w.Watching? <==> AccountOf(journal, id).Open?
    requires w.Watching? ==> AccountOf(journal, id).base == w.base
    ensures var after, a := WatchStep(w, step, id), AccountOf(journal + Take(snapshots, step).entries, id);
            (after.Watching? <==> a.Open?) && (after.Watching? ==> a.base == after.base)
  {
    hide AccountOf;
    var entries := Take(snapshots, step).entries;
    if entries == [] {
      assert journal + entries == journal;
    } else if |entries| == 1 {
      assert entries == [entries[0]];
      AccountAfter(journal, entries[0], id);
    } else {
      assert journal + entries == journal + [entries[0]] + [entries[1]];
      AccountAfter(journal, entries[0], id);
      AccountAfter(journal + [entries[0]], entries[1], id);
    }
  }

  lemma {:induction false} BaseIsRead(steps: seq<Step>, id: Id)
    ensures var w, a := Watched(steps, id), AccountOf(After(steps).entries, id);
            (w.Watching? <==> a.Open?) && (w.Watching? ==> a.base == w.base)
  {
    hide Take, WatchStep, AccountOf;
    if steps == [] {
      NothingYet(id);
    } else {
      var init, last := steps[..|steps| - 1], steps[|steps| - 1];
      BaseIsRead(init, id);
      Conservation(init, id);
      StepKeepsBase(Watched(init, id), After(init).snapshots, After(init).entries, last, id);
    }
  }

  /**
   For every run: the deltas sent since the baseline of a watched connection, its first reading or
   the last one below its predecessor, add up to the last reading minus that baseline.
   */
  lemma DeltasAddUp(steps: seq<Step>, id: Id) returns (p: nat)
    requires Watched(steps, id).Watching?
    ensures var journal, w := After(steps).entries, Watched(steps, id);
            && p < |journal| && IsBaseline(journal[p], id, w.base)
            && (forall k, r :: p < k < |journal| ==> !IsBaseline(journal[k], id, r))
            && UpSum(journal[p + 1..], id) == w.last.up - w.base.up
            && DownSum(journal[p + 1..], id) == w.last.down - w.base.down
  {
    EveryRunIsLawful(steps);
    BaseIsRead(steps, id);
    Conservation(steps, id);
    hide After, AccountOf, Watched;
    AccountAgrees(After(steps).entries, After(steps).snapshots, id);
    p := AccountCounts(After(steps).entries, id);
  }

  // ----- the subscription -----

  function Ids(active: seq<Tracked>): set<Id> {
    set t | t in active :: t.id
  }

  /** The closing time the manager remembers for a connection, the last entry counting, or else the present. */
  function ClosingTime(closed: seq<Tracked>, id: Id, now: Time): Time {
    if closed == [] then now
    else if closed[|closed| - 1].id == id then
      (if closed[|closed| - 1].closedAt.Some? then closed[|closed| - 1].closedAt.value else now)
    else ClosingTime(closed[..|closed| - 1], id, now)
  }

  /** `k` is the last entry of the connection in the list. */
  predicate LastEntry(closed: seq<Tracked>, id: Id, k: nat) {
    k < |closed| && closed[k].id == id && forall j :: k < j < |closed| ==> closed[j].id != id
  }

  /** The time is the one the last entry remembers, and the present without an entry or a time in it. */
  ghost predicate RightTime(closed: seq<Tracked>, id: Id, now: Time, at: Time) {
    && (forall k: nat :: LastEntry(closed, id, k) ==>
          at == if closed[k].closedAt.Some? then closed[k].closedAt.value else now)
    && ((forall t :: t in closed ==> t.id != id) ==> at == now)
  }

  lemma {:induction false} ClosingTimeIsRight(closed: seq<Tracked>, id: Id, now: Time)
    ensures RightTime(closed, id, now, ClosingTime(closed, id, now))
  {
    if closed != [] {
      var init, last := closed[..|closed| - 1], closed[|closed| - 1];
      ClosingTimeIsRight(init, id, now);
      assert closed == init + [last];
      forall k: nat | LastEntry(closed, id, k) && last.id != id ensures LastEntry(init, id, k) {
      }
    }
  }

  /** What is sent about a connection that vanished. */
  ghost predicate Farewell(message: Message, id: Id, closed: seq<Tracked>, now: Time) {
    message.Closed? && message.id == id && RightTime(closed, id, now, message.at)
  }

  function AnnounceAll(active: seq<Tracked>): seq<Step> {
    seq(|active|, i requires 0 <= i < |active| => Announces(active[i]))
  }

  function RecallAll(closed: seq<Tracked>): seq<Step>
    requires forall t :: t in closed ==> t.closedAt.Some?
  {
    seq(|closed|, i requires 0 <= i < |closed| => Recalls(closed[i].id, closed[i].now, closed[i].closedAt.value))
  }

  function ReadAll(active: seq<Tracked>): seq<Step> {
    seq(|active|, i requires 0 <= i < |active| => Reads(active[i]))
  }

  function EndAll(gone: seq<Id>, closed: seq<Tracked>, now: Time): seq<Step> {
    seq(|gone|, i requires 0 <= i < |gone| => Ends(gone[i], ClosingTime(closed, gone[i], now)))
  }

  /** What an event of the manager comes to; an ending has the best closing time there is. */
  function StepsOf(event: ManagerEvent, now: Time): seq<Step> {
    match event
    case Opened(t) => [Opens(t)]
    case Ended(id, closedAt, metadataClosedAt) =>
      var at := if closedAt.Some? then closedAt else metadataClosedAt;
      [Ends(id, if at.Some? then at.value else now)]
    case Other => []
  }

  lemma VisitAt(snapshots: Snapshots, t: Tracked, id: Id)
    ensures var after := Visit(snapshots, t).snapshots;
            && (id in after <==> id in snapshots || id == t.id)
            && (id == t.id ==> after[id].seen == t.now)
            && (id in after && id != t.id ==> after[id] == snapshots[id])
  {
  }

  /** A listed connection ends at a listed reading, an unlisted one is not touched. */
  lemma {:induction false} ReadAllAt(snapshots: Snapshots, active: seq<Tracked>, id: Id)
    ensures var after := TakeAll(snapshots, ReadAll(active)).snapshots;
            && (id in after <==> id in snapshots || id in Ids(active))
            && (id in Ids(active) ==> exists t :: t in active && t.id == id && after[id].seen == t.now)
            && (id in after && id !in Ids(active) ==> after[id] == snapshots[id])
  {
    hide TakeAll, Visit;
    if active == [] {
      TakeNothing(snapshots);
    } else {
      var init, last := active[..|active| - 1], active[|active| - 1];
      ReadAllAt(snapshots, init, id);
      assert active == init + [last] && ReadAll(active) == ReadAll(init) + [Reads(last)];
      TakeOneMore(snapshots, ReadAll(init), Reads(last));
      VisitAt(TakeAll(snapshots, ReadAll(init)).snapshots, last, id);
      assert Ids(active) == Ids(init) + {last.id};
    }
  }

  /** The state of one subscriber. Everything it is determined by is the steps so far. */
  class Subscription {
    var snapshots: Snapshots
    ghost var steps: seq<Step>

    ghost predicate Valid()
      reads this
    {
      snapshots == After(steps).snapshots
    }

    /** Everything sent so far. */
    ghost function Sendings(): seq<Message>
      reads this
    {
      Messages(After(steps).entries)
    }

    constructor ()
      ensures Valid() && snapshots == map[] && steps == []
    {
      snapshots, steps := map[], [];
    }

    /** The first message: every active connection, which is tracked from now on, and every closed one. */
    method BuildInitial(active: seq<Tracked>, closed: seq<Tracked>) returns (events: seq<Message>)
      requires Valid() && snapshots == map[]
      requires forall t :: t in closed ==> t.closedAt.Some?
      modifies this
      ensures Valid() && steps == old(steps) + AnnounceAll(active) + RecallAll(closed)
      ensures Sendings() == old(Sendings()) + events
      ensures |events| == |active| + |closed|
      ensures forall i :: 0 <= i < |active| ==> events[i] == New(active[i].id, active[i].now, None)
      ensures forall i :: 0 <= i < |closed| ==>
          events[|active| + i] == New(closed[i].id, closed[i].now, closed[i].closedAt)
      ensures snapshots.Keys == Ids(active)
      ensures forall id :: id in snapshots ==>
          exists t :: t in active && t.id == id && snapshots[id] == Snapshot(t.now, false)
    {
      events := AnnounceActive(active);
      var past := AnnounceClosed(closed);
      Associate(old(Sendings()), events, past);
      events := events + past;
    }

    method AnnounceActive(active: seq<Tracked>) returns (events: seq<Message>)
      requires Valid() && snapshots == map[]
      modifies this
      ensures Valid() && steps == old(steps) + AnnounceAll(active)
      ensures Sendings() == old(Sendings()) + events
      ensures |events| == |active|
      ensures forall i :: 0 <= i < |active| ==> events[i] == New(active[i].id, active[i].now, None)
      ensures snapshots.Keys == Ids(active)
      ensures forall id :: id in snapshots ==>
          exists t :: t in active && t.id == id && snapshots[id] == Snapshot(t.now, false)
    {
      hide Messages, TakeAll;
      events := [];
      for i := 0 to |active|
        invariant Valid() && steps == old(steps) + AnnounceAll(active[..i])
        invariant |events| == i && forall j :: 0 <= j < i ==> events[j] == New(active[j].id, active[j].now, None)
        invariant Sendings() == old(Sendings()) + events
        invariant snapshots.Keys == Ids(active[..i])
        invariant forall id :: id in snapshots ==>
            exists t :: t in active && t.id == id && snapshots[id] == Snapshot(t.now, false)
      {
        var t := active[i];
        assert active[..i + 1] == active[..i] + [t];
        assert AnnounceAll(active[..i + 1]) == AnnounceAll(active[..i]) + [Announces(t)];
        assert Ids(active[..i + 1]) == Ids(active[..i]) + {t.id};
        OneMessage(New(t.id, t.now, None));
        snapshots, events := snapshots[t.id := Snapshot(t.now, false)], events + [New(t.id, t.now, None)];
        Log(Announces(t));
      }
      assert active[..|active|] == active;
    }

    method AnnounceClosed(closed: seq<Tracked>) returns (events: seq<Message>)
      requires Valid()
      requires forall t :: t in closed ==> t.closedAt.Some?
      modifies `steps
      ensures Valid() && steps == old(steps) + RecallAll(closed)
      ensures Sendings() == old(Sendings()) + events
      ensures |events| == |closed|
      ensures forall i :: 0 <= i < |closed| ==> events[i] == New(closed[i].id, closed[i].now, closed[i].closedAt)
    {
      hide Messages, TakeAll;
      events := [];
      for i := 0 to |closed|
        invariant Valid() && steps == old(steps) + RecallAll(closed[..i])
        invariant |events| == i
        invariant forall j :: 0 <= j < i ==> events[j] == New(closed[j].id, closed[j].now, closed[j].closedAt)
        invariant Sendings() == old(Sendings()) + events
      {
        var t := closed[i];
        assert closed[..i + 1] == closed[..i] + [t];
        var step := Recalls(t.id, t.now, t.closedAt.value);
        assert RecallAll(closed[..i + 1]) == RecallAll(closed[..i]) + [step];
        OneMessage(New(t.id, t.now, t.closedAt));
        events := events + [New(t.id, t.now, t.closedAt)];
        Log(step);
      }
      assert closed[..|closed|] == closed;
    }

    /** Writes down the step just taken. */
    ghost method Log(step: Step)
      requires snapshots == Take(After(steps).snapshots, step).snapshots
      modifies `steps
      ensures Valid() && steps == old(steps) + [step]
      ensures Sendings() == old(Sendings()) + Messages(Take(old(After(steps).snapshots), step).entries)
    {
      TakeOneMore(map[], steps, step);
      steps := steps + [step];
    }

    /** One event of the connection manager; a closed connection is reported closed even when nobody opened it. */
    method ApplyEvent(event: ManagerEvent, now: Time) returns (message: Option<Message>)
      requires Valid()
      modifies this
      ensures Valid() && steps == old(steps) + StepsOf(event, now)
      ensures Sendings() == old(Sendings()) + if message.Some? then [message.value] else []
      ensures event.Opened? && event.connection.id !in old(snapshots) ==>
                && message == Some(New(event.connection.id, event.connection.now, None))
                && snapshots == old(snapshots)[event.connection.id := Snapshot(event.connection.now, false)]
      ensures event.Ended? ==>
                && snapshots == old(snapshots) - {event.id}
                && message == Some(Closed(event.id,
                     if event.closedAt.Some? then event.closedAt.value
                     else if event.metadataClosedAt.Some? then event.metadataClosedAt.value else now))
      ensures event.Other? || (event.Opened? && event.connection.id in old(snapshots)) ==>
                message == None && snapshots == old(snapshots)
    {
      hide Messages, TakeAll;
      message := None;
      match event {
        case Opened(t) =>
          if t.id !in snapshots {
            snapshots := snapshots[t.id := Snapshot(t.now, false)];
            message := Some(New(t.id, t.now, None));
            OneMessage(message.value);
          } else {
            TakeNothing(snapshots);
          }
          Log(Opens(t));
        case Ended(id, closedAt, metadataClosedAt) =>
          snapshots := snapshots - {id};
          var at := closedAt;
          if at.None? && metadataClosedAt.Some? {
            at := metadataClosedAt;
          }
          if at.None? {
            at := Some(now);
          }
          message := Some(Closed(id, at.value));
          OneMessage(message.value);
          Log(Ends(id, at.value));
        case Other =>
          assert steps + [] == steps && Sendings() + [] == Sendings();
      }
    }

    /** One listed connection, branch by branch. */
    method VisitOne(t: Tracked) returns (events: seq<Message>)
      requires Valid()
      modifies this
      ensures Valid() && steps == old(steps) + [Reads(t)]
      ensures snapshots == Visit(old(snapshots), t).snapshots
      ensures events == Messages(Visit(old(snapshots), t).entries)
      ensures Sendings() == old(Sendings()) + events
    {
      hide Messages, TakeAll;
      MessagesOfVisit(snapshots, t);
      events := [];
      if t.id !in snapshots {
        snapshots := snapshots[t.id := Snapshot(t.now, false)];
        events := [New(t.id, t.now, None)];
      } else {
        var snapshot := snapshots[t.id];
        var up, down := t.now.up - snapshot.seen.up, t.now.down - snapshot.seen.down;
        if up < 0 || down < 0 {
          if snapshot.hadTraffic {
            events := [Update(t.id, 0, 0)];
          }
          snapshots := snapshots[t.id := Snapshot(t.now, false)];
        } else if up > 0 || down > 0 {
          snapshots := snapshots[t.id := Snapshot(t.now, true)];
          events := [Update(t.id, up, down)];
        } else if snapshot.hadTraffic {
          snapshots := snapshots[t.id := Snapshot(t.now, false)];
          events := [Update(t.id, 0, 0)];
        }
      }
      Log(Reads(t));
    }

    /** The listed connections, one after the other: the first half of a tick. */
    method VisitActive(active: seq<Tracked>) returns (events: seq<Message>)
      requires Valid()
      modifies this
      ensures Valid() && steps == old(steps) + ReadAll(active)
      ensures snapshots == TakeAll(old(snapshots), ReadAll(active)).snapshots
      ensures Sendings() == old(Sendings()) + events
    {
      hide Messages, TakeAll, Visit;
      events := [];
      TakeNothing(snapshots);
      for i := 0 to |active|
        invariant Valid() && steps == old(steps) + ReadAll(active[..i])
        invariant snapshots == TakeAll(old(snapshots), ReadAll(active[..i])).snapshots
        invariant Sendings() == old(Sendings()) + events
      {
        assert active[..i + 1] == active[..i] + [active[i]];
        assert ReadAll(active[..i + 1]) == ReadAll(active[..i]) + [Reads(active[i])];
        TakeOneMore(old(snapshots), ReadAll(active[..i]), Reads(active[i]));
        var said := VisitOne(active[i]);
        events := events + said;
      }
      assert active[..|active|] == active;
    }

    /**
     A tick: deltas for the active connections, then a farewell to every tracked one that is no
     longer active, in some order. What is sent and remembered is determined by the steps.
     */
    method BuildTrafficUpdates(active: seq<Tracked>, closed: seq<Tracked>, now: Time)
      returns (events: seq<Message>, ghost gone: seq<Id>)
      requires Valid()
      modifies this
      ensures Valid() && steps == old(steps) + ReadAll(active) + EndAll(gone, closed, now)
      ensures Sendings() == old(Sendings()) + events
      ensures Distinct(gone) && (forall id :: id in gone <==> id in old(snapshots) && id !in Ids(active))
      ensures |events| >= |gone|
      ensures forall i :: 0 <= i < |gone| ==> Farewell(events[|events| - |gone| + i], gone[i], closed, now)
      ensures snapshots.Keys == Ids(active)
      ensures forall id :: id in snapshots ==> exists t :: t in active && t.id == id && snapshots[id].seen == t.now
    {
      hide Messages, TakeAll, Visit;
      events := VisitActive(active);
      forall id: Id
        ensures id in snapshots <==> id in old(snapshots) || id in Ids(active)
        ensures id in Ids(active) ==> exists t :: t in active && t.id == id && snapshots[id].seen == t.now
      {
        ReadAllAt(old(snapshots), active, id);
      }
      var farewells;
      farewells, gone := Sweep(snapshots.Keys - Ids(active), closed, now);
      Associate(old(Sendings()), events, farewells);
      events := events + farewells;
    }

    /** The closed connections by their ids. */
    method IndexClosed(closed: seq<Tracked>, ghost now: Time) returns (index: map<Id, Tracked>)
      ensures forall id :: ClosingTime(closed, id, now)
                        == if id in index && index[id].closedAt.Some? then index[id].closedAt.value else now
    {
      index := map[];
      for i := 0 to |closed|
        invariant forall id :: ClosingTime(closed[..i], id, now)
                            == if id in index && index[id].closedAt.Some? then index[id].closedAt.value else now
      {
        assert closed[..i + 1][..i] == closed[..i];
        index := index[closed[i].id := closed[i]];
      }
      assert closed[..|closed|] == closed;
    }

    /** The second half of a tick: forget `stale` connections, in whatever order the map yields them. */
    method Sweep(stale: set<Id>, closed: seq<Tracked>, now: Time) returns (events: seq<Message>, ghost gone: seq<Id>)
      requires Valid() && stale <= snapshots.Keys
      modifies this
      ensures Valid() && steps == old(steps) + EndAll(gone, closed, now)
      ensures Sendings() == old(Sendings()) + events
      ensures Distinct(gone) && forall id :: id in gone <==> id in stale
      ensures |events| == |gone| && forall i :: 0 <= i < |gone| ==> Farewell(events[i], gone[i], closed, now)
      ensures snapshots == old(snapshots) - stale
    {
      hide Messages, TakeAll, RightTime, ClosingTime;
      events, gone := [], [];
      var closedIndex := IndexClosed(closed, now);
      var left := stale;
      while left != {}
        invariant |events| == |gone| && forall i :: 0 <= i < |gone| ==> Farewell(events[i], gone[i], closed, now)
        invariant Valid() && steps == old(steps) + EndAll(gone, closed, now)
        invariant Sendings() == old(Sendings()) + events
        invariant Distinct(gone) && forall id :: id in gone <==> id in stale && id !in left
        invariant left <= stale && snapshots == old(snapshots) - (stale - left)
        decreases left
      {
        var id :| id in left;
        left := left - {id};
        var at := now;
        if id in closedIndex && closedIndex[id].closedAt.Some? {
          at := closedIndex[id].closedAt.value;
        }
        ClosingTimeIsRight(closed, id, now);
        OneMessage(Closed(id, at));
        events, snapshots := events + [Closed(id, at)], snapshots - {id};
        assert EndAll(gone + [id], closed, now) == EndAll(gone, closed, now) + [Ends(id, at)];
        gone := gone + [id];
        Log(Ends(id, at));
      }
    }
  }
}
