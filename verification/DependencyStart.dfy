/**
 The dependency-ordered start shared by the outbound manager and the DNS
 transport manager: rounds over the list that start whatever is ready, and,
 when a round starts nothing, a walk along unstarted dependencies that names
 a cycle or a missing node.
 */
module DependencyStart {
  import opened Sequences

  type Tag = string

  /** An outbound, endpoint or DNS transport. `id` stands for its identity as an object. */
  datatype Node = Node(id: nat, tag: Tag, dependencies: seq<Tag>)

  datatype Outcome =
    | Completed
    | StartFailed(node: Node)
    | Circular(path: seq<Tag>, again: Tag)
    | NotFound(dependency: Tag, dependent: Tag)
      // Every tag is started but the count is short: the code asks a nil node for its tag.
    | NilNode

  // ----- what a correct start is -----

  function Tags(nodes: seq<Node>): set<Tag> {
    set n | n in nodes :: n.tag
  }

  ghost predicate DistinctTags(nodes: seq<Node>) {
    forall i, j :: 0 <= i < j < |nodes| ==> nodes[i].tag != nodes[j].tag
  }

  /** Every node of the sequence comes after all its dependencies. */
  ghost predicate Ordered(order: seq<Node>) {
    order == [] ||
    var init := order[..|order| - 1];
    Ordered(init) && Ready(order[|order| - 1], Tags(init))
  }

  lemma {:induction false} OrderedAt(order: seq<Node>, i: nat)
    requires Ordered(order) && i < |order|
    ensures Ready(order[i], Tags(order[..i]))
  {
    if i < |order| - 1 {
      var init := order[..|order| - 1];
      OrderedAt(init, i);
      assert init[..i] == order[..i];
    }
  }

  ghost predicate Startable(nodes: seq<Node>) {
    exists order :: multiset(order) == multiset(nodes) && Ordered(order)
  }

  /** Every tag of the list has some node that can be started: what an order comes to when tags repeat. */
  ghost predicate TagsStartable(nodes: seq<Node>) {
    exists order :: Ordered(order) && Tags(order) == Tags(nodes) && forall n :: n in order ==> n in nodes
  }

  predicate Ready(n: Node, started: set<Tag>) {
    forall d | d in n.dependencies :: d in started
  }

  /** No node of the list can be started next. */
  ghost predicate Stuck(nodes: seq<Node>, started: set<Tag>) {
    forall n :: n in nodes && n.tag !in started ==> !Ready(n, started)
  }

  // ----- the walk that explains a stuck start -----

  /** The first unstarted dependency, or the zero value when there is none. */
  function FirstUnstarted(dependencies: seq<Tag>, started: set<Tag>): Tag {
    if dependencies == [] then ""
    else if dependencies[0] !in started then dependencies[0]
    else FirstUnstarted(dependencies[1..], started)
  }

  function Seen(path: seq<Tag>): set<Tag> {
    set t | t in path
  }

  /** Each step adds a known tag to the path, so the walk ends. */
  function Lint(byTag: map<Tag, Node>, started: set<Tag>, path: seq<Tag>, current: Node): Outcome
    decreases byTag.Keys - Seen(path)
  {
    var problem := FirstUnstarted(current.dependencies, started);
    if problem in path then Circular(path, problem)
    else if problem !in byTag then NotFound(problem, current.tag)
    else
      assert problem in byTag.Keys - Seen(path) && problem in Seen(path + [problem]);
      Lint(byTag, started, path + [problem], byTag[problem])
  }

  /** The tag map is a partial index of the list: outbounds without the endpoints, say. */
  ghost predicate Indexes(byTag: map<Tag, Node>, nodes: seq<Node>) {
    forall t :: t in byTag ==> byTag[t].tag == t && byTag[t] in nodes
  }

  /** `from` names a listed node that depends on `to`. */
  ghost predicate Edge(nodes: seq<Node>, from: Tag, to: Tag) {
    exists n :: n in nodes && n.tag == from && to in n.dependencies
  }

  /** A chain of dependency edges among listed nodes. */
  ghost predicate Chain(nodes: seq<Node>, path: seq<Tag>) {
    && |path| > 0
    && path[0] in Tags(nodes)
    && forall i :: 0 <= i < |path| - 1 ==> Edge(nodes, path[i], path[i + 1])
  }

  /** The explanation is borne out by the list: a closed cycle, or an edge to a tag the map lacks. */
  ghost predicate TrueExplanation(nodes: seq<Node>, byTag: map<Tag, Node>, started: set<Tag>, o: Outcome) {
    match o
    case Circular(path, again) =>
      && Chain(nodes, path) && again in path && Edge(nodes, path[|path| - 1], again)
      && forall t :: t in path ==> t !in started
    case NotFound(dependency, dependent) =>
      Edge(nodes, dependent, dependency) && dependency !in byTag && dependency !in started
    case _ => false
  }

  lemma {:induction false} FirstUnstartedFinds(dependencies: seq<Tag>, started: set<Tag>)
    requires exists d :: d in dependencies && d !in started
    ensures FirstUnstarted(dependencies, started) in dependencies
    ensures FirstUnstarted(dependencies, started) !in started
  {
    if dependencies[0] in started {
      FirstUnstartedFinds(dependencies[1..], started);
    }
  }

  lemma {:induction false} LintExplains(nodes: seq<Node>, byTag: map<Tag, Node>, started: set<Tag>, path: seq<Tag>,
      current: Node)
    requires Indexes(byTag, nodes) && Stuck(nodes, started)
    requires Chain(nodes, path) && current in nodes && current.tag == path[|path| - 1]
    requires forall t :: t in path ==> t !in started
    ensures TrueExplanation(nodes, byTag, started, Lint(byTag, started, path, current))
    decreases byTag.Keys - Seen(path)
  {
    FirstUnstartedFinds(current.dependencies, started);
    var problem := FirstUnstarted(current.dependencies, started);
    assert Edge(nodes, current.tag, problem);
    if problem !in path && problem in byTag {
      assert problem in byTag.Keys - Seen(path) && problem in Seen(path + [problem]);
      LintExplains(nodes, byTag, started, path + [problem], byTag[problem]);
    }
  }

  // ----- a reported explanation rules out every start order -----

  /** The place of the one node carrying tag `t`. */
  lemma PlaceOf(order: seq<Node>, t: Tag) returns (k: nat)
    requires t in Tags(order)
    ensures k < |order| && order[k].tag == t
  {
    var n :| n in order && n.tag == t;
    k :| 0 <= k < |order| && order[k] == n;
  }

  lemma EdgeGoesBack(nodes: seq<Node>, order: seq<Node>, i: nat, to: Tag)
    requires DistinctTags(nodes) && multiset(order) == multiset(nodes) && Ordered(order)
    requires i < |order| && Edge(nodes, order[i].tag, to)
    ensures exists j :: 0 <= j < i && order[j].tag == to
  {
    var n :| n in nodes && n.tag == order[i].tag && to in n.dependencies;
    assert order[i] in multiset(order);
    SameNode(nodes, n, order[i]);
    OrderedAt(order, i);
    var j := PlaceOf(order[..i], to);
  }

  lemma SameNode(nodes: seq<Node>, a: Node, b: Node)
    requires DistinctTags(nodes) && a in nodes && b in nodes && a.tag == b.tag
    ensures a == b
  {
    var i :| 0 <= i < |nodes| && nodes[i] == a;
    var j :| 0 <= j < |nodes| && nodes[j] == b;
  }

  /** Following a chain from its `i`-th tag on only moves to earlier places. */
  lemma {:induction false} ChainGoesBack(nodes: seq<Node>, order: seq<Node>, path: seq<Tag>, i: nat, k: nat)
      returns (last: nat)
    requires DistinctTags(nodes) && multiset(order) == multiset(nodes) && Ordered(order)
    requires Chain(nodes, path) && i < |path| && k < |order| && order[k].tag == path[i]
    ensures last <= k && order[last].tag == path[|path| - 1]
    decreases |path| - i
  {
    if i == |path| - 1 {
      last := k;
    } else {
      EdgeGoesBack(nodes, order, k, path[i + 1]);
      var j :| 0 <= j < k && order[j].tag == path[i + 1];
      last := ChainGoesBack(nodes, order, path, i + 1, j);
    }
  }

  lemma SamePlace(nodes: seq<Node>, order: seq<Node>, i: nat, j: nat)
    requires DistinctTags(nodes) && multiset(order) == multiset(nodes)
    requires i < |order| && j < |order| && order[i].tag == order[j].tag
    ensures i == j
  {
    SameTags(order, nodes);
    TagCount(nodes);
    TagCount(order);
    assert |order| == |multiset(order)| == |nodes|;
  }

  lemma {:induction false} Multiplicity(nodes: seq<Node>, n: Node)
    requires DistinctTags(nodes)
    ensures multiset(nodes)[n] <= 1
  {
    if nodes != [] {
      var init, last := nodes[..|nodes| - 1], nodes[|nodes| - 1];
      assert nodes == init + [last];
      Multiplicity(init, n);
      if n == last {
        assert n !in init;
      }
    }
  }

  /** A cycle, or an edge to a tag nobody carries, excludes every order: the error is never a false alarm. */
  lemma ExplanationExcludesStart(nodes: seq<Node>, byTag: map<Tag, Node>, started: set<Tag>, o: Outcome)
    requires DistinctTags(nodes) && TrueExplanation(nodes, byTag, started, o)
    requires byTag.Keys == Tags(nodes)
    ensures !Startable(nodes)
  {
    if Startable(nodes) {
      var order: seq<Node> :| multiset(order) == multiset(nodes) && Ordered(order);
      match o {
        case Circular(path, again) =>
          TargetPlaced(nodes, order, path[|path| - 1], again);
          var i :| 0 <= i < |path| && path[i] == again;
          var k := PlaceOf(order, again);
          var last := ChainGoesBack(nodes, order, path, i, k);
          EdgeGoesBack(nodes, order, last, again);
          var j :| 0 <= j < last && order[j].tag == again;
          SamePlace(nodes, order, j, k);
        case NotFound(dependency, dependent) =>
          TargetPlaced(nodes, order, dependent, dependency);
          SameTags(order, nodes);
      }
    }
  }

  lemma SameTags(a: seq<Node>, b: seq<Node>)
    requires multiset(a) == multiset(b)
    ensures Tags(a) == Tags(b)
  {
    assert forall n :: n in a <==> n in multiset(a);
    assert forall n :: n in b <==> n in multiset(b);
  }

  lemma TargetPlaced(nodes: seq<Node>, order: seq<Node>, from: Tag, to: Tag)
    requires DistinctTags(nodes) && multiset(order) == multiset(nodes) && Ordered(order) && Edge(nodes, from, to)
    ensures to in Tags(order)
  {
    var n :| n in nodes && n.tag == from && to in n.dependencies;
    assert n in multiset(nodes);
    var i :| 0 <= i < |order| && order[i] == n;
    EdgeGoesBack(nodes, order, i, to);
  }

  /** An endpoint is listed but not in the outbound map, so a start blocked behind it is explained wrongly. */
  lemma EndpointReportedMissing()
    ensures
      var outbound := Node(0, "a", ["e"]);
      var endpoint := Node(1, "e", ["e"]);
      var nodes, byTag := [outbound, endpoint], map["a" := outbound];
      && Indexes(byTag, nodes) && Stuck(nodes, {})
      && Lint(byTag, {}, ["a"], outbound) == NotFound("e", "a") && "e" in Tags(nodes)
  {
    var outbound, endpoint := Node(0, "a", ["e"]), Node(1, "e", ["e"]);
    var nodes := [outbound, endpoint];
    assert nodes[1].tag == "e";
    assert "e" in outbound.dependencies && "e" in endpoint.dependencies;
    assert FirstUnstarted(["e"], {}) == "e";
  }

  // ----- counting -----

  lemma {:induction false} TagCount(nodes: seq<Node>)
    ensures |Tags(nodes)| <= |nodes|
    ensures |Tags(nodes)| == |nodes| <==> DistinctTags(nodes)
  {
    if nodes == [] {
    } else {
      var init, last := nodes[..|nodes| - 1], nodes[|nodes| - 1];
      TagCount(init);
      assert nodes == init + [last];
      assert Tags(nodes) == Tags(init) + {last.tag};
      if last.tag in Tags(init) {
        assert Tags(nodes) == Tags(init);
        var k := PlaceOf(init, last.tag);
        assert nodes[k].tag == nodes[|nodes| - 1].tag;
      }
    }
  }

  lemma {:induction false} DistinctSubsequenceIsWhole(calls: seq<Node>, nodes: seq<Node>)
    requires DistinctTags(calls) && (forall n :: n in calls ==> n in nodes) && |calls| == |nodes|
    ensures multiset(calls) == multiset(nodes)
  {
    forall n ensures multiset(calls)[n] <= multiset(nodes)[n] {
      Multiplicity(calls, n);
      if n in multiset(calls) {
        assert n in calls && n in nodes;
      }
    }
    assert multiset(calls) <= multiset(nodes);
    var rest := multiset(nodes) - multiset(calls);
    assert multiset(nodes) == multiset(calls) + rest;
    assert |rest| == 0;
  }

  /** With a start order for the tags available, a round that starts nothing has nothing left to start. */
  lemma {:induction false} NotStuckBeforeTheEnd(nodes: seq<Node>, order: seq<Node>, started: set<Tag>, k: nat)
    requires Ordered(order) && (forall n :: n in order ==> n in nodes) && Stuck(nodes, started) && k <= |order|
    ensures Tags(order[..k]) <= started
  {
    if k > 0 {
      NotStuckBeforeTheEnd(nodes, order, started, k - 1);
      assert order[..k] == order[..k - 1] + [order[k - 1]];
      OrderedAt(order, k - 1);
    }
  }

  lemma StuckMeansDoneOrImpossible(nodes: seq<Node>, started: set<Tag>)
    requires Stuck(nodes, started) && TagsStartable(nodes)
    ensures Tags(nodes) <= started
  {
    var order: seq<Node> :| Ordered(order) && Tags(order) == Tags(nodes) && forall n :: n in order ==> n in nodes;
    NotStuckBeforeTheEnd(nodes, order, started, |order|);
    assert order[..|order|] == order;
  }

  /** Where tags are distinct, starting every tag is starting every node. */
  lemma StartableTags(nodes: seq<Node>)
    ensures Startable(nodes) ==> TagsStartable(nodes)
  {
    if Startable(nodes) {
      var order: seq<Node> :| multiset(order) == multiset(nodes) && Ordered(order);
      SameTags(order, nodes);
      forall n | n in order ensures n in nodes {
        assert n in multiset(order);
      }
    }
  }

  lemma NoTags()
    ensures Tags([]) == {} && forall n :: Tags([n]) == {n.tag}
  {
  }

  lemma TagsAppend(a: seq<Node>, b: seq<Node>)
    ensures Tags(a + b) == Tags(a) + Tags(b)
  {
    assert forall n :: n in a + b <==> n in a || n in b;
  }

  // ----- the algorithm -----

  /** What the calls made so far look like. */
  ghost predicate Progress(nodes: seq<Node>, calls: seq<Node>, started: set<Tag>) {
    && started == Tags(calls) && |started| == |calls|
    && DistinctTags(calls) && Ordered(calls)
    && forall n :: n in calls ==> n in nodes
  }

  lemma ProgressStep(nodes: seq<Node>, calls: seq<Node>, started: set<Tag>, n: Node)
    requires Progress(nodes, calls, started) && n in nodes && n.tag !in started && Ready(n, started)
    ensures Progress(nodes, calls + [n], started + {n.tag})
  {
    hide Ready, Tags;
    var after := calls + [n];
    TagsAppend(calls, [n]);
    NoTags();
    assert after[..|calls|] == calls && after[|calls|] == n;
    forall i | 0 <= i < |calls| ensures calls[i].tag != n.tag {
      TagOfMember(calls, i);
    }
  }

  lemma TagOfMember(nodes: seq<Node>, i: nat)
    requires i < |nodes|
    ensures nodes[i].tag in Tags(nodes)
  {
  }

  lemma FinishedProgress(nodes: seq<Node>, calls: seq<Node>, started: set<Tag>)
    requires Progress(nodes, calls, started) && |started| == |nodes|
    ensures DistinctTags(nodes) && multiset(calls) == multiset(nodes) && Startable(nodes) && started == Tags(nodes)
  {
    TagCount(nodes);
    assert started <= Tags(nodes);
    var rest := Tags(nodes) - started;
    assert Tags(nodes) == started + rest;
    assert |Tags(nodes)| == |started| + |rest|;
    DistinctSubsequenceIsWhole(calls, nodes);
    assert multiset(calls) == multiset(nodes) && Ordered(calls);
  }

  // ----- which starts are called -----

  /** The nodes one pass starts from place `i` on, when every start succeeds. */
  function Pass(nodes: seq<Node>, i: nat, started: set<Tag>): seq<Node>
    decreases |nodes| - i
  {
    if i >= |nodes| then []
    else if nodes[i].tag !in started && Ready(nodes[i], started) then
      [nodes[i]] + Pass(nodes, i + 1, started + {nodes[i].tag})
    else Pass(nodes, i + 1, started)
  }

  lemma {:induction false} PassStarts(nodes: seq<Node>, i: nat, started: set<Tag>)
    ensures forall n :: n in Pass(nodes, i, started) ==> n in nodes && n.tag !in started
    ensures Pass(nodes, i, started) == [] <==>
        forall j: nat :: i <= j < |nodes| && nodes[j].tag !in started ==> !Ready(nodes[j], started)
    decreases |nodes| - i
  {
    if i < |nodes| {
      if nodes[i].tag !in started && Ready(nodes[i], started) {
        PassStarts(nodes, i + 1, started + {nodes[i].tag});
      } else {
        PassStarts(nodes, i + 1, started);
      }
    }
  }

  /** The nodes all rounds start, when every start succeeds. */
  function Schedule(nodes: seq<Node>, started: set<Tag>): seq<Node>
    decreases Tags(nodes) - started
  {
    var pass := Pass(nodes, 0, started);
    PassStarts(nodes, 0, started);
    if pass == [] then []
    else
      assert pass[0] in nodes && pass[0].tag in Tags(nodes) - started;
      pass + Schedule(nodes, started + Tags(pass))
  }

  /** Starts are called up to and including the first that fails. */
  function Attempted(schedule: seq<Node>, starts: Node -> bool): seq<Node>
    decreases schedule
  {
    if schedule == [] then []
    else if starts(schedule[0]) then [schedule[0]] + Attempted(schedule[1..], starts)
    else [schedule[0]]
  }

  ghost predicate AllStart(schedule: seq<Node>, starts: Node -> bool) {
    forall n :: n in schedule ==> starts(n)
  }

  /** Without a failure everything is called; with one, the calls end at it, and it is the only one. */
  lemma {:induction false} AttemptedCalls(schedule: seq<Node>, starts: Node -> bool)
    ensures var calls := Attempted(schedule, starts);
            && calls <= schedule
            && (AllStart(schedule, starts) <==> AllStart(calls, starts))
            && (AllStart(schedule, starts) ==> calls == schedule)
            && (!AllStart(schedule, starts) ==> calls != [] && forall i :: 0 <= i < |calls| ==>
                (starts(calls[i]) <==> i != |calls| - 1))
    decreases schedule
  {
    if schedule != [] {
      AttemptedCalls(schedule[1..], starts);
      assert schedule == [schedule[0]] + schedule[1..];
    }
  }

  lemma {:induction false} AttemptedAppend(a: seq<Node>, b: seq<Node>, starts: Node -> bool)
    ensures Attempted(a + b, starts) == if AllStart(a, starts) then a + Attempted(b, starts) else Attempted(a, starts)
    decreases a
  {
    if a == [] {
      assert a + b == b;
    } else {
      var rest := a[1..];
      assert a == [a[0]] + rest && (a + b)[0] == a[0] && (a + b)[1..] == rest + b;
      assert AllStart(a, starts) <==> starts(a[0]) && AllStart(rest, starts);
      if starts(a[0]) {
        AttemptedAppend(rest, b, starts);
        Associate([a[0]], rest, Attempted(b, starts));
      }
    }
  }

  lemma {:induction false} PassProgress(nodes: seq<Node>, calls: seq<Node>, started: set<Tag>, i: nat)
    requires Progress(nodes, calls, started)
    ensures var pass := Pass(nodes, i, started); Progress(nodes, calls + pass, started + Tags(pass))
    decreases |nodes| - i
  {
    hide Progress, Tags, Ready;
    NoTags();
    if i >= |nodes| {
      assert calls + [] == calls && started + {} == started;
    } else if nodes[i].tag !in started && Ready(nodes[i], started) {
      var n := nodes[i];
      var rest := Pass(nodes, i + 1, started + {n.tag});
      ProgressStep(nodes, calls, started, n);
      PassProgress(nodes, calls + [n], started + {n.tag}, i + 1);
      TagsAppend([n], rest);
      Associate(calls, [n], rest);
      assert started + {n.tag} + Tags(rest) == started + ({n.tag} + Tags(rest));
    } else {
      PassProgress(nodes, calls, started, i + 1);
    }
  }

  /** Playing on from any point reaches the same end, where nothing that is left can be started. */
  lemma {:induction false} ScheduleEnds(nodes: seq<Node>, calls: seq<Node>, started: set<Tag>)
    requires Progress(nodes, calls, started)
    ensures var rest := Schedule(nodes, started);
            && Progress(nodes, calls + rest, started + Tags(rest))
            && Stuck(nodes, started + Tags(rest))
    decreases Tags(nodes) - started
  {
    hide Progress, Stuck, Tags, Pass;
    NoTags();
    var pass := Pass(nodes, 0, started);
    PassStarts(nodes, 0, started);
    ScheduleUnfolds(nodes, started);
    PassProgress(nodes, calls, started, 0);
    if pass == [] {
      NothingReady(nodes, started);
      assert calls + [] == calls && started + {} == started;
    } else {
      var rest := Schedule(nodes, started + Tags(pass));
      hide Schedule;
      ScheduleEnds(nodes, calls + pass, started + Tags(pass));
      TagsAppend(pass, rest);
      Associate(calls, pass, rest);
      assert started + Tags(pass) + Tags(rest) == started + (Tags(pass) + Tags(rest));
    }
  }

  lemma NothingReady(nodes: seq<Node>, started: set<Tag>)
    requires forall j: nat :: j < |nodes| && nodes[j].tag !in started ==> !Ready(nodes[j], started)
    ensures Stuck(nodes, started)
  {
  }

  lemma ScheduleProgress(nodes: seq<Node>)
    ensures var schedule := Schedule(nodes, {});
            Progress(nodes, schedule, Tags(schedule)) && Stuck(nodes, Tags(schedule))
  {
    var schedule := Schedule(nodes, {});
    NoTags();
    assert [] + schedule == schedule && {} + Tags(schedule) == Tags(schedule);
    ScheduleEnds(nodes, [], {});
  }

  lemma TagsComplete(nodes: seq<Node>, schedule: seq<Node>)
    requires Progress(nodes, schedule, Tags(schedule)) && Stuck(nodes, Tags(schedule))
    ensures Tags(schedule) <= Tags(nodes)
    ensures Tags(schedule) == Tags(nodes) <==> TagsStartable(nodes)
  {
    if TagsStartable(nodes) {
      StuckMeansDoneOrImpossible(nodes, Tags(schedule));
    }
  }

  /**
   What the rounds would start is all there is to start: every tag if that is possible, every node if tags are
   distinct too.
   */
  lemma ScheduleIsComplete(nodes: seq<Node>)
    ensures var schedule := Schedule(nodes, {});
            && Progress(nodes, schedule, Tags(schedule)) && Stuck(nodes, Tags(schedule))
            && (Tags(schedule) == Tags(nodes) <==> TagsStartable(nodes))
            && (DistinctTags(nodes) ==> (TagsStartable(nodes) <==> Startable(nodes)))
            && (|schedule| == |nodes| <==> DistinctTags(nodes) && Startable(nodes))
            && (|schedule| == |nodes| ==> multiset(schedule) == multiset(nodes))
  {
    hide Schedule, Stuck, Startable, TagsStartable;
    var schedule := Schedule(nodes, {});
    ScheduleProgress(nodes);
    TagsComplete(nodes, schedule);
    StartableTags(nodes);
    TagCount(nodes);
    ScheduledCount(nodes, schedule);
    if |schedule| == |nodes| || (DistinctTags(nodes) && Tags(schedule) == Tags(nodes)) {
      FinishedProgress(nodes, schedule, Tags(schedule));
    }
  }

  lemma ScheduledCount(nodes: seq<Node>, schedule: seq<Node>)
    requires Progress(nodes, schedule, Tags(schedule))
    ensures |Tags(schedule)| == |schedule|
  {
  }

  lemma ScheduleUnfolds(nodes: seq<Node>, started: set<Tag>)
    ensures var pass := Pass(nodes, 0, started);
            && (pass == [] ==> Schedule(nodes, started) == [])
            && (pass != [] ==>
                  && Tags(nodes) - (started + Tags(pass)) < Tags(nodes) - started
                  && started + Tags(pass) != started
                  && Schedule(nodes, started) == pass + Schedule(nodes, started + Tags(pass)))
  {
    var pass := Pass(nodes, 0, started);
    PassStarts(nodes, 0, started);
    if pass != [] {
      assert pass[0] in pass && pass[0].tag in Tags(pass) && pass[0].tag !in started;
      assert pass[0].tag in Tags(nodes) - started;
    }
  }

  /** The explanation for a round that started nothing, beginning at the first unstarted node. */
  method Explain(nodes: seq<Node>, byTag: map<Tag, Node>, started: set<Tag>) returns (outcome: Outcome)
    requires Stuck(nodes, started)
    ensures outcome == NilNode <==> Tags(nodes) <= started
    ensures outcome != NilNode ==> outcome.Circular? || outcome.NotFound?
    ensures outcome != NilNode && Indexes(byTag, nodes) ==> TrueExplanation(nodes, byTag, started, outcome)
  {
    for i := 0 to |nodes|
      invariant forall j :: 0 <= j < i ==> nodes[j].tag in started
    {
      var current := nodes[i];
      if current.tag !in started {
        LintOutcome(byTag, started, [current.tag], current);
        if Indexes(byTag, nodes) {
          LintExplains(nodes, byTag, started, [current.tag], current);
        }
        return Lint(byTag, started, [current.tag], current);
      }
    }
    return NilNode;
  }

  lemma {:induction false} LintOutcome(byTag: map<Tag, Node>, started: set<Tag>, path: seq<Tag>, current: Node)
    ensures Lint(byTag, started, path, current).Circular? || Lint(byTag, started, path, current).NotFound?
    decreases byTag.Keys - Seen(path)
  {
    var problem := FirstUnstarted(current.dependencies, started);
    if problem !in path && problem in byTag {
      assert problem in byTag.Keys - Seen(path) && problem in Seen(path + [problem]);
      LintOutcome(byTag, started, path + [problem], byTag[problem]);
    }
  }

  /** One pass over the list, starting whatever is ready, stopping at a failed start. */
  method Round(nodes: seq<Node>, calls0: seq<Node>, started0: set<Tag>, starts: Node -> bool)
    returns (calls: seq<Node>, started: set<Tag>, failed: bool)
    ensures var pass := Pass(nodes, 0, started0);
            && (failed <==> !AllStart(pass, starts))
            && calls == calls0 + Attempted(pass, starts)
            && (!failed ==> started == started0 + Tags(pass))
  {
    hide Ready;
    calls, started, failed := calls0, started0, false;
    ghost var pass := Pass(nodes, 0, started0);
    ghost var done: seq<Node> := [];
    assert calls0 + [] == calls0 && [] + pass == pass;
    for i := 0 to |nodes|
      invariant done + Pass(nodes, i, started) == pass
      invariant AllStart(done, starts)
      invariant calls == calls0 + done && started == started0 + Tags(done)
    {
      var n := nodes[i];
      if n.tag !in started && Ready(n, started) {
        ghost var rest := Pass(nodes, i + 1, started + {n.tag});
        assert done + ([n] + rest) == done + [n] + rest;
        TagsAppend(done, [n]);
        started, calls := started + {n.tag}, calls + [n];
        if !starts(n) {
          AttemptedAppend(done, [n] + rest, starts);
          AttemptedCalls([n] + rest, starts);
          assert pass[|done|] == n && calls == calls0 + (done + [n]);
          return calls, started, true;
        }
        done := done + [n];
      }
    }
    assert done + [] == done;
    AttemptedCalls(pass, starts);
  }

  /**
   `starts` says whether a node's own start succeeds. `calls` is the sequence of start calls
   made: the scheduled ones up to the first failure. The start completes exactly when tags are
   distinct, an order exists and no start fails, and then every node is called once, after all
   its dependencies. When a tag repeats, every tag can be started and no start fails, the code
   runs into a nil node; otherwise an error explains why nothing more can be started.
   */
  method StartAll(nodes: seq<Node>, byTag: map<Tag, Node>, starts: Node -> bool)
    returns (outcome: Outcome, calls: seq<Node>)
    ensures calls == Attempted(Schedule(nodes, {}), starts)
    ensures DistinctTags(calls) && Ordered(calls) && forall n :: n in calls ==> n in nodes
    ensures outcome == Completed <==> DistinctTags(nodes) && Startable(nodes) && forall n :: n in nodes ==> starts(n)
    ensures outcome == Completed ==> multiset(calls) == multiset(nodes)
    ensures outcome.StartFailed? <==> !AllStart(Schedule(nodes, {}), starts)
    ensures outcome.StartFailed? ==>
              && |calls| > 0 && calls[|calls| - 1] == outcome.node
              && forall i :: 0 <= i < |calls| ==> (starts(calls[i]) <==> i != |calls| - 1)
    ensures outcome == NilNode <==>
              !DistinctTags(nodes) && TagsStartable(nodes) && AllStart(Schedule(nodes, {}), starts)
    ensures outcome.Circular? || outcome.NotFound? <==> !TagsStartable(nodes) && AllStart(Schedule(nodes, {}), starts)
    ensures outcome.Circular? || outcome.NotFound? || outcome.NilNode? ==> Stuck(nodes, Tags(calls))
    ensures (outcome.Circular? || outcome.NotFound?) && Indexes(byTag, nodes) ==>
              TrueExplanation(nodes, byTag, Tags(calls), outcome)
  {
    ghost var schedule := Schedule(nodes, {});
    ScheduleIsComplete(nodes);
    hide Schedule, TagsStartable, Startable, Stuck, Progress, Attempted;
    outcome, calls := RunRounds(nodes, byTag, starts);
    AttemptedCalls(schedule, starts);
    CallsAreProgress(nodes, schedule, calls);
    if DistinctTags(nodes) && Startable(nodes) {
      SameStarts(nodes, schedule, starts);
    }
  }

  lemma SameStarts(nodes: seq<Node>, schedule: seq<Node>, starts: Node -> bool)
    requires multiset(schedule) == multiset(nodes)
    ensures AllStart(schedule, starts) <==> forall n :: n in nodes ==> starts(n)
  {
    assert forall n :: n in nodes <==> n in multiset(schedule);
    assert forall n :: n in schedule <==> n in multiset(nodes);
  }

  /** What was called is a beginning of the schedule, so it is ordered and without repetition too. */
  lemma {:induction false} CallsAreProgress(nodes: seq<Node>, schedule: seq<Node>, calls: seq<Node>)
    requires Progress(nodes, schedule, Tags(schedule)) && calls <= schedule
    ensures DistinctTags(calls) && Ordered(calls) && forall n :: n in calls ==> n in nodes
    decreases |schedule|
  {
    if |calls| < |schedule| {
      var init := schedule[..|schedule| - 1];
      TagCount(init);
      CallsAreProgress(nodes, init, calls);
    } else {
      assert calls == schedule;
    }
  }

  /** The rounds themselves, told in terms of the schedule. */
  method RunRounds(nodes: seq<Node>, byTag: map<Tag, Node>, starts: Node -> bool)
    returns (outcome: Outcome, calls: seq<Node>)
    ensures var schedule := Schedule(nodes, {});
            && calls == Attempted(schedule, starts)
            && (!AllStart(schedule, starts) ==> calls != [] && outcome == StartFailed(calls[|calls| - 1]))
            && (AllStart(schedule, starts) ==>
                  && !outcome.StartFailed?
                  && (outcome == Completed <==> |schedule| == |nodes|)
                  && (outcome == NilNode <==> |schedule| != |nodes| && Tags(schedule) == Tags(nodes))
                  && (outcome.Circular? || outcome.NotFound? ==>
                        Indexes(byTag, nodes) ==> TrueExplanation(nodes, byTag, Tags(schedule), outcome)))
  {
    hide *;
    ghost var schedule := Schedule(nodes, {});
    ScheduleIsComplete(nodes);
    AttemptedCalls(schedule, starts);
    var started: set<Tag> := {};
    calls := [];
    NoTags();
    NoneFails(starts);
    assert [] + schedule == schedule;
    while true
      invariant calls + Schedule(nodes, started) == schedule
      invariant AllStart(calls, starts) && started == Tags(calls)
      decreases Tags(nodes) - started
    {
      RoundStep(nodes, calls, started, schedule, starts);
      var after, failed;
      calls, after, failed := Round(nodes, calls, started, starts);
      if failed {
        return StartFailed(calls[|calls| - 1]), calls;
      }
      if |after| == |nodes| {
        WholeSchedule(nodes, calls, schedule);
        return Completed, calls;
      }
      if after == started {
        ScheduledCount(nodes, schedule);
        outcome := Explain(nodes, byTag, started);
        TagsComplete(nodes, schedule);
        return outcome, calls;
      }
      started := after;
    }
  }

  lemma NoneFails(starts: Node -> bool)
    ensures AllStart([], starts)
  {
  }

  /** What one round does to the calls made and those still scheduled. */
  lemma RoundStep(nodes: seq<Node>, before: seq<Node>, started: set<Tag>, schedule: seq<Node>, starts: Node -> bool)
    requires before + Schedule(nodes, started) == schedule && AllStart(before, starts) && started == Tags(before)
    ensures var pass := Pass(nodes, 0, started);
            && (!AllStart(pass, starts) ==>
                  && before + Attempted(pass, starts) == Attempted(schedule, starts) && !AllStart(schedule, starts)
                  && Attempted(pass, starts) != [])
            && (AllStart(pass, starts) ==>
                  && Attempted(pass, starts) == pass && AllStart(before + pass, starts)
                  && started + Tags(pass) == Tags(before + pass)
                  && before + pass + Schedule(nodes, started + Tags(pass)) == schedule)
            && (started + Tags(pass) == started ==> pass == [] && before + pass == schedule)
            && (started + Tags(pass) != started ==> Tags(nodes) - (started + Tags(pass)) < Tags(nodes) - started)
  {
    hide Pass, Tags, Attempted;
    var pass := Pass(nodes, 0, started);
    NoTags();
    ScheduleUnfolds(nodes, started);
    TagsAppend(before, pass);
    AttemptedCalls(pass, starts);
    if pass == [] {
      hide Schedule;
      assert before + [] == before && started + {} == started;
    } else {
      var rest := Schedule(nodes, started + Tags(pass));
      hide Schedule;
      Associate(before, pass, rest);
      AttemptedAppend(before, pass + rest, starts);
      AttemptedAppend(pass, rest, starts);
      AttemptedCalls(schedule, starts);
    }
  }

  /** When as many tags are started as there are nodes, nothing of the schedule is left. */
  lemma WholeSchedule(nodes: seq<Node>, calls: seq<Node>, schedule: seq<Node>)
    requires Progress(nodes, schedule, Tags(schedule)) && calls <= schedule && |Tags(calls)| == |nodes|
    ensures calls == schedule && |schedule| == |nodes|
  {
    TagCount(calls);
    TagCount(nodes);
    assert Tags(schedule) <= Tags(nodes);
    SubsetCount(Tags(schedule), Tags(nodes));
  }

  lemma SubsetCount(a: set<Tag>, b: set<Tag>)
    requires a <= b
    ensures |a| <= |b|
  {
    assert b == a + (b - a);
  }
}
