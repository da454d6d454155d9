/**
 The outbound registry: an ordered list, an index by tag and a reverse
 dependency index, kept in step by Create, Start, Remove and Close.
 */
module OutboundManager {
  import opened DependencyStart
  import opened Sequences
  import opened Wrappers

  type Edges = map<Tag, seq<Tag>>

  datatype ManagerError =
    | InvalidTag
    | CreateFailed
    | StageFailed
    | CloseFailed
    | StillNeeded(dependents: seq<Tag>)

  datatype StartResult =
    | AlreadyStarted            // the code panics
    | DefaultNotFound
    | FallbackFailed
    | Stopped(outcome: Outcome) // what the dependency-ordered start returned
    | StageDone
    | StageError(node: Node)

  /** StartStateStart, the stage that runs the dependency-ordered start. */
  const START_STAGE: nat := 1

  // ----- the reverse dependency index -----

  function DependedBy(edges: Edges, d: Tag): seq<Tag> {
    if d in edges then edges[d] else []
  }

  function AddEdges(edges: Edges, tag: Tag, dependencies: seq<Tag>): Edges
    decreases dependencies
  {
    if dependencies == [] then edges
    else
      var d := dependencies[0];
      AddEdges(edges[d := DependedBy(edges, d) + [tag]], tag, dependencies[1..])
  }

  function Without(tags: seq<Tag>, tag: Tag): seq<Tag> {
    if tags == [] then []
    else (if tags[0] == tag then [] else [tags[0]]) + Without(tags[1..], tag)
  }

  function DropEdge(edges: Edges, tag: Tag, d: Tag): Edges {
    if |DependedBy(edges, d)| == 1 then edges - {d}
    else edges[d := Without(DependedBy(edges, d), tag)]
  }

  function DropEdges(edges: Edges, tag: Tag, dependencies: seq<Tag>): Edges
    decreases dependencies
  {
    if dependencies == [] then edges
    else DropEdges(DropEdge(edges, tag, dependencies[0]), tag, dependencies[1..])
  }

  /** The tags of the listed nodes that depend on `d`, in list order. */
  function Dependents(nodes: seq<Node>, d: Tag): seq<Tag> {
    if nodes == [] then []
    else (if d in nodes[0].dependencies then [nodes[0].tag] else []) + Dependents(nodes[1..], d)
  }

  /** The index is exactly the reverse of the dependency relation of the list. */
  ghost predicate Exact(edges: Edges, nodes: seq<Node>) {
    forall d :: DependedBy(edges, d) == Dependents(nodes, d)
  }

  /** How often `d` is listed. */
  function Count(tags: seq<Tag>, d: Tag): nat {
    if tags == [] then 0 else (if tags[0] == d then 1 else 0) + Count(tags[1..], d)
  }

  function Times(tag: Tag, n: nat): seq<Tag> {
    seq(n, _ => tag)
  }

  lemma {:induction false} CountMembers(tags: seq<Tag>, d: Tag)
    ensures Count(tags, d) > 0 <==> d in tags
  {
    if tags != [] {
      CountMembers(tags[1..], d);
      assert tags == [tags[0]] + tags[1..];
    }
  }

  /** Listed without repetition is listed at most once each. */
  lemma {:induction false} DistinctCounts(tags: seq<Tag>)
    ensures Distinct(tags) <==> forall d :: Count(tags, d) <= 1
  {
    if tags != [] {
      var rest := tags[1..];
      DistinctCounts(rest);
      CountMembers(rest, tags[0]);
      assert forall i :: 0 < i < |tags| ==> tags[i] == rest[i - 1];
      if !Distinct(rest) {
        var d :| Count(rest, d) > 1;
        assert Count(tags, d) > 1;
      } else if tags[0] in rest {
        assert Count(tags, tags[0]) > 1;
      } else {
        forall d ensures Count(tags, d) <= 1 {
          assert Count(rest, d) <= 1;
        }
      }
    }
  }

  /** Registering adds the tag to the dependents of each dependency as often as it is listed. */
  lemma {:induction false} AddEdgesAt(edges: Edges, tag: Tag, dependencies: seq<Tag>, d: Tag)
    ensures DependedBy(AddEdges(edges, tag, dependencies), d)
        == DependedBy(edges, d) + Times(tag, Count(dependencies, d))
    decreases dependencies
  {
    if dependencies == [] {
      assert DependedBy(edges, d) + Times(tag, 0) == DependedBy(edges, d);
    } else {
      var e := dependencies[0];
      var next := edges[e := DependedBy(edges, e) + [tag]];
      AddEdgesAt(next, tag, dependencies[1..], d);
      assert d != e ==> DependedBy(next, d) == DependedBy(edges, d);
    }
  }

  /**
   The `dependents` of a tag after an owner listing it `n` times was removed: a single dependent goes whoever
   it is.
   */
  function Dropped(dependents: seq<Tag>, tag: Tag, n: nat): seq<Tag> {
    if n == 0 then dependents
    else
      var once := if |dependents| == 1 then [] else Without(dependents, tag);
      if n > 1 && |once| == 1 then [] else once
  }

  lemma {:induction false} DropEdgesAt(edges: Edges, tag: Tag, dependencies: seq<Tag>, d: Tag)
    ensures DependedBy(DropEdges(edges, tag, dependencies), d)
        == Dropped(DependedBy(edges, d), tag, Count(dependencies, d))
    decreases dependencies
  {
    if dependencies != [] {
      var e := dependencies[0];
      var next := DropEdge(edges, tag, e);
      DropEdgesAt(next, tag, dependencies[1..], d);
      if d == e {
        WithoutKeepsNone(DependedBy(edges, d), tag);
        WithoutKeepsNone(DependedBy(next, d), tag);
        assert DependedBy(next, d) == if |DependedBy(edges, d)| == 1 then [] else Without(DependedBy(edges, d), tag);
      } else {
        assert DependedBy(next, d) == DependedBy(edges, d);
      }
    }
  }

  lemma {:induction false} WithoutOthers(tags: seq<Tag>, tag: Tag, other: Tag)
    requires other != tag
    ensures other in Without(tags, tag) <==> other in tags
  {
    if tags != [] {
      WithoutOthers(tags[1..], tag, other);
      assert tags == [tags[0]] + tags[1..];
    }
  }

  /**
   Removing an outbound takes the edge of another dependent with it exactly when that dependent is
   alone: left over when a dependency is listed more than once, or the only one to begin with.
   */
  lemma EdgeLost(edges: Edges, tag: Tag, dependencies: seq<Tag>, d: Tag, other: Tag)
    requires other != tag && other in DependedBy(edges, d)
    ensures other !in DependedBy(DropEdges(edges, tag, dependencies), d) <==>
              && d in dependencies
              && (|DependedBy(edges, d)| == 1
                  || (Count(dependencies, d) > 1 && |Without(DependedBy(edges, d), tag)| == 1))
  {
    DropEdgesAt(edges, tag, dependencies, d);
    CountMembers(dependencies, d);
    WithoutOthers(DependedBy(edges, d), tag, other);
  }

  lemma {:induction false} DependentsAppend(a: seq<Node>, b: seq<Node>, d: Tag)
    ensures Dependents(a + b, d) == Dependents(a, d) + Dependents(b, d)
  {
    if a == [] {
      assert a + b == b;
    } else {
      assert (a + b)[1..] == a[1..] + b;
      DependentsAppend(a[1..], b, d);
    }
  }

  /** The list without its first occurrence of `n`. */
  function Unlisted(nodes: seq<Node>, n: Node): seq<Node> {
    if nodes == [] then []
    else if nodes[0] == n then nodes[1..]
    else [nodes[0]] + Unlisted(nodes[1..], n)
  }

  lemma {:induction false} UnlistedAt(nodes: seq<Node>, k: nat)
    requires k < |nodes| && nodes[k] !in nodes[..k]
    ensures Unlisted(nodes, nodes[k]) == nodes[..k] + nodes[k + 1..]
  {
    if k > 0 {
      assert nodes[..k][0] == nodes[0];
      assert nodes[1..][..k - 1] == nodes[..k][1..];
      UnlistedAt(nodes[1..], k - 1);
      assert nodes[..k] + nodes[k + 1..] == [nodes[0]] + (nodes[1..][..k - 1] + nodes[1..][k..]);
    }
  }

  lemma {:induction false} UnlistedMembers(nodes: seq<Node>, n: Node)
    requires DistinctTags(nodes) && n in nodes
    ensures DistinctTags(Unlisted(nodes, n))
    ensures forall m :: m in Unlisted(nodes, n) <==> m in nodes && m != n
    ensures |Unlisted(nodes, n)| == |nodes| - 1
  {
    if nodes[0] == n {
      assert forall m :: m in nodes <==> m == n || m in nodes[1..];
    } else {
      UnlistedMembers(nodes[1..], n);
      var rest := Unlisted(nodes[1..], n);
      assert forall m :: m in nodes <==> m == nodes[0] || m in nodes[1..];
      forall i | 0 <= i < |rest| ensures rest[i].tag != nodes[0].tag {
        assert rest[i] in nodes[1..];
      }
    }
  }

  /** Unlisting a node removes exactly its own tag from every dependents list. */
  lemma {:induction false} DependentsUnlisted(nodes: seq<Node>, n: Node, d: Tag)
    requires DistinctTags(nodes) && n in nodes
    ensures Dependents(Unlisted(nodes, n), d) == Without(Dependents(nodes, d), n.tag)
    ensures d in n.dependencies <==> n.tag in Dependents(nodes, d)
  {
    var rest := nodes[1..];
    if nodes[0] == n {
      DependentsOfOthers(rest, d, n.tag);
      WithoutKeepsNone(Dependents(rest, d), n.tag);
      if d in n.dependencies {
        assert Dependents(nodes, d)[1..] == Dependents(rest, d);
        assert [] + Without(Dependents(rest, d), n.tag) == Dependents(rest, d);
      } else {
        assert [] + Dependents(rest, d) == Dependents(rest, d);
      }
    } else {
      DependentsUnlisted(rest, n, d);
      if d in nodes[0].dependencies {
        assert Dependents(nodes, d)[1..] == Dependents(rest, d);
      } else {
        assert Dependents(nodes, d) == Dependents(rest, d);
      }
      var left := Unlisted(nodes, n);
      assert left[0] == nodes[0] && left[1..] == Unlisted(rest, n);
    }
  }

  lemma {:induction false} DependentsOfOthers(nodes: seq<Node>, d: Tag, tag: Tag)
    requires forall m :: m in nodes ==> m.tag != tag
    ensures tag !in Dependents(nodes, d)
  {
    if nodes != [] {
      DependentsOfOthers(nodes[1..], d, tag);
    }
  }

  lemma {:induction false} WithoutKeepsNone(tags: seq<Tag>, tag: Tag)
    ensures tag !in Without(tags, tag)
    ensures |Without(tags, tag)| <= |tags|
    ensures Without(tags, tag) == tags <==> tag !in tags
    ensures tag in tags ==> |Without(tags, tag)| < |tags|
  {
    if tags != [] {
      WithoutKeepsNone(tags[1..], tag);
      if tags[0] != tag {
        assert Without(tags, tag)[1..] == Without(tags[1..], tag);
      }
    }
  }

  /** A dependency listed twice makes the removal of its owner drop somebody else's edge. */
  lemma RepeatedDependencyLosesEdge()
    ensures
      var edges := AddEdges(AddEdges(map[], "x", ["d"]), "y", ["d", "d"]);
      && DependedBy(edges, "d") == ["x", "y", "y"]
      && DependedBy(DropEdges(edges, "y", ["d", "d"]), "d") == []
  {
    var one, two, three := map["d" := ["x"]], map["d" := ["x", "y"]], map["d" := ["x", "y", "y"]];
    var none: Edges := map[];
    assert DependedBy(none, "d") + ["x"] == ["x"] && none["d" := ["x"]] == one;
    assert DependedBy(one, "d") + ["y"] == ["x", "y"] && one["d" := ["x", "y"]] == two;
    assert DependedBy(two, "d") + ["y"] == ["x", "y", "y"] && two["d" := ["x", "y", "y"]] == three;
    assert AddEdges(none, "x", ["d"]) == AddEdges(one, "x", []);
    assert ["d", "d"][1..] == ["d"];
    assert AddEdges(one, "y", ["d", "d"]) == AddEdges(two, "y", ["d"]) == AddEdges(three, "y", []);
    assert Without(["x", "y", "y"], "y") == ["x"] by {
      assert ["x", "y", "y"][1..] == ["y", "y"];
      assert ["y", "y"][1..] == ["y"];
      assert Without(["y"], "y") == [];
    }
    assert DropEdge(three, "y", "d") == one;
    assert DropEdges(three, "y", ["d", "d"]) == DropEdges(one, "y", ["d"]) == DropEdges(one - {"d"}, "y", []);
  }

  // ----- list and map -----

  /** List and map hold the same nodes, and no two share a tag. */
  ghost predicate InStep(nodes: seq<Node>, byTag: map<Tag, Node>) {
    && DistinctTags(nodes) && Indexes(byTag, nodes)
    && forall n :: n in nodes ==> n.tag in byTag && byTag[n.tag] == n
  }

  lemma InStepRemove(nodes: seq<Node>, byTag: map<Tag, Node>, n: Node)
    requires InStep(nodes, byTag) && n in nodes
    ensures InStep(Unlisted(nodes, n), byTag - {n.tag})
  {
    UnlistedMembers(nodes, n);
    forall m | m in Unlisted(nodes, n) ensures m.tag != n.tag {
      if m.tag == n.tag {
        SameNode(nodes, m, n);
      }
    }
  }

  lemma InStepAppend(nodes: seq<Node>, byTag: map<Tag, Node>, n: Node)
    requires InStep(nodes, byTag) && n.tag !in byTag
    ensures InStep(nodes + [n], byTag[n.tag := n])
  {
    assert (nodes + [n])[|nodes|] == n;
    forall i | 0 <= i < |nodes| ensures nodes[i].tag != n.tag {
      assert nodes[i] in nodes;
    }
  }

  method IndexOf(nodes: seq<Node>, n: Node) returns (k: nat)
    requires n in nodes
    ensures k < |nodes| && nodes[k] == n && n !in nodes[..k]
  {
    ghost var place :| 0 <= place < |nodes| && nodes[place] == n;
    k := 0;
    while nodes[k] != n
      invariant k <= place && n !in nodes[..k]
      decreases place - k
    {
      assert nodes[..k + 1] == nodes[..k] + [nodes[k]];
      k := k + 1;
    }
  }

  lemma ReplaceEntry(byTag: map<Tag, Node>, n: Node)
    ensures (byTag - {n.tag})[n.tag := n] == byTag[n.tag := n]
  {
  }

  /** The first endpoint carrying `tag`. */
  method FindEndpoint(endpoints: seq<Node>, tag: Tag) returns (found: Option<Node>)
    ensures found.None? <==> tag !in Tags(endpoints)
    ensures found.Some? ==> found.value in endpoints && found.value.tag == tag
  {
    for i := 0 to |endpoints|
      invariant forall j :: 0 <= j < i ==> endpoints[j].tag != tag
    {
      if endpoints[i].tag == tag {
        return Some(endpoints[i]);
      }
    }
    return None;
  }

  /** The list once the outbound registered under `tag`, if any, is taken out. */
  function WithoutTag(nodes: seq<Node>, byTag: map<Tag, Node>, tag: Tag): seq<Node> {
    if tag in byTag then Unlisted(nodes, byTag[tag]) else nodes
  }

  /**
   The dependency an error calls not found is a listed tag exactly when an endpoint has it, and then some node
   depends on an endpoint.
   */
  ghost predicate NamesAnEndpointOrNothing(list: seq<Node>, endpoints: seq<Node>, o: Outcome)
    requires o.NotFound?
  {
    && (o.dependency in Tags(list) <==> o.dependency in Tags(endpoints))
    && ((forall n :: n in list ==> forall d :: d in n.dependencies ==> d !in Tags(endpoints)) ==>
        o.dependency !in Tags(list))
  }

  lemma StillIndexed(nodes: seq<Node>, endpoints: seq<Node>, byTag: map<Tag, Node>)
    requires InStep(nodes, byTag)
    ensures Indexes(byTag, nodes + endpoints)
  {
  }

  lemma MissingOrEndpoint(nodes: seq<Node>, endpoints: seq<Node>, byTag: map<Tag, Node>, started: set<Tag>, o: Outcome)
    requires InStep(nodes, byTag) && o.NotFound? && TrueExplanation(nodes + endpoints, byTag, started, o)
    ensures NamesAnEndpointOrNothing(nodes + endpoints, endpoints, o)
  {
    TagsAppend(nodes, endpoints);
    assert o.dependency !in Tags(nodes);
  }

  /**
   What becomes of the default: kept if there is one, or an endpoint under the configured tag, or else the
   fallback.
   */
  ghost predicate Settled(
    tag: Tag, before: Option<Node>, endpoints: seq<Node>, fallback: Result<Node, ManagerError>, after: Option<Node>)
  {
    if before.Some? then after == before
    else if tag == "" then after == if fallback.Ok? then Some(fallback.value) else None
    else if tag in Tags(endpoints) then after.Some? && after.value in endpoints && after.value.tag == tag
    else after == None
  }

  /** Every outbound of the list is called, in order, up to and including the first that fails. */
  ghost predicate StageRun(list: seq<Node>, starts: Node -> bool, r: StartResult, calls: seq<Node>) {
    && (r == StageDone <==> forall n :: n in list ==> starts(n))
    && (r == StageDone ==> calls == list)
    && (r != StageDone ==>
          && r.StageError? && calls != [] && calls <= list && calls[|calls| - 1] == r.node
          && forall i :: 0 <= i < |calls| ==> (starts(calls[i]) <==> i != |calls| - 1))
  }

  /** How the start stage ends for this list, of which the map knows all but the endpoints. */
  ghost predicate StartRun(
    list: seq<Node>, endpoints: seq<Node>, byTag: map<Tag, Node>, starts: Node -> bool, o: Outcome, calls: seq<Node>)
  {
    && calls == Attempted(Schedule(list, {}), starts)
    && (o == Completed <==> DistinctTags(list) && Startable(list) && forall n :: n in list ==> starts(n))
    && (o == Completed ==> multiset(calls) == multiset(list) && Ordered(calls))
    && (o == NilNode <==> !DistinctTags(list) && TagsStartable(list) && AllStart(Schedule(list, {}), starts))
    && (o.StartFailed? <==> !AllStart(Schedule(list, {}), starts))
    && (o.Circular? || o.NotFound? ==>
          !TagsStartable(list) && Stuck(list, Tags(calls)) && TrueExplanation(list, byTag, Tags(calls), o))
    && (o.NotFound? ==> NamesAnEndpointOrNothing(list, endpoints, o))
  }

  /** The books of the manager: list, map and reverse index. */
  datatype Registry = Registry(outbounds: seq<Node>, byTag: map<Tag, Node>, edges: Edges)

  datatype Step =
    | Registers(n: Node)
    | Removes(tag: Tag)      // refused or not
    | FallsBack(n: Node)     // only when nothing is listed

  /** What a registration, a removal and a fallback make of the books. */
  function Next(r: Registry, step: Step): Registry {
    match step
    case Registers(n) =>
      Registry(WithoutTag(r.outbounds, r.byTag, n.tag) + [n], r.byTag[n.tag := n],
        AddEdges(r.edges, n.tag, n.dependencies))
    case Removes(tag) =>
      if tag !in r.byTag then r
      else
        var gone := r.byTag[tag];
        Registry(Unlisted(r.outbounds, gone), r.byTag - {tag},
          if DependedBy(r.edges, tag) != [] then r.edges else DropEdges(r.edges, gone.tag, gone.dependencies))
    case FallsBack(n) =>
      if r.outbounds != [] then r else r.(outbounds := [n], byTag := r.byTag[n.tag := n])
  }

  class Manager {
    const defaultTag: Tag
    var started: bool
    var stage: nat
    var outbounds: seq<Node>
    var outboundByTag: map<Tag, Node>
    var dependByTag: Edges
    var defaultOutbound: Option<Node>

    /** What holds from creation until Close. */
    ghost predicate Valid()
      reads this
    {
      && InStep(outbounds, outboundByTag)
      && (defaultTag == "" && defaultOutbound.None? ==> outbounds == [])
    }

    ghost function Books(): Registry
      reads this
    {
      Registry(outbounds, outboundByTag, dependByTag)
    }

    ghost predicate EdgesExact()
      reads this
    {
      Exact(dependByTag, outbounds)
    }

    constructor (defaultTag: Tag)
      ensures Valid() && Books() == Registry([], map[], map[]) && EdgesExact() && defaultOutbound == None && !started
      ensures this.defaultTag == defaultTag
    {
      this.defaultTag := defaultTag;
      started, stage := false, 0;
      outbounds, outboundByTag, dependByTag, defaultOutbound := [], map[], map[], None;
    }

    method Unlist(tag: Tag)
      requires InStep(outbounds, outboundByTag)
      modifies this`outbounds, this`outboundByTag
      ensures InStep(outbounds, outboundByTag)
      ensures outbounds == WithoutTag(old(outbounds), old(outboundByTag), tag)
      ensures outboundByTag == old(outboundByTag) - {tag}
    {
      if tag in outboundByTag {
        var n := outboundByTag[tag];
        InStepRemove(outbounds, outboundByTag, n);
        var index := IndexOf(outbounds, n);
        UnlistedAt(outbounds, index);
        outbounds, outboundByTag := outbounds[..index] + outbounds[index + 1..], outboundByTag - {tag};
      }
    }

    method Enlist(n: Node)
      requires InStep(outbounds, outboundByTag) && n.tag !in outboundByTag
      modifies this`outbounds, this`outboundByTag
      ensures InStep(outbounds, outboundByTag)
      ensures outbounds == old(outbounds) + [n]
      ensures outboundByTag == old(outboundByTag)[n.tag := n]
    {
      InStepAppend(outbounds, outboundByTag, n);
      outbounds, outboundByTag := outbounds + [n], outboundByTag[n.tag := n];
    }

    method AddDependencies(n: Node)
      modifies this`dependByTag
      ensures dependByTag == AddEdges(old(dependByTag), n.tag, n.dependencies)
    {
      for i := 0 to |n.dependencies|
        invariant AddEdges(dependByTag, n.tag, n.dependencies[i..]) == AddEdges(old(dependByTag), n.tag, n.dependencies)
      {
        var d := n.dependencies[i];
        assert n.dependencies[i..][1..] == n.dependencies[i + 1..];
        dependByTag := dependByTag[d := DependedBy(dependByTag, d) + [n.tag]];
      }
    }

    method DropDependencies(n: Node)
      modifies this`dependByTag
      ensures dependByTag == DropEdges(old(dependByTag), n.tag, n.dependencies)
    {
      for i := 0 to |n.dependencies|
        invariant DropEdges(dependByTag, n.tag, n.dependencies[i..])
            == DropEdges(old(dependByTag), n.tag, n.dependencies)
      {
        var d := n.dependencies[i];
        assert n.dependencies[i..][1..] == n.dependencies[i + 1..];
        if |DependedBy(dependByTag, d)| == 1 {
          dependByTag := dependByTag - {d};
        } else {
          dependByTag := dependByTag[d := Without(DependedBy(dependByTag, d), n.tag)];
        }
      }
    }

    /**
     `made` is what the registry builds for `tag`; `staged` and `closes` say whether starting
     it late and closing a replaced outbound succeed. The reverse index stays exact unless a
     dependency is listed twice, which is counted twice, or an outbound that had dependencies is
     replaced, whose edges are never taken out.
     */
    method Create(tag: Tag, made: Result<Node, ManagerError>, staged: bool, closes: bool)
      returns (r: Result<Node, ManagerError>)
      requires Valid() && (made.Ok? ==> made.value.tag == tag)
      modifies this`outbounds, this`outboundByTag, this`dependByTag, this`defaultOutbound
      ensures Valid()
      ensures r.Ok? <==> tag != "" && made.Ok? && (started ==> staged && (tag in old(outboundByTag) ==> closes))
      ensures r.Err? ==>
                && outbounds == old(outbounds) && outboundByTag == old(outboundByTag)
                && dependByTag == old(dependByTag) && defaultOutbound == old(defaultOutbound)
      ensures Books() == if r.Ok? then Next(old(Books()), Registers(made.value)) else old(Books())
      ensures r.Ok? ==>
                && r.value == made.value
                && outboundByTag == old(outboundByTag)[tag := made.value]
                && outbounds == WithoutTag(old(outbounds), old(outboundByTag), tag) + [made.value]
                && defaultOutbound == (if tag == defaultTag || (defaultTag == "" && old(defaultOutbound).None?)
                                       then Some(made.value) else old(defaultOutbound))
      ensures r.Ok? && old(EdgesExact()) ==>
                (EdgesExact() <==>
                  && Distinct(made.value.dependencies)
                  && (tag !in old(outboundByTag) || old(outboundByTag)[tag].dependencies == []))
    {
      if tag == "" {
        return Err(InvalidTag);
      }
      if made.Err? {
        return Err(CreateFailed);
      }
      if started && !staged {
        return Err(StageFailed);
      }
      if started && !closes && tag in outboundByTag {
        return Err(CloseFailed);
      }
      Register(made.value);
      return made;
    }

    /** The registration itself, which replaces an outbound of the same tag. */
    method Register(n: Node)
      requires Valid()
      modifies this`outbounds, this`outboundByTag, this`dependByTag, this`defaultOutbound
      ensures Valid() && Books() == Next(old(Books()), Registers(n))
      ensures outboundByTag == old(outboundByTag)[n.tag := n]
      ensures outbounds == WithoutTag(old(outbounds), old(outboundByTag), n.tag) + [n]
      ensures defaultOutbound == if n.tag == defaultTag || (defaultTag == "" && old(defaultOutbound).None?)
                                 then Some(n) else old(defaultOutbound)
      ensures old(EdgesExact()) ==>
                (EdgesExact() <==>
                  && Distinct(n.dependencies)
                  && (n.tag !in old(outboundByTag) || old(outboundByTag)[n.tag].dependencies == []))
    {
      hide AddEdges, Exact, Unlisted, Distinct, InStep, WithoutTag;
      ghost var edges, nodes, byTag := dependByTag, outbounds, outboundByTag;
      ReplaceEntry(byTag, n);
      Unlist(n.tag);
      Enlist(n);
      AddDependencies(n);
      CreatedEdges(edges, nodes, byTag, n, dependByTag, outbounds);
      if n.tag == defaultTag || (defaultTag == "" && defaultOutbound.None?) {
        defaultOutbound := Some(n);
      }
    }

    /**
     A removal refused because of dependents has already unlisted the outbound, but not
     its edges: the reverse index stays exact just when it had none, or nobody depended on it
     and it did not list a dependency twice that one other outbound has.
     */
    method Remove(tag: Tag, closes: bool) returns (r: Result<Option<Node>, ManagerError>)
      requires Valid()
      modifies this`outbounds, this`outboundByTag, this`dependByTag, this`defaultOutbound
      ensures Valid() && Books() == Next(old(Books()), Removes(tag))
      ensures tag !in old(outboundByTag) ==>
                && r == Err(InvalidTag) && outbounds == old(outbounds) && outboundByTag == old(outboundByTag)
                && dependByTag == old(dependByTag) && defaultOutbound == old(defaultOutbound)
      ensures tag in old(outboundByTag) ==>
                var gone, needed := old(outboundByTag)[tag], DependedBy(old(dependByTag), tag);
                && outboundByTag == old(outboundByTag) - {tag}
                && outbounds == Unlisted(old(outbounds), gone)
                && defaultOutbound == (if old(defaultOutbound) != Some(gone) then old(defaultOutbound)
                                       else if outbounds == [] then None else Some(outbounds[0]))
                && r == (if needed != [] then Err(StillNeeded(needed))
                         else if !started then Ok(None)
                         else if closes then Ok(Some(gone)) else Err(CloseFailed))
                && (old(EdgesExact()) ==>
                    (EdgesExact() <==>
                      || gone.dependencies == []
                      || (needed == [] && KeepsOthers(gone.dependencies, outbounds))))
    {
      if tag !in outboundByTag {
        return Err(InvalidTag);
      }
      var outbound, needed := outboundByTag[tag], DependedBy(dependByTag, tag);
      ghost var edges, nodes := dependByTag, outbounds;
      Unregister(tag);
      RemovedEdges(edges, nodes, outbound, outbounds);
      if |needed| > 0 {
        return Err(StillNeeded(needed));
      }
      DropDependencies(outbound);
      r := if !started then Ok(None) else if closes then Ok(Some(outbound)) else Err(CloseFailed);
    }

    /** The first half of a removal: list, map and default, but no edges. */
    method Unregister(tag: Tag)
      requires Valid() && tag in outboundByTag
      modifies this`outbounds, this`outboundByTag, this`defaultOutbound
      ensures Valid()
      ensures outboundByTag == old(outboundByTag) - {tag}
      ensures outbounds == Unlisted(old(outbounds), old(outboundByTag)[tag])
      ensures defaultOutbound == if old(defaultOutbound) != Some(old(outboundByTag)[tag]) then old(defaultOutbound)
                                 else if outbounds == [] then None else Some(outbounds[0])
    {
      var outbound := outboundByTag[tag];
      UnlistedMembers(outbounds, outbound);
      Unlist(tag);
      if defaultOutbound == Some(outbound) {
        defaultOutbound := if |outbounds| > 0 then Some(outbounds[0]) else None;
      }
    }

    /** The fallback is needed: there is no outbound, and no default is configured. */
    ghost predicate NeedsFallback()
      reads this
    {
      defaultTag == "" && defaultOutbound.None?
    }

    /** A default exists, or will: a configured endpoint, or else the fallback. */
    ghost predicate DefaultInReach(endpoints: seq<Node>, fallback: Result<Node, ManagerError>)
      reads this
    {
      defaultOutbound.Some? || if defaultTag != "" then defaultTag in Tags(endpoints) else fallback.Ok?
    }

    /**
     Settles the default: an endpoint under the configured tag, or else the fallback, which bypasses the
     reverse index.
     */
    method SettleDefault(endpoints: seq<Node>, fallback: Result<Node, ManagerError>)
        returns (failure: Option<StartResult>)
      requires Valid()
      modifies this`outbounds, this`outboundByTag, this`defaultOutbound
      ensures Valid()
      ensures failure == (if old(DefaultInReach(endpoints, fallback)) then None
                          else if defaultTag != "" then Some(DefaultNotFound) else Some(FallbackFailed))
      ensures Settled(defaultTag, old(defaultOutbound), endpoints, fallback, defaultOutbound)
      ensures old(NeedsFallback()) && fallback.Ok? ==>
                && old(outbounds) == [] && outbounds == [fallback.value]
                && outboundByTag == old(outboundByTag)[fallback.value.tag := fallback.value]
      ensures !(old(NeedsFallback()) && fallback.Ok?) ==>
                outbounds == old(outbounds) && outboundByTag == old(outboundByTag)
      ensures Books() == if old(NeedsFallback()) && fallback.Ok? then Next(old(Books()), FallsBack(fallback.value))
                         else old(Books())
      ensures old(EdgesExact()) ==>
                (EdgesExact() <==> !(old(NeedsFallback()) && fallback.Ok?) || fallback.value.dependencies == [])
    {
      hide AddEdges, DropEdges, Unlisted, Dependents;
      if defaultTag != "" && defaultOutbound.None? {
        defaultOutbound := FindEndpoint(endpoints, defaultTag);
        if defaultOutbound.None? {
          return Some(DefaultNotFound);
        }
      }
      if defaultOutbound.None? {
        if fallback.Err? {
          return Some(FallbackFailed);
        }
        if Exact(dependByTag, outbounds) {
          FallbackEdges(dependByTag, fallback.value);
        }
        outbounds := outbounds + [fallback.value];
        outboundByTag := outboundByTag[fallback.value.tag := fallback.value];
        defaultOutbound := Some(fallback.value);
      }
      return None;
    }

    /** Runs one of the other stages over the list, in order, up to the first failure. */
    method RunStage(starts: Node -> bool) returns (r: StartResult, calls: seq<Node>)
      ensures StageRun(outbounds, starts, r, calls)
    {
      calls := [];
      for i := 0 to |outbounds|
        invariant calls == outbounds[..i]
        invariant forall j :: 0 <= j < i ==> starts(outbounds[j])
      {
        calls := calls + [outbounds[i]];
        if !starts(outbounds[i]) {
          return StageError(outbounds[i]), calls;
        }
      }
      return StageDone, calls;
    }

    /** The list the start stage starts. */
    ghost function ToStart(endpoints: seq<Node>, fallback: Result<Node, ManagerError>): seq<Node>
      reads this
    {
      (if NeedsFallback() && fallback.Ok? then [fallback.value] else outbounds) + endpoints
    }

    /**
     `endpoints` is the endpoint manager's list, `fallback` what the fallback constructor
     returns, `starts` whether a node's own start succeeds. At the start stage everything
     listed and every endpoint is started in dependency order, exactly when that is possible.
     A missing dependency named in an error is a listed tag exactly when it is an endpoint's.
     */
    method Start(newStage: nat, endpoints: seq<Node>, fallback: Result<Node, ManagerError>, starts: Node -> bool)
      returns (r: StartResult, calls: seq<Node>)
      requires Valid()
      modifies this`started, this`stage, this`outbounds, this`outboundByTag, this`defaultOutbound
      ensures Valid()
      ensures r == AlreadyStarted <==> old(started) && old(stage) >= newStage
      ensures r == AlreadyStarted ==> unchanged(this) && calls == []
      ensures r != AlreadyStarted ==> started && stage == newStage
      ensures newStage != START_STAGE ==>
                outbounds == old(outbounds) && outboundByTag == old(outboundByTag)
                    && defaultOutbound == old(defaultOutbound)
      ensures r != AlreadyStarted && newStage != START_STAGE ==> StageRun(outbounds, starts, r, calls)
      ensures r != AlreadyStarted && newStage == START_STAGE ==>
                && outbounds + endpoints == old(ToStart(endpoints, fallback))
                && Settled(defaultTag, old(defaultOutbound), endpoints, fallback, defaultOutbound)
                && if !old(DefaultInReach(endpoints, fallback))
                   then calls == [] && r == if defaultTag != "" then DefaultNotFound else FallbackFailed
                   else
                     && r.Stopped?
                     && StartRun(outbounds + endpoints, endpoints, outboundByTag, starts, r.outcome, calls)
      ensures Books() == if r != AlreadyStarted && newStage == START_STAGE && old(NeedsFallback()) && fallback.Ok?
                         then Next(old(Books()), FallsBack(fallback.value)) else old(Books())
      ensures old(EdgesExact()) ==>
                (EdgesExact() <==>
                  || r == AlreadyStarted || newStage != START_STAGE || !(old(NeedsFallback()) && fallback.Ok?)
                  || fallback.value.dependencies == [])
    {
      hide Startable, TagsStartable, Schedule, Attempted, Stuck, TrueExplanation, Settled, DistinctTags, Ordered,
          AllStart;
      if started && stage >= newStage {
        return AlreadyStarted, [];
      }
      started, stage := true, newStage;
      if newStage == START_STAGE {
        var failure := SettleDefault(endpoints, fallback);
        if failure.Some? {
          return failure.value, [];
        }
        StillIndexed(outbounds, endpoints, outboundByTag);
        var outcome;
        outcome, calls := StartAll(outbounds + endpoints, outboundByTag, starts);
        if outcome.NotFound? {
          MissingOrEndpoint(outbounds, endpoints, outboundByTag, Tags(calls), outcome);
        }
        return Stopped(outcome), calls;
      }
      r, calls := RunStage(starts);
    }

    /** Only the list is cleared: list and map stay in step just when nothing was registered. */
    method Close() returns (closed: seq<Node>)
      requires Valid()
      modifies this
      ensures !started && outboundByTag == old(outboundByTag) && dependByTag == old(dependByTag)
      ensures defaultOutbound == old(defaultOutbound)
      ensures closed == (if old(started) then old(outbounds) else [])
      ensures outbounds == (if old(started) then [] else old(outbounds))
      ensures Valid() <==> !old(started) || old(outbounds) == []
    {
      if !started {
        return [];
      }
      started, closed, outbounds := false, outbounds, [];
      assert closed != [] ==> closed[0] in closed;
    }
  }

  // ----- exactness, operation by operation -----

  lemma CreatedEdges(edges: Edges, nodes: seq<Node>, byTag: map<Tag, Node>, n: Node, after: Edges, listed: seq<Node>)
    requires InStep(nodes, byTag)
    requires after == AddEdges(edges, n.tag, n.dependencies) && listed == WithoutTag(nodes, byTag, n.tag) + [n]
    ensures Exact(edges, nodes) ==>
              (Exact(after, listed) <==>
                Distinct(n.dependencies) && (n.tag !in byTag || byTag[n.tag].dependencies == []))
  {
    if Exact(edges, nodes) {
      forall d
        ensures DependedBy(after, d) == Dependents(listed, d)
           <==> Count(n.dependencies, d) <= 1 && (n.tag !in byTag || d !in byTag[n.tag].dependencies)
      {
        CreatedEdgesAt(edges, nodes, byTag, n, d);
      }
      DistinctCounts(n.dependencies);
      if !Distinct(n.dependencies) {
        var d :| Count(n.dependencies, d) > 1;
        assert DependedBy(after, d) != Dependents(listed, d);
      } else if n.tag in byTag && byTag[n.tag].dependencies != [] {
        var d := byTag[n.tag].dependencies[0];
        assert DependedBy(after, d) != Dependents(listed, d);
      } else {
        forall d ensures DependedBy(after, d) == Dependents(listed, d) {
          assert Count(n.dependencies, d) <= 1;
        }
      }
    }
  }

  lemma CreatedEdgesAt(edges: Edges, nodes: seq<Node>, byTag: map<Tag, Node>, n: Node, d: Tag)
    requires InStep(nodes, byTag) && DependedBy(edges, d) == Dependents(nodes, d)
    ensures DependedBy(AddEdges(edges, n.tag, n.dependencies), d)
        == Dependents(WithoutTag(nodes, byTag, n.tag) + [n], d)
       <==> Count(n.dependencies, d) <= 1 && (n.tag !in byTag || d !in byTag[n.tag].dependencies)
  {
    AddEdgesAt(edges, n.tag, n.dependencies, d);
    CountMembers(n.dependencies, d);
    DependentsAppend(WithoutTag(nodes, byTag, n.tag), [n], d);
    assert Dependents([n], d) == (if d in n.dependencies then [n.tag] else []);
    if n.tag in byTag {
      DependentsUnlisted(nodes, byTag[n.tag], d);
      WithoutKeepsNone(Dependents(nodes, d), n.tag);
    }
  }

  /** No dependency listed more than once is left with exactly one other dependent. */
  ghost predicate KeepsOthers(dependencies: seq<Tag>, rest: seq<Node>) {
    forall d :: Count(dependencies, d) > 1 ==> |Dependents(rest, d)| != 1
  }

  lemma RemovedEdges(edges: Edges, nodes: seq<Node>, n: Node, rest: seq<Node>)
    requires DistinctTags(nodes) && n in nodes && rest == Unlisted(nodes, n)
    ensures Exact(edges, nodes) ==>
              && (Exact(DropEdges(edges, n.tag, n.dependencies), rest) <==> KeepsOthers(n.dependencies, rest))
              && (Exact(edges, rest) <==> n.dependencies == [])
  {
    if Exact(edges, nodes) {
      forall d
        ensures DependedBy(edges, d) == Dependents(rest, d) <==> d !in n.dependencies
        ensures DependedBy(DropEdges(edges, n.tag, n.dependencies), d) == Dependents(rest, d)
           <==> (Count(n.dependencies, d) > 1 ==> |Dependents(rest, d)| != 1)
      {
        DependentsUnlisted(nodes, n, d);
        WithoutKeepsNone(Dependents(nodes, d), n.tag);
        CountMembers(n.dependencies, d);
        DropEdgesAt(edges, n.tag, n.dependencies, d);
      }
      if n.dependencies != [] {
        assert n.dependencies[0] in n.dependencies;
      }
    }
  }

  lemma FallbackEdges(edges: Edges, n: Node)
    requires Exact(edges, [])
    ensures Exact(edges, [n]) <==> n.dependencies == []
  {
    forall d ensures DependedBy(edges, d) == Dependents([n], d) <==> d !in n.dependencies {
      assert Dependents([n], d) == (if d in n.dependencies then [n.tag] else []) + Dependents([n][1..], d);
      assert DependedBy(edges, d) == Dependents([], d);
    }
    if n.dependencies != [] {
      assert n.dependencies[0] in n.dependencies;
    }
  }

  // ----- an endpoint under the fallback's tag -----

  /** The fallback is not covered by the configuration's check for duplicates: an endpoint may carry its tag. */
  lemma FallbackClashes(fallback: Node, endpoints: seq<Node>)
    requires fallback.tag in Tags(endpoints)
    ensures !DistinctTags([fallback] + endpoints)
  {
    var k := PlaceOf(endpoints, fallback.tag);
    assert ([fallback] + endpoints)[k + 1].tag == ([fallback] + endpoints)[0].tag;
  }

  lemma IndependentTagsStart(nodes: seq<Node>, k: nat)
    requires (forall n :: n in nodes ==> n.dependencies == []) && k <= |nodes|
    ensures Ordered(nodes[..k])
  {
    if k > 0 {
      IndependentTagsStart(nodes, k - 1);
      assert nodes[..k][..k - 1] == nodes[..k - 1] && nodes[..k][k - 1] in nodes;
    }
  }

  /**
   A new manager without outbounds whose endpoints, none with dependencies, include one under the
   fallback's tag: every start succeeds and the start stage ends in the nil dereference.
   */
  method StartBesideFallback(endpoints: seq<Node>, fallback: Node) returns (r: StartResult)
    requires fallback.tag in Tags(endpoints)
    requires fallback.dependencies == [] && forall n :: n in endpoints ==> n.dependencies == []
    ensures r == Stopped(NilNode)
  {
    var manager := new Manager("");
    var list := [fallback] + endpoints;
    FallbackClashes(fallback, endpoints);
    IndependentTagsStart(list, |list|);
    assert list[..|list|] == list;
    assert TagsStartable(list);
    hide TagsStartable, Startable, Schedule, Ordered, DistinctTags;
    var calls;
    r, calls := manager.Start(START_STAGE, endpoints, Ok(fallback), _ => true);
  }
}
