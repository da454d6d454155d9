/**
 The reverse dependency index over whole runs: any sequence of registrations, removals and
 fallbacks, in any order. A replaced outbound and one whose removal was refused leave their
 edges behind; an accepted removal takes out every edge of its tag.
 */
module OutboundRuns {
  import opened DependencyStart
  import opened OutboundManager
  import opened Sequences

  const NOTHING: Registry := Registry([], map[], map[])

  /** The books of a new manager after these steps. */
  function After(steps: seq<Step>): Registry {
    if steps == [] then NOTHING else Next(After(steps[..|steps| - 1]), steps[|steps| - 1])
  }

  lemma StepKeepsInStep(r: Registry, step: Step)
    requires InStep(r.outbounds, r.byTag)
    ensures InStep(Next(r, step).outbounds, Next(r, step).byTag)
  {
    hide InStep, DropEdges, AddEdges;
    match step {
      case Registers(n) =>
        if n.tag in r.byTag {
          TagOfEntry(r, n.tag);
          InStepRemove(r.outbounds, r.byTag, r.byTag[n.tag]);
          ReplaceEntry(r.byTag, n);
          InStepAppend(Unlisted(r.outbounds, r.byTag[n.tag]), r.byTag - {n.tag}, n);
        } else {
          InStepAppend(r.outbounds, r.byTag, n);
        }
      case Removes(tag) =>
        if tag in r.byTag {
          TagOfEntry(r, tag);
          InStepRemove(r.outbounds, r.byTag, r.byTag[tag]);
        }
      case FallsBack(n) =>
        if r.outbounds == [] {
          NothingMapped(r);
          InStepAppend([], r.byTag, n);
          assert [] + [n] == [n];
        }
    }
  }

  lemma TagOfEntry(r: Registry, tag: Tag)
    requires InStep(r.outbounds, r.byTag) && tag in r.byTag
    ensures r.byTag[tag] in r.outbounds && r.byTag[tag].tag == tag && DistinctTags(r.outbounds)
  {
  }

  lemma NothingMapped(r: Registry)
    requires InStep(r.outbounds, r.byTag) && r.outbounds == []
    ensures r.byTag == map[]
  {
    if tag :| tag in r.byTag {
      TagOfEntry(r, tag);
    }
  }

  lemma {:induction false} AlwaysInStep(steps: seq<Step>)
    ensures InStep(After(steps).outbounds, After(steps).byTag)
  {
    if steps != [] {
      AlwaysInStep(steps[..|steps| - 1]);
      StepKeepsInStep(After(steps[..|steps| - 1]), steps[|steps| - 1]);
    }
  }

  // ----- exact all along -----

  /** What a caller can tell from the list before the step. */
  ghost predicate Harmless(r: Registry, step: Step) {
    match step
    case Registers(n) => Distinct(n.dependencies) && (n.tag !in r.byTag || r.byTag[n.tag].dependencies == [])
    case Removes(tag) =>
      tag in r.byTag ==>
        var gone := r.byTag[tag];
        || gone.dependencies == []
        || (Dependents(r.outbounds, tag) == [] && KeepsOthers(gone.dependencies, Unlisted(r.outbounds, gone)))
    case FallsBack(n) => r.outbounds == [] ==> n.dependencies == []
  }

  ghost predicate IndexExact(r: Registry) {
    Exact(r.edges, r.outbounds)
  }

  lemma HarmlessExactly(r: Registry, step: Step)
    requires InStep(r.outbounds, r.byTag) && IndexExact(r)
    ensures IndexExact(Next(r, step)) <==> Harmless(r, step)
  {
    match step {
      case Registers(n) =>
        CreatedEdges(r.edges, r.outbounds, r.byTag, n, Next(r, step).edges, Next(r, step).outbounds);
      case Removes(tag) =>
        if tag in r.byTag {
          TagOfEntry(r, tag);
          assert DependedBy(r.edges, tag) == Dependents(r.outbounds, tag);
          RemovedEdges(r.edges, r.outbounds, r.byTag[tag], Next(r, step).outbounds);
        }
      case FallsBack(n) =>
        if r.outbounds == [] {
          FallbackEdges(r.edges, n);
        }
    }
  }

  ghost predicate ExactAllAlong(steps: seq<Step>) {
    forall i :: 0 <= i <= |steps| ==> IndexExact(After(steps[..i]))
  }

  ghost predicate AllHarmless(steps: seq<Step>) {
    forall i :: 0 <= i < |steps| ==> Harmless(After(steps[..i]), steps[i])
  }

  /** In every run, the index is exact after each step exactly when each step was harmless where it was taken. */
  lemma {:induction false} ExactWhileHarmless(steps: seq<Step>)
    ensures ExactAllAlong(steps) <==> AllHarmless(steps)
  {
    hide InStep, IndexExact, Harmless, Next;
    if steps == [] {
      NothingIsExact();
    } else {
      var n := |steps| - 1;
      var before := steps[..n];
      ExactWhileHarmless(before);
      AlwaysInStep(before);
      assert forall i :: 0 <= i <= n ==> before[..i] == steps[..i];
      assert steps[..n + 1] == steps;
      if ExactAllAlong(before) {
        assert before[..n] == before;
        assert IndexExact(After(before));
        HarmlessExactly(After(before), steps[n]);
        assert IndexExact(After(steps)) <==> Harmless(After(before), steps[n]);
        assert ExactAllAlong(steps) <==> IndexExact(After(steps));
      }
    }
  }

  lemma NothingIsExact()
    ensures IndexExact(NOTHING)
  {
  }

  // ----- edges left behind -----

  datatype Edge = Edge(dependent: Tag, dependency: Tag)

  function EdgesOf(n: Node): set<Edge> {
    set d | d in n.dependencies :: Edge(n.tag, d)
  }

  /** The list and the map, and of the index only the edges that outlived their outbound. */
  datatype Ledger = Ledger(nodes: seq<Node>, byTag: map<Tag, Node>, left: set<Edge>)

  /** A listed outbound depends on the tag, or one did that left its edge behind. */
  ghost predicate Needed(l: Ledger, tag: Tag) {
    Dependents(l.nodes, tag) != [] || exists t :: Edge(t, tag) in l.left
  }

  /**
   Without looking at the index: replacing and refusing leave edges behind, an accepted removal
   clears those of its tag to whatever it depends on.
   */
  ghost function NextLedger(l: Ledger, step: Step): Ledger {
    match step
    case Registers(n) =>
      Ledger(WithoutTag(l.nodes, l.byTag, n.tag) + [n], l.byTag[n.tag := n],
        if n.tag in l.byTag then l.left + EdgesOf(l.byTag[n.tag]) else l.left)
    case Removes(tag) =>
      if tag !in l.byTag then l
      else
        var gone := l.byTag[tag];
        Ledger(Unlisted(l.nodes, gone), l.byTag - {tag},
          if Needed(l, tag) then l.left + EdgesOf(gone) else l.left - EdgesOf(gone))
    case FallsBack(n) =>
      if l.nodes != [] then l else Ledger([n], l.byTag[n.tag := n], l.left)
  }

  ghost function LedgerAfter(steps: seq<Step>): Ledger {
    if steps == [] then Ledger([], map[], {}) else NextLedger(LedgerAfter(steps[..|steps| - 1]), steps[|steps| - 1])
  }

  /** No dependency is listed twice, and the fallback has none. */
  ghost predicate Plain(step: Step) {
    match step
    case Registers(n) => Distinct(n.dependencies)
    case Removes(_) => true
    case FallsBack(n) => n.dependencies == []
  }

  /** The tags whose edge to `d` was not left behind. */
  function Kept(tags: seq<Tag>, left: set<Edge>, d: Tag): seq<Tag> {
    if tags == [] then []
    else (if Edge(tags[0], d) in left then [] else [tags[0]]) + Kept(tags[1..], left, d)
  }

  /**
   The dependents the index has for `d` against those of the list: the same in the same order but for tags
   with an edge left behind, which the index has once more at least.
   */
  ghost predicate Tells(indexed: seq<Tag>, listed: seq<Tag>, left: set<Edge>, d: Tag) {
    && Kept(indexed, left, d) == Kept(listed, left, d)
    && forall t :: Edge(t, d) in left ==> Count(indexed, t) > Count(listed, t)
  }

  lemma {:induction false} KeptAppend(a: seq<Tag>, t: Tag, left: set<Edge>, d: Tag)
    ensures Kept(a + [t], left, d) == Kept(a, left, d) + if Edge(t, d) in left then [] else [t]
  {
    if a == [] {
      assert a + [t] == [t] && [t][1..] == [];
    } else {
      assert (a + [t])[0] == a[0] && (a + [t])[1..] == a[1..] + [t];
      KeptAppend(a[1..], t, left, d);
    }
  }

  lemma {:induction false} CountAppend(a: seq<Tag>, t: Tag, u: Tag)
    ensures Count(a + [t], u) == Count(a, u) + if t == u then 1 else 0
  {
    if a == [] {
      assert a + [t] == [t] && [t][1..] == [];
    } else {
      assert (a + [t])[0] == a[0] && (a + [t])[1..] == a[1..] + [t];
      CountAppend(a[1..], t, u);
    }
  }

  lemma {:induction false} CountWithout(a: seq<Tag>, t: Tag, u: Tag)
    ensures Count(Without(a, t), u) == if t == u then 0 else Count(a, u)
  {
    if a != [] {
      CountWithout(a[1..], t, u);
      var rest := Without(a[1..], t);
      assert a[0] != t ==> Without(a, t)[0] == a[0] && Without(a, t)[1..] == rest;
      assert a[0] == t ==> Without(a, t) == rest;
    }
  }

  lemma {:induction false} KeptMembers(a: seq<Tag>, left: set<Edge>, d: Tag, t: Tag)
    ensures t in Kept(a, left, d) <==> t in a && Edge(t, d) !in left
  {
    if a != [] {
      KeptMembers(a[1..], left, d, t);
      assert t in a <==> t == a[0] || t in a[1..];
    }
  }

  /** Edges that differ in `t` alone keep the same of everything but `t`. */
  lemma {:induction false} KeptWithout(a: seq<Tag>, left: set<Edge>, other: set<Edge>, d: Tag, t: Tag)
    requires forall u :: u != t ==> (Edge(u, d) in left <==> Edge(u, d) in other)
    ensures Without(Kept(a, left, d), t) == Kept(Without(a, t), other, d)
  {
    if a != [] {
      KeptWithout(a[1..], left, other, d, t);
      var kept, rest := Kept(a[1..], left, d), Without(a[1..], t);
      assert a[0] != t ==> Without(a, t)[0] == a[0] && Without(a, t)[1..] == rest;
      assert a[0] == t ==> Without(a, t) == rest;
      assert Edge(a[0], d) in left ==> Kept(a, left, d) == kept;
      assert Edge(a[0], d) !in left ==> Kept(a, left, d)[0] == a[0] && Kept(a, left, d)[1..] == kept;
    }
  }

  lemma {:induction false} KeptLeft(a: seq<Tag>, left: set<Edge>, d: Tag, t: Tag)
    requires Edge(t, d) in left
    ensures Kept(Without(a, t), left, d) == Kept(a, left, d)
  {
    if a != [] {
      KeptLeft(a[1..], left, d, t);
      var rest := Without(a[1..], t);
      assert a[0] != t ==> Without(a, t)[0] == a[0] && Without(a, t)[1..] == rest;
      assert a[0] == t ==> Without(a, t) == rest;
    }
  }

  lemma TellsMembers(indexed: seq<Tag>, listed: seq<Tag>, left: set<Edge>, d: Tag, t: Tag)
    requires Tells(indexed, listed, left, d)
    ensures t in indexed <==> t in listed || Edge(t, d) in left
  {
    KeptMembers(indexed, left, d, t);
    KeptMembers(listed, left, d, t);
    CountMembers(indexed, t);
  }

  lemma TellsAppend(indexed: seq<Tag>, listed: seq<Tag>, left: set<Edge>, d: Tag, t: Tag)
    requires Tells(indexed, listed, left, d)
    ensures Tells(indexed + [t], listed + [t], left, d)
  {
    KeptAppend(indexed, t, left, d);
    KeptAppend(listed, t, left, d);
    forall u | Edge(u, d) in left ensures Count(indexed + [t], u) > Count(listed + [t], u) {
      CountAppend(indexed, t, u);
      CountAppend(listed, t, u);
    }
  }

  /** A dependent that is no longer listed leaves its edge behind. */
  lemma TellsLeft(indexed: seq<Tag>, listed: seq<Tag>, left: set<Edge>, more: set<Edge>, d: Tag, t: Tag)
    requires Tells(indexed, listed, left, d) && t in listed
    requires forall u :: Edge(u, d) in more <==> u == t || Edge(u, d) in left
    ensures Tells(indexed, Without(listed, t), more, d)
  {
    TellsMembers(indexed, listed, left, d, t);
    KeptWithout(indexed, left, more, d, t);
    KeptWithout(listed, left, more, d, t);
    KeptLeft(indexed, more, d, t);
    KeptLeft(listed, more, d, t);
    CountMembers(indexed, t);
    forall u | Edge(u, d) in more ensures Count(indexed, u) > Count(Without(listed, t), u) {
      CountWithout(listed, t, u);
    }
  }

  /** A dependent taken out of the index has no edge behind. */
  lemma TellsCleared(indexed: seq<Tag>, listed: seq<Tag>, left: set<Edge>, less: set<Edge>, d: Tag, t: Tag)
    requires Tells(indexed, listed, left, d)
    requires forall u :: Edge(u, d) in less <==> u != t && Edge(u, d) in left
    ensures Tells(Without(indexed, t), Without(listed, t), less, d)
  {
    KeptWithout(indexed, left, less, d, t);
    KeptWithout(listed, left, less, d, t);
    forall u | Edge(u, d) in less ensures Count(Without(indexed, t), u) > Count(Without(listed, t), u) {
      CountWithout(indexed, t, u);
      CountWithout(listed, t, u);
    }
  }

  lemma {:induction false} NothingLeft(a: seq<Tag>, left: set<Edge>, d: Tag)
    requires forall t :: Edge(t, d) !in left
    ensures Kept(a, left, d) == a
  {
    if a != [] {
      NothingLeft(a[1..], left, d);
    }
  }

  // ----- the index against the ledger -----

  ghost predicate Agrees(edges: Edges, nodes: seq<Node>, left: set<Edge>, d: Tag) {
    Tells(DependedBy(edges, d), Dependents(nodes, d), left, d)
  }

  /** List and map are the ledger's, and of every tag the index tells the dependents. */
  ghost predicate Follows(r: Registry, l: Ledger) {
    && r.outbounds == l.nodes && r.byTag == l.byTag
    && forall d :: Agrees(r.edges, l.nodes, l.left, d)
  }

  lemma LeftUnlisted(edges: Edges, nodes: seq<Node>, left: set<Edge>, n: Node, d: Tag)
    requires DistinctTags(nodes) && n in nodes && Agrees(edges, nodes, left, d)
    ensures Agrees(edges, Unlisted(nodes, n), left + EdgesOf(n), d)
  {
    DependentsUnlisted(nodes, n, d);
    WithoutKeepsNone(Dependents(nodes, d), n.tag);
    var more := left + EdgesOf(n);
    if d in n.dependencies {
      assert forall u :: Edge(u, d) in EdgesOf(n) <==> u == n.tag;
      TellsLeft(DependedBy(edges, d), Dependents(nodes, d), left, more, d, n.tag);
    } else {
      SameEdges(DependedBy(edges, d), Dependents(nodes, d), left, more, d);
    }
  }

  lemma SameEdges(indexed: seq<Tag>, listed: seq<Tag>, left: set<Edge>, other: set<Edge>, d: Tag)
    requires Tells(indexed, listed, left, d)
    requires forall u :: Edge(u, d) in left <==> Edge(u, d) in other
    ensures Tells(indexed, listed, other, d)
  {
    SameKept(indexed, left, other, d);
    SameKept(listed, left, other, d);
  }

  lemma {:induction false} SameKept(a: seq<Tag>, left: set<Edge>, other: set<Edge>, d: Tag)
    requires forall u :: Edge(u, d) in left <==> Edge(u, d) in other
    ensures Kept(a, left, d) == Kept(a, other, d)
  {
    if a != [] {
      SameKept(a[1..], left, other, d);
    }
  }

  lemma ClearedUnlisted(edges: Edges, nodes: seq<Node>, left: set<Edge>, n: Node, d: Tag)
    requires DistinctTags(nodes) && n in nodes && Agrees(edges, nodes, left, d) && Distinct(n.dependencies)
    ensures Agrees(DropEdges(edges, n.tag, n.dependencies), Unlisted(nodes, n), left - EdgesOf(n), d)
  {
    DependentsUnlisted(nodes, n, d);
    WithoutKeepsNone(Dependents(nodes, d), n.tag);
    DropEdgesAt(edges, n.tag, n.dependencies, d);
    CountMembers(n.dependencies, d);
    DistinctCounts(n.dependencies);
    var indexed, less := DependedBy(edges, d), left - EdgesOf(n);
    if d in n.dependencies {
      TellsMembers(indexed, Dependents(nodes, d), left, d, n.tag);
      WithoutKeepsNone(indexed, n.tag);
      assert Count(n.dependencies, d) == 1;
      assert DependedBy(DropEdges(edges, n.tag, n.dependencies), d) == Without(indexed, n.tag);
      assert forall u :: Edge(u, d) in EdgesOf(n) <==> u == n.tag;
      TellsCleared(indexed, Dependents(nodes, d), left, less, d, n.tag);
    } else {
      SameEdges(indexed, Dependents(nodes, d), left, less, d);
    }
  }

  lemma Enlisted(edges: Edges, nodes: seq<Node>, left: set<Edge>, n: Node, d: Tag)
    requires Agrees(edges, nodes, left, d) && Distinct(n.dependencies)
    ensures Agrees(AddEdges(edges, n.tag, n.dependencies), nodes + [n], left, d)
  {
    EnlistedEdges(edges, n, d);
    EnlistedDependents(nodes, n, d);
    hide AddEdges, Dependents, Distinct, DependedBy, Tells;
    if d in n.dependencies {
      TellsAppend(DependedBy(edges, d), Dependents(nodes, d), left, d, n.tag);
    }
  }

  lemma EnlistedEdges(edges: Edges, n: Node, d: Tag)
    requires Distinct(n.dependencies)
    ensures DependedBy(AddEdges(edges, n.tag, n.dependencies), d)
         == if d in n.dependencies then DependedBy(edges, d) + [n.tag] else DependedBy(edges, d)
  {
    AddEdgesAt(edges, n.tag, n.dependencies, d);
    CountMembers(n.dependencies, d);
    DistinctCounts(n.dependencies);
    hide AddEdges, Distinct, DependedBy;
    assert Count(n.dependencies, d) <= 1;
    assert Times(n.tag, 1) == [n.tag] && Times(n.tag, 0) == [];
    assert DependedBy(edges, d) + [] == DependedBy(edges, d);
  }

  lemma EnlistedDependents(nodes: seq<Node>, n: Node, d: Tag)
    ensures Dependents(nodes + [n], d)
         == if d in n.dependencies then Dependents(nodes, d) + [n.tag] else Dependents(nodes, d)
  {
    DependentsAppend(nodes, [n], d);
    assert Dependents([n], d) == if d in n.dependencies then [n.tag] else [];
    assert Dependents(nodes, d) + [] == Dependents(nodes, d);
  }

  /** A removal is refused exactly when the ledger says that the tag is needed. */
  lemma RefusedExactly(r: Registry, l: Ledger, tag: Tag)
    requires Follows(r, l)
    ensures DependedBy(r.edges, tag) != [] <==> Needed(l, tag)
  {
    var indexed, listed := DependedBy(r.edges, tag), Dependents(l.nodes, tag);
    assert Agrees(r.edges, l.nodes, l.left, tag);
    if indexed != [] {
      TellsMembers(indexed, listed, l.left, tag, indexed[0]);
    }
    if listed != [] {
      TellsMembers(indexed, listed, l.left, tag, listed[0]);
    }
    if t :| Edge(t, tag) in l.left {
      TellsMembers(indexed, listed, l.left, tag, t);
    }
  }

  /** Every listed outbound has distinct dependencies. */
  ghost predicate AllDistinct(nodes: seq<Node>) {
    forall n :: n in nodes ==> Distinct(n.dependencies)
  }

  lemma StepFollows(r: Registry, l: Ledger, step: Step)
    requires InStep(r.outbounds, r.byTag) && Follows(r, l) && AllDistinct(l.nodes) && Plain(step)
    ensures Follows(Next(r, step), NextLedger(l, step))
  {
    hide Agrees, InStep, AddEdges, DropEdges, Dependents, Unlisted, EdgesOf;
    match step {
      case Registers(n) =>
        RegistrationFollows(r, l, n);
      case Removes(tag) =>
        if tag in r.byTag {
          RemovalFollows(r, l, tag);
        }
      case FallsBack(n) =>
        if r.outbounds == [] {
          forall d ensures Agrees(r.edges, [n], l.left, d) {
            assert Agrees(r.edges, [], l.left, d);
            FallbackAgrees(r.edges, l.left, n, d);
          }
        }
    }
  }

  lemma FallbackAgrees(edges: Edges, left: set<Edge>, n: Node, d: Tag)
    requires Agrees(edges, [], left, d) && n.dependencies == []
    ensures Agrees(edges, [n], left, d)
  {
    assert Dependents([n], d) == [] + Dependents([n][1..], d);
  }

  lemma RegistrationFollows(r: Registry, l: Ledger, n: Node)
    requires InStep(r.outbounds, r.byTag) && Follows(r, l) && Distinct(n.dependencies)
    ensures Follows(Next(r, Registers(n)), NextLedger(l, Registers(n)))
  {
    hide Agrees, InStep, AddEdges, Dependents, Unlisted, EdgesOf, Distinct;
    var before := WithoutTag(l.nodes, l.byTag, n.tag);
    var left := NextLedger(l, Registers(n)).left;
    if n.tag in r.byTag {
      TagOfEntry(r, n.tag);
    }
    forall d ensures Agrees(Next(r, Registers(n)).edges, before + [n], left, d) {
      assert Agrees(r.edges, l.nodes, l.left, d);
      if n.tag in r.byTag {
        LeftUnlisted(r.edges, l.nodes, l.left, l.byTag[n.tag], d);
      }
      Enlisted(r.edges, before, left, n, d);
    }
  }

  lemma RemovalFollows(r: Registry, l: Ledger, tag: Tag)
    requires InStep(r.outbounds, r.byTag) && Follows(r, l) && AllDistinct(l.nodes) && tag in r.byTag
    ensures Follows(Next(r, Removes(tag)), NextLedger(l, Removes(tag)))
  {
    RefusedExactly(r, l, tag);
    hide Agrees, InStep, DropEdges, Dependents, Unlisted, EdgesOf, Distinct, Needed;
    TagOfEntry(r, tag);
    var gone, next, ledger := r.byTag[tag], Next(r, Removes(tag)), NextLedger(l, Removes(tag));
    forall d ensures Agrees(next.edges, ledger.nodes, ledger.left, d) {
      assert Agrees(r.edges, l.nodes, l.left, d);
      if Needed(l, tag) {
        LeftUnlisted(r.edges, l.nodes, l.left, gone, d);
      } else {
        ClearedUnlisted(r.edges, l.nodes, l.left, gone, d);
      }
    }
  }

  lemma StepKeepsDistinct(r: Registry, step: Step)
    requires InStep(r.outbounds, r.byTag) && AllDistinct(r.outbounds) && Plain(step)
    ensures AllDistinct(Next(r, step).outbounds)
  {
    hide AddEdges, DropEdges;
    match step {
      case Registers(n) =>
        if n.tag in r.byTag {
          UnlistedMembers(r.outbounds, r.byTag[n.tag]);
        }
      case Removes(tag) =>
        if tag in r.byTag {
          UnlistedMembers(r.outbounds, r.byTag[tag]);
        }
      case FallsBack(n) =>
    }
  }

  lemma {:induction false} RunFollows(steps: seq<Step>)
    requires forall step :: step in steps ==> Plain(step)
    ensures Follows(After(steps), LedgerAfter(steps)) && AllDistinct(After(steps).outbounds)
  {
    if steps != [] {
      var before, last := steps[..|steps| - 1], steps[|steps| - 1];
      RunFollows(before);
      AlwaysInStep(before);
      hide Follows, InStep, Plain, AllDistinct, Next, NextLedger;
      assert Plain(last);
      StepFollows(After(before), LedgerAfter(before), last);
      StepKeepsDistinct(After(before), last);
    }
  }

  /**
   The index has the dependents the list gives and those that left an edge behind, and loses none.
   It is exact exactly when nothing is left behind, and the next removal is refused exactly when an
   outbound of either kind needs its tag.
   */
  ghost predicate Tracked(r: Registry, l: Ledger) {
    && r.outbounds == l.nodes && r.byTag == l.byTag
    && (forall d, t :: t in DependedBy(r.edges, d) <==> t in Dependents(r.outbounds, d) || Edge(t, d) in l.left)
    && (IndexExact(r) <==> l.left == {})
    && (forall tag :: DependedBy(r.edges, tag) != [] <==> Needed(l, tag))
  }

  /** That is so at the end of any run without repeated dependencies, whatever was exact on the way. */
  lemma IndexAfterRun(steps: seq<Step>)
    requires forall step :: step in steps ==> Plain(step)
    ensures Tracked(After(steps), LedgerAfter(steps))
  {
    RunFollows(steps);
    FollowsIsTracked(After(steps), LedgerAfter(steps));
  }

  lemma FollowsIsTracked(r: Registry, l: Ledger)
    requires Follows(r, l)
    ensures Tracked(r, l)
  {
    hide Tells, Dependents, Needed;
    forall d, t ensures t in DependedBy(r.edges, d) <==> t in Dependents(r.outbounds, d) || Edge(t, d) in l.left {
      assert Agrees(r.edges, l.nodes, l.left, d);
      TellsMembers(DependedBy(r.edges, d), Dependents(r.outbounds, d), l.left, d, t);
    }
    if l.left == {} {
      forall d ensures DependedBy(r.edges, d) == Dependents(r.outbounds, d) {
        assert Agrees(r.edges, l.nodes, l.left, d);
        TellsExactly(DependedBy(r.edges, d), Dependents(r.outbounds, d), l.left, d);
      }
    } else {
      var e :| e in l.left;
      assert Agrees(r.edges, l.nodes, l.left, e.dependency);
      TellsExactly(DependedBy(r.edges, e.dependency), Dependents(r.outbounds, e.dependency), l.left, e.dependency);
      assert Edge(e.dependent, e.dependency) in l.left;
    }
    forall tag ensures DependedBy(r.edges, tag) != [] <==> Needed(l, tag) {
      RefusedExactly(r, l, tag);
    }
  }

  ghost predicate AlwaysTracked(steps: set<Step>) {
    forall run: seq<Step> :: (forall step :: step in run ==> step in steps) ==> Tracked(After(run), LedgerAfter(run))
  }

  /** Runs made of these steps all end so exactly when none of them brings a repeated dependency. */
  lemma TrackedExactlyWhenPlain(steps: set<Step>)
    ensures AlwaysTracked(steps) <==> forall step :: step in steps ==> Plain(step)
  {
    if forall step :: step in steps ==> Plain(step) {
      forall run: seq<Step> | forall step :: step in run ==> step in steps
        ensures Tracked(After(run), LedgerAfter(run))
      {
        IndexAfterRun(run);
      }
    } else {
      var step :| step in steps && !Plain(step);
      NotTrackedAfter(step);
    }
  }

  /** A step that brings one leaves the index inexact at once, with nothing left behind. */
  lemma NotTrackedAfter(step: Step)
    requires !Plain(step)
    ensures !IndexExact(After([step])) && LedgerAfter([step]).left == {}
  {
    assert [step][..0] == [];
    hide Exact;
    NothingIsExact();
    HarmlessExactly(NOTHING, step);
  }

  /** The index tells exactly the listed dependents when nobody left an edge to the tag. */
  lemma TellsExactly(indexed: seq<Tag>, listed: seq<Tag>, left: set<Edge>, d: Tag)
    requires Tells(indexed, listed, left, d)
    ensures indexed == listed <==> forall t :: Edge(t, d) !in left
  {
    if forall t :: Edge(t, d) !in left {
      NothingLeft(indexed, left, d);
      NothingLeft(listed, left, d);
    }
  }
}
