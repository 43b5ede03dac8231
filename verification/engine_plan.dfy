/**
 From declared plans to a run (internal/engine/composition.go, run.go): the graph of
 publication references, its check, the restriction to selected resources, and the
 execution over what remains.
 */
module EnginePlan {
  import opened Wrappers
  import opened EngineGraph
  import opened EngineClosure
  import opened EngineExecution
  import opened EngineRun

  /** The destinations of every evaluated plan, and the resources each publication references. */
  datatype Plans = Plans(destinations: map<Key, seq<string>>, references: map<Ref, seq<Key>>)

  datatype GraphError = UnknownResource(node: Ref, resource: Key) | NotPublished(node: Ref, resource: Key)

  function References(p: Plans, ref: Ref): seq<Key> {
    if ref in p.references then p.references[ref] else []
  }

  /** A reference stays on its own destination. */
  predicate Resolves(p: Plans, ref: Ref, resource: Key) {
    resource in p.destinations && ref.destination in p.destinations[resource]
  }

  function Nodes(p: Plans): set<Ref> {
    set key, d | key in p.destinations && d in p.destinations[key] :: Ref(key, d)
  }

  /** The edges of one node: its references, on its own destination. */
  ghost predicate EdgesOf(p: Plans, ref: Ref, edges: seq<Ref>) {
    && (forall i :: 0 <= i < |edges| ==> edges[i] in Nodes(p))
    && forall next :: next in edges <==> next.destination == ref.destination && next.resource in References(p, ref)
  }

  predicate Resolvable(p: Plans, ref: Ref) {
    forall i :: 0 <= i < |References(p, ref)| ==> Resolves(p, ref, References(p, ref)[i])
  }

  /** One publication's requirements, each once. */
  method Requires(p: Plans, ref: Ref) returns (r: Result<seq<Ref>, GraphError>)
    ensures r.Success? ==>
              EdgesOf(p, ref, r.value) && forall i, j :: 0 <= i < j < |r.value| ==> r.value[i] != r.value[j]
    ensures r.Success? <==> Resolvable(p, ref)
  {
    var references := References(p, ref);
    var found: seq<Ref> := [];
    for i := 0 to |references|
      invariant forall j :: 0 <= j < i ==> Resolves(p, ref, references[j])
      invariant forall next :: next in found <==>
                next.destination == ref.destination && next.resource in references[..i]
      invariant forall j, k :: 0 <= j < k < |found| ==> found[j] != found[k]
    {
      if references[i] !in p.destinations {
        return Failure(UnknownResource(ref, references[i]));
      }
      if ref.destination !in p.destinations[references[i]] {
        return Failure(NotPublished(ref, references[i]));
      }
      assert references[..i + 1] == references[..i] + [references[i]];
      var next := Ref(references[i], ref.destination);
      if next !in found {
        found := found + [next];
      }
    }
    assert references[..|references|] == references;
    forall i | 0 <= i < |found| ensures found[i] in Nodes(p) {
      assert found[i] in found;
      var k :| 0 <= k < |references| && references[k] == found[i].resource;
      assert Resolves(p, ref, references[k]);
      assert found[i] == Ref(found[i].resource, found[i].destination);
    }
    return Success(found);
  }

  /** The graph of every evaluated publication, selected or not. */
  method PublicationGraph(p: Plans) returns (r: Result<Graph<Ref>, GraphError>)
    ensures r.Success? ==> r.value.Keys == Nodes(p) && forall ref :: ref in r.value ==> EdgesOf(p, ref, r.value[ref])
    ensures r.Success? <==> forall ref :: ref in Nodes(p) ==> Resolvable(p, ref)
  {
    hide EdgesOf, Nodes, Resolvable;
    var graph: Graph<Ref> := map[];
    var rest := Nodes(p);
    while rest != {}
      invariant rest <= Nodes(p) && graph.Keys == Nodes(p) - rest
      invariant forall ref :: ref in graph ==> EdgesOf(p, ref, graph[ref]) && Resolvable(p, ref)
      decreases |rest|
    {
      var ref :| ref in rest;
      var required := Requires(p, ref);
      if required.Failure? {
        return Failure(required.error);
      }
      graph, rest := graph[ref := required.value], rest - {ref};
    }
    return Success(graph);
  }

  lemma EdgesAreClosed(p: Plans, graph: Graph<Ref>)
    requires graph.Keys == Nodes(p) && forall ref :: ref in graph ==> EdgesOf(p, ref, graph[ref])
    ensures ClosedUnder(graph, Nodes(p))
  {
    forall ref, i | ref in Nodes(p) && 0 <= i < |Next(graph, ref)| ensures Next(graph, ref)[i] in Nodes(p) {
      assert EdgesOf(p, ref, graph[ref]);
    }
  }

  /** A plan requires only selected publications. */
  function SelectedOnly(requires_: seq<Ref>, selected: seq<Key>): (kept: seq<Ref>)
    ensures forall ref :: ref in kept <==> ref in requires_ && ref.resource in selected
  {
    if requires_ == [] then []
    else (if requires_[0].resource in selected then [requires_[0]] else []) + SelectedOnly(requires_[1..], selected)
  }

  function Restrict(graph: Graph<Ref>, selected: seq<Key>): Graph<Ref> {
    map ref | ref in graph && ref.resource in selected :: SelectedOnly(graph[ref], selected)
  }

  /** The rank of the whole graph still ranks what is left of it. */
  lemma RankSurvivesSelection(p: Plans, graph: Graph<Ref>, order: seq<Ref>, c: Config)
    requires graph.Keys == Nodes(p) && Postorder(graph, order) && Elements(order) == Nodes(p)
    requires ClosedUnder(graph, Nodes(p))
    requires Postorder(c.producers, c.selected) && c.requires_ == Restrict(graph, c.selected)
    requires forall key :: key in c.selected ==>
             key in p.destinations && key in c.destinations && c.destinations[key] == p.destinations[key]
    requires forall key, i, j :: key in c.destinations && 0 <= i < j < |c.destinations[key]| ==>
             c.destinations[key][i] != c.destinations[key][j]
    ensures ValidConfig(c, order)
  {
    forall ref | IsRef(c, ref) ensures ref in order {
      assert ref == Ref(ref.resource, ref.destination) && ref in Nodes(p);
      assert ref in Elements(order);
    }
    forall ref, next | IsRef(c, ref) && next in Next(c.requires_, ref)
      ensures IsRef(c, next) && Lower(order, next, ref)
    {
      assert next in Next(graph, ref) && next.resource in c.selected;
      var i :| 0 <= i < |Next(graph, ref)| && Next(graph, ref)[i] == next;
      assert next in Nodes(p);
      PostorderRanks(graph, order, ref, next);
    }
  }

  // ----- The whole check -----

  datatype RunError =
    | InputCycle(at: Key) | Rejected(at: Key) | Unsupported(resource: Key) | NoIcon(resource: Key)
    | BadReference(error: GraphError) | ReferenceCycle(node: Ref) | Refused(publication: Ref)
    | NotConnected(destination: string) | NotLocked

  /** What the host and the providers say of a selection: requirements and icons of its
      resources, metadata and validation of its publications, settings of its destinations,
      and the lock file's opening. */
  datatype Host = Host(supports: Key -> bool, hasIcon: Key -> bool, validates: Ref -> bool,
                       connects: string -> bool, locks: set<Key> -> bool)

  /** The references of every publication, as declared. */
  function DeclaredGraph(p: Plans): Graph<Ref> {
    map ref | ref in Nodes(p) ::
      seq(|References(p, ref)|, i requires 0 <= i < |References(p, ref)| => Ref(References(p, ref)[i], ref.destination))
  }

  ghost predicate AllResolvable(p: Plans) {
    forall ref :: ref in Nodes(p) ==> Resolvable(p, ref)
  }

  ghost predicate Acyclic(p: Plans) {
    forall ref :: ref in Nodes(p) ==> !OnCycle(DeclaredGraph(p), ref)
  }

  lemma GraphIsDeclared(p: Plans, graph: Graph<Ref>)
    requires graph.Keys == Nodes(p) && forall ref :: ref in graph ==> EdgesOf(p, ref, graph[ref])
    ensures forall ref :: OnCycle(graph, ref) <==> OnCycle(DeclaredGraph(p), ref)
  {
    hide OnCycle, Reaches, Nodes;
    forall x, y ensures y in Next(graph, x) <==> y in Next(DeclaredGraph(p), x) {
      if x in graph {
        assert EdgesOf(p, x, graph[x]);
        if y in graph[x] {
          var i :| 0 <= i < |References(p, x)| && References(p, x)[i] == y.resource;
          assert DeclaredGraph(p)[x][i] == y;
        }
      }
    }
    SameEdges(graph, DeclaredGraph(p));
  }

  /** Builds and checks the publication graph of evaluated plans. */
  method CheckReferences(p: Plans) returns (r: Result<Graph<Ref>, RunError>, ghost order: seq<Ref>)
    ensures r.Success? <==> AllResolvable(p) && Acyclic(p)
    ensures r.Success? ==>
            r.value.Keys == Nodes(p) && ClosedUnder(r.value, Nodes(p)) && Postorder(r.value, order)
              && Elements(order) == Nodes(p) && forall ref :: ref in r.value ==> EdgesOf(p, ref, r.value[ref])
    ensures r.Failure? ==> r.error.BadReference? || (r.error.ReferenceCycle? && OnCycle(DeclaredGraph(p), r.error.node))
    ensures r.Failure? && r.error.BadReference? ==> !AllResolvable(p)
  {
    hide OnCycle, Postorder, ClosedUnder, EdgesOf, Nodes, DeclaredGraph, Resolvable;
    order := [];
    var graph := PublicationGraph(p);
    if graph.Failure? {
      return Failure(BadReference(graph.error)), order;
    }
    EdgesAreClosed(p, graph.value);
    GraphIsDeclared(p, graph.value);
    var nodes := RefKeys(graph.value.Keys);
    var checked;
    checked, order := CheckAcyclic(graph.value, nodes);
    assert forall ref :: ref in nodes <==> ref in Elements(nodes);
    r := if checked.Fine? then Success(graph.value) else Failure(ReferenceCycle(checked.at));
  }

  /** The plans that discovery evaluates. */
  ghost function Evaluated(catalog: Catalog, roots: seq<Key>, p: Plans): Plans {
    Plans(map key | key in p.destinations && PeerReached(catalog, roots, key) :: p.destinations[key], p.references)
  }

  /** The host accepts what is selected; icons and connections matter to publication only. */
  ghost predicate Accepted(host: Host, selected: set<Key>, destinations: map<Key, seq<string>>, publishing: bool) {
    && (forall key :: key in selected ==> host.supports(key) && (publishing ==> host.hasIcon(key)))
    && (forall key, d :: key in selected && key in destinations && d in destinations[key] ==>
          host.validates(Ref(key, d)) && (publishing ==> host.connects(d)))
    && host.locks(selected)
  }

  ghost predicate IsSelection(catalog: Catalog, roots: seq<Key>, selected: set<Key>) {
    forall key :: key in selected <==> ReachedFrom(catalog.inputs, Elements(roots), key)
  }

  /** Nothing reached is on a cycle or cannot be evaluated, the evaluated publications
      reference each other without a cycle, and the host accepts the selection. */
  ghost predicate Runnable(catalog: Catalog, roots: seq<Key>, p: Plans, host: Host, publishing: bool) {
    && Discoverable(catalog, roots, true)
    && AllResolvable(Evaluated(catalog, roots, p)) && Acyclic(Evaluated(catalog, roots, p))
    && forall selected :: IsSelection(catalog, roots, selected) ==> Accepted(host, selected, p.destinations, publishing)
  }

  /** What each error means. */
  ghost predicate Explains(catalog: Catalog, roots: seq<Key>, p: Plans, host: Host, publishing: bool, error: RunError) {
    match error
    case InputCycle(at) => OnCycle(catalog.inputs, at) && ReachedFrom(catalog.inputs, Elements(roots), at)
    case Rejected(at) => Unevaluable(catalog, roots, true, at)
    case BadReference(_) => !AllResolvable(Evaluated(catalog, roots, p))
    case ReferenceCycle(node) => OnCycle(DeclaredGraph(Evaluated(catalog, roots, p)), node)
    case Unsupported(key) => ReachedFrom(catalog.inputs, Elements(roots), key) && !host.supports(key)
    case NoIcon(key) => publishing && ReachedFrom(catalog.inputs, Elements(roots), key) && !host.hasIcon(key)
    case Refused(ref) => ReachedFrom(catalog.inputs, Elements(roots), ref.resource) && !host.validates(ref)
    case NotConnected(d) => publishing && !host.connects(d)
    case NotLocked => forall selected :: IsSelection(catalog, roots, selected) ==> !host.locks(selected)
  }

  /** preflight and verifyIcons. */
  method CheckResources(host: Host, selected: seq<Key>, publishing: bool) returns (r: Option<RunError>)
    ensures r.None? <==> forall key <- selected :: host.supports(key) && (publishing ==> host.hasIcon(key))
    ensures r.Some? ==> match r.value
                        case Unsupported(key) => key in selected && !host.supports(key)
                        case NoIcon(key) => publishing && key in selected && !host.hasIcon(key)
                        case _ => false
  {
    for i := 0 to |selected|
      invariant forall j :: 0 <= j < i ==> host.supports(selected[j])
    {
      if !host.supports(selected[i]) {
        return Some(Unsupported(selected[i]));
      }
    }
    if publishing {
      for i := 0 to |selected|
        invariant forall j :: 0 <= j < i ==> host.hasIcon(selected[j])
      {
        if !host.hasIcon(selected[i]) {
          return Some(NoIcon(selected[i]));
        }
      }
    }
    return None;
  }

  /** checkPublication for what is selected, then the connections. */
  method CheckPublications(host: Host, selected: seq<Key>, destinations: map<Key, seq<string>>, publishing: bool)
    returns (r: Option<RunError>)
    requires Elements(selected) <= destinations.Keys
    ensures r.None? <==> forall key, d :: key in selected && d in destinations[key] ==>
                           host.validates(Ref(key, d)) && (publishing ==> host.connects(d))
    ensures r.Some? ==> match r.value
                        case Refused(ref) => ref.resource in selected && !host.validates(ref)
                        case NotConnected(d) => publishing && !host.connects(d)
                        case _ => false
  {
    assert forall key :: key in selected ==> key in Elements(selected);
    for i := 0 to |selected|
      invariant forall k, d :: 0 <= k < i && d in destinations[selected[k]] ==> host.validates(Ref(selected[k], d))
    {
      var own := destinations[selected[i]];
      for j := 0 to |own|
        invariant forall k :: 0 <= k < j ==> host.validates(Ref(selected[i], own[k]))
      {
        if !host.validates(Ref(selected[i], own[j])) {
          return Some(Refused(Ref(selected[i], own[j])));
        }
      }
    }
    if publishing {
      for i := 0 to |selected|
        invariant forall k, d :: 0 <= k < i && d in destinations[selected[k]] ==> host.connects(d)
      {
        var own := destinations[selected[i]];
        for j := 0 to |own|
          invariant forall k :: 0 <= k < j ==> host.connects(own[k])
        {
          if !host.connects(own[j]) {
            return Some(NotConnected(own[j]));
          }
        }
      }
    }
    return None;
  }

  // ----- What a run does, by the declarations -----

  /** Everything a run is about, as declared and given: no graph is derived from it yet. */
  datatype Declaration = Declaration(inputs: Graph<Key>, plans: Plans, selected: seq<Key>, publishing: bool,
                                     acquires: Key -> bool, publish: Ref -> Published, environment: Ref -> bool)

  predicate Publishes(d: Declaration, ref: Ref) {
    && ref.resource in d.selected && ref.resource in d.plans.destinations
    && ref.destination in d.plans.destinations[ref.resource]
  }

  /** One publication references another on its own destination, and both are selected. */
  predicate Needs(d: Declaration, ref: Ref, next: Ref) {
    && ref.resource in d.selected && next.resource in d.selected
    && next.destination == ref.destination && next.resource in References(d.plans, ref)
  }

  ghost predicate NeedsFailed(d: Declaration, ref: Ref, failed: set<Ref>) {
    exists next :: Needs(d, ref, next) && next in failed
  }

  /** A resource is ready when it acquires and everything it consumes is ready. */
  ghost predicate PreparesAsDeclared(d: Declaration, l: Ledger, key: Key) {
    && key in l.prepared
    && (l.prepared[key].ready <==>
          d.acquires(key) && forall k :: k in Next(d.inputs, key) ==> k in l.prepared && l.prepared[k].ready)
  }

  /** A provider is called unless the resource is not ready, something needed failed, or only
      publishing could evaluate its metadata; it fails by itself or for one of the first two. */
  ghost predicate PublishesAsDeclared(d: Declaration, l: Ledger, ref: Ref) {
    var ready := ref.resource in l.prepared && l.prepared[ref.resource].ready;
    var held := d.publishing && NeedsFailed(d, ref, l.failed);
    var tried := d.publishing || !d.environment(ref);
    && (ref in l.called <==> ready && !held && tried)
    && (ref in l.failed <==> !ready || held || (tried && d.publish(ref) != Succeeded))
  }

  /** A row names the producers that were not ready, and is in error when its resource or one
      of its publications failed. */
  ghost predicate ReportsAsDeclared(d: Declaration, l: Ledger, row: Row) {
    && row.key in l.prepared
    && (forall k :: k in row.blockedBy <==> k in Next(d.inputs, row.key) && k in l.prepared && !l.prepared[k].ready)
    && (row.error <==> !l.prepared[row.key].ready || exists name :: Ref(row.key, name) in l.failed)
    && (forall name :: Mentions(row, name) <==>
          Publishes(d, Ref(row.key, name)) && l.prepared[row.key].ready
            && (d.publishing || Ref(row.key, name) in l.failed))
    && (forall i :: 0 <= i < |row.destinations| ==>
          (row.destinations[i].ok <==> Ref(row.key, row.destinations[i].name) !in l.failed))
  }

  /** The order of calls: while publishing, everything needed was called before. */
  ghost predicate CallsAsDeclared(d: Declaration, l: Ledger, i: nat)
    requires i < |l.called|
  {
    && Publishes(d, l.called[i]) && l.called[i] !in l.called[..i]
    && (d.publishing ==> forall next :: Needs(d, l.called[i], next) ==> next in l.called[..i] && next !in l.failed)
  }

  ghost predicate RunsAsDeclared(d: Declaration, l: Ledger) {
    && (forall key :: key in d.selected ==> PreparesAsDeclared(d, l, key))
    && (forall ref :: Publishes(d, ref) ==> PublishesAsDeclared(d, l, ref))
    && (forall row :: row in l.rows ==> ReportsAsDeclared(d, l, row))
    && (forall i :: 0 <= i < |l.called| ==> CallsAsDeclared(d, l, i))
    && (forall ref, next :: Publishes(d, ref) && Needs(d, ref, next) ==> Publishes(d, next))
  }

  /** The execution's requirements are the references among selected publications. */
  ghost predicate KeepsReferences(d: Declaration, c: Config) {
    && c.publishing == d.publishing && c.selected == d.selected && c.producers == d.inputs
    && c.acquires == d.acquires && c.publish == d.publish && c.environment == d.environment
    && (forall ref :: IsRef(c, ref) <==> Publishes(d, ref))
    && (forall ref, next :: Publishes(d, ref) ==> (next in Next(c.requires_, ref) <==> Needs(d, ref, next)))
  }

  lemma RestrictKeepsReferences(d: Declaration, evaluated: Plans, graph: Graph<Ref>, c: Config)
    requires c.publishing == d.publishing && c.selected == d.selected && c.producers == d.inputs
    requires c.acquires == d.acquires && c.publish == d.publish && c.environment == d.environment
    requires Elements(d.selected) <= evaluated.destinations.Keys <= d.plans.destinations.Keys
    requires forall key :: key in evaluated.destinations ==> evaluated.destinations[key] == d.plans.destinations[key]
    requires evaluated.references == d.plans.references
    requires c.destinations == map key | key in d.selected :: d.plans.destinations[key]
    requires graph.Keys == Nodes(evaluated) && forall ref :: ref in graph ==> EdgesOf(evaluated, ref, graph[ref])
    requires c.requires_ == Restrict(graph, d.selected)
    ensures KeepsReferences(d, c)
  {
    hide SelectedOnly;
    assert forall key :: key in d.selected ==> key in Elements(d.selected);
    forall ref, next | Publishes(d, ref) ensures next in Next(c.requires_, ref) <==> Needs(d, ref, next) {
      assert ref == Ref(ref.resource, ref.destination);
      assert ref in Nodes(evaluated) && EdgesOf(evaluated, ref, graph[ref]);
    }
  }

  lemma RunIsDeclared(d: Declaration, c: Config, order: seq<Ref>, l: Ledger)
    requires ValidConfig(c, order) && KeepsReferences(d, c) && Inv(c, l) && EverythingHandled(c, l)
    ensures RunsAsDeclared(d, l)
  {
    hide ValidConfig, Counted, Reported, RowsMatch, PublishesAsDeclared, PublishedRight, Needs, Publishes;
    NeededIsPublished(d, c, order);
    forall key | key in d.selected ensures PreparesAsDeclared(d, l, key) {
      assert PreparedRight(c, l, key);
    }
    assert forall ref :: ref in l.reconciled ==> Publishes(d, ref);
    forall ref | Publishes(d, ref) ensures PublishesAsDeclared(d, l, ref) {
      assert IsRef(c, ref);
      assert ref == Ref(ref.resource, ref.destination) && ref in l.reconciled;
      PublishedIsDeclared(d, c, l, ref);
    }
    forall row | row in l.rows ensures ReportsAsDeclared(d, l, row) {
      assert RowRight(c, l, row) && Lists(c, l, row);
      forall name ensures Publishes(d, Ref(row.key, name)) <==> Ref(row.key, name) in l.reconciled {
        assert IsRef(c, Ref(row.key, name)) <==> Publishes(d, Ref(row.key, name));
      }
    }
    forall i | 0 <= i < |l.called| ensures CallsAsDeclared(d, l, i) {
      assert l.called[i] in l.called;
      assert c.publishing ==> CalledInOrder(c, l, i);
    }
  }

  lemma NeededIsPublished(d: Declaration, c: Config, order: seq<Ref>)
    requires ValidConfig(c, order) && KeepsReferences(d, c)
    ensures forall ref, next :: Publishes(d, ref) && Needs(d, ref, next) ==> Publishes(d, next)
  {
    hide Needs, Publishes;
    assert forall ref, next :: Publishes(d, ref) && Needs(d, ref, next) ==> next in Next(c.requires_, ref);
  }

  lemma PublishedIsDeclared(d: Declaration, c: Config, l: Ledger, ref: Ref)
    requires KeepsReferences(d, c) && Publishes(d, ref) && PublishedRight(c, l, ref)
    ensures PublishesAsDeclared(d, l, ref)
  {
    hide Needs, Publishes;
    assert HeldBack(c, l, ref) <==> d.publishing && NeedsFailed(d, ref, l.failed);
  }

  /** A chain of declared references among selected publications. */
  predicate IsChain(d: Declaration, path: seq<Ref>) {
    path != [] && forall i :: 0 <= i < |path| - 1 ==> Needs(d, path[i], path[i + 1])
  }

  lemma ChainRest(d: Declaration, path: seq<Ref>)
    requires IsChain(d, path) && |path| > 1
    ensures Needs(d, path[0], path[1]) && IsChain(d, path[1..])
  {
    hide Needs;
    var rest := path[1..];
    forall i | 0 <= i < |rest| - 1 ensures Needs(d, rest[i], rest[i + 1]) {
      assert Needs(d, path[i + 1], path[i + 1 + 1]);
    }
  }

  /** While publishing, a provider is called only after everything its publication needs,
      directly or through others, was called and succeeded. */
  lemma {:induction false} CalledAfterAllNeeded(d: Declaration, l: Ledger, i: nat, path: seq<Ref>)
    requires RunsAsDeclared(d, l) && d.publishing && i < |l.called|
    requires IsChain(d, path) && path[0] == l.called[i] && |path| > 1
    ensures path[|path| - 1] in l.called[..i] && path[|path| - 1] !in l.failed
    decreases |path|
  {
    hide Needs, Publishes;
    assert CallsAsDeclared(d, l, i) && Needs(d, path[0], path[1]);
    var j :| 0 <= j < i && l.called[j] == path[1];
    if |path| > 2 {
      ChainRest(d, path);
      CalledAfterAllNeeded(d, l, j, path[1..]);
      assert l.called[..j] <= l.called[..i];
    }
  }

  /** While publishing, whatever needs a failed publication, directly or through others, fails. */
  lemma {:induction false} FailureReachesWhatNeedsIt(d: Declaration, l: Ledger, path: seq<Ref>)
    requires RunsAsDeclared(d, l) && d.publishing && IsChain(d, path)
    requires Publishes(d, path[0]) && path[|path| - 1] in l.failed
    ensures path[0] in l.failed && (|path| > 1 ==> path[0] !in l.called)
    decreases |path|
  {
    hide Needs, Publishes;
    if |path| > 1 {
      ChainRest(d, path);
      FailureReachesWhatNeedsIt(d, l, path[1..]);
      assert Needs(d, path[0], path[1]) && Publishes(d, path[0]);
      assert NeedsFailed(d, path[0], l.failed) && PublishesAsDeclared(d, l, path[0]);
    }
  }

  /** Discovery, the checks of graph and host, and the run, end to end: there is a run exactly
      when the selection is runnable, and otherwise the error names the reason. */
  method RunSelected(catalog: Catalog, roots: seq<Key>, p: Plans, host: Host, publishing: bool, acquires: Key -> bool,
                     publish: Ref -> Published, environment: Ref -> bool)
    returns (r: Result<Execution, RunError>)
    requires ValidCatalog(catalog) && Elements(roots) <= catalog.declared && catalog.declared <= p.destinations.Keys
    requires EachOnce(p.destinations)
    ensures r.Success? <==> Runnable(catalog, roots, p, host, publishing)
    ensures r.Success? ==>
              && r.value.Valid() && EverythingHandled(r.value.c, r.value.Now())
              && OncePerResource(r.value.c, r.value.rows) && OncePerResource(r.value.c, r.value.finished)
              && (forall row <- r.value.finished :: row in r.value.rows)
              && (forall key :: key in r.value.c.selected <==> ReachedFrom(catalog.inputs, Elements(roots), key))
              && RunsAsDeclared(Declaration(catalog.inputs, p, r.value.c.selected, publishing, acquires, publish,
                                            environment), r.value.Now())
    ensures r.Failure? ==> Explains(catalog, roots, p, host, publishing, r.error)
  {
    hide ReachedFrom, OnCycle, Postorder, ClosedUnder, OncePerResource, EverythingHandled, Inv, RunsAsDeclared, EdgesOf;
    hide Discoverable, Unevaluable, PeerReached, AllResolvable, Acyclic, Nodes, DeclaredGraph, Accepted, EachOnce;
    var found, plans, selected := DiscoverClosure(catalog, roots, true);
    if found.Cycle? {
      return Failure(InputCycle(found.at));
    }
    if found.Broken? {
      return Failure(Rejected(found.at));
    }
    TheSelection(catalog, roots, selected);
    AcceptedInParts(host, selected, p.destinations, publishing);
    var refused := CheckResources(host, selected, publishing);
    if refused.Some? {
      return Failure(refused.value);
    }
    var evaluated := Plans(map key | key in plans :: p.destinations[key], p.references);
    assert evaluated == Evaluated(catalog, roots, p);
    var checked, order := CheckReferences(evaluated);
    if checked.Failure? {
      return Failure(checked.error);
    }
    refused := CheckPublications(host, selected, p.destinations, publishing);
    if refused.Some? {
      return Failure(refused.value);
    }
    if !host.locks(set key | key in selected) {
      return Failure(NotLocked);
    }
    var execution := RunGraph(catalog, selected, p, evaluated, checked.value, order, publishing, acquires, publish,
      environment);
    return Success(execution);
  }

  /** No resource names a destination twice. */
  predicate EachOnce(destinations: map<Key, seq<string>>) {
    forall key, i, j :: key in destinations && 0 <= i < j < |destinations[key]| ==>
      destinations[key][i] != destinations[key][j]
  }

  lemma TheSelection(catalog: Catalog, roots: seq<Key>, selected: seq<Key>)
    requires forall key :: key in selected <==> ReachedFrom(catalog.inputs, Elements(roots), key)
    ensures IsSelection(catalog, roots, Elements(selected)) && Elements(selected) == set key | key in selected
    ensures forall other :: IsSelection(catalog, roots, other) ==> other == Elements(selected)
  {
    hide ReachedFrom;
    forall other | IsSelection(catalog, roots, other) ensures other == Elements(selected) {
      assert forall key :: key in other <==> key in Elements(selected);
    }
  }

  lemma AcceptedInParts(host: Host, selected: seq<Key>, destinations: map<Key, seq<string>>, publishing: bool)
    requires Elements(selected) <= destinations.Keys
    ensures Accepted(host, Elements(selected), destinations, publishing) <==>
              && (forall key <- selected :: host.supports(key) && (publishing ==> host.hasIcon(key)))
              && (forall key, d :: key in selected && d in destinations[key] ==>
                    host.validates(Ref(key, d)) && (publishing ==> host.connects(d)))
              && host.locks(Elements(selected))
  {
    assert forall key :: key in selected <==> key in Elements(selected);
  }

  /** The execution over the selected resources, with the graph restricted to them. */
  method RunGraph(catalog: Catalog, selected: seq<Key>, p: Plans, evaluated: Plans, graph: Graph<Ref>,
                  ghost order: seq<Ref>, publishing: bool,
                  acquires: Key -> bool, publish: Ref -> Published, environment: Ref -> bool)
    returns (execution: Execution)
    requires Postorder(catalog.inputs, selected)
    requires Elements(selected) <= evaluated.destinations.Keys <= p.destinations.Keys
    requires forall key :: key in evaluated.destinations ==> evaluated.destinations[key] == p.destinations[key]
    requires EachOnce(p.destinations)
    requires graph.Keys == Nodes(evaluated) && ClosedUnder(graph, Nodes(evaluated)) && Postorder(graph, order)
    requires Elements(order) == Nodes(evaluated) && evaluated.references == p.references
    requires forall ref :: ref in graph ==> EdgesOf(evaluated, ref, graph[ref])
    ensures RunsAsDeclared(Declaration(catalog.inputs, p, selected, publishing, acquires, publish, environment),
              execution.Now())
    ensures execution.Valid() && execution.c.selected == selected && EverythingHandled(execution.c, execution.Now())
    ensures OncePerResource(execution.c, execution.rows) && OncePerResource(execution.c, execution.finished)
    ensures forall row <- execution.finished :: row in execution.rows
  {
    hide Postorder, ValidConfig, ClosedUnder, OncePerResource, EverythingHandled, Inv, Nodes, EdgesOf, RunsAsDeclared,
      KeepsReferences, Restrict;
    assert forall key :: key in selected ==> key in Elements(selected);
    var destinations := map key | key in selected :: p.destinations[key];
    var c := Config(publishing, selected, catalog.inputs, destinations, Restrict(graph, selected), acquires, publish,
      environment);
    RankSurvivesSelection(evaluated, graph, order, c);
    var d := Declaration(catalog.inputs, p, selected, publishing, acquires, publish, environment);
    RestrictKeepsReferences(d, evaluated, graph, c);
    execution := new Execution(c, order);
    execution.Run();
    RunIsDeclared(d, c, order, execution.Now());
  }

  method RefKeys(s: set<Ref>) returns (keys: seq<Ref>)
    ensures Elements(keys) == s
  {
    keys := [];
    var rest := s;
    while rest != {}
      invariant rest <= s && Elements(keys) == s - rest
    {
      var x :| x in rest;
      assert Elements(keys + [x]) == Elements(keys) + {x};
      rest, keys := rest - {x}, keys + [x];
    }
  }
}
