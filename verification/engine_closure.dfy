/**
 Which resources a run covers (internal/engine/resources.go, composition.go,
 changed.go, resolve.go): closure discovery, the publication graph's acyclicity
 check, and the two worklists over consumers.
 */
module EngineClosure {
  import Sets
  import opened EngineGraph

  type Key = string

  // ----- checkAcyclic -----

  /** Visits every node; success means acyclic, and leaves a rank behind. */
  method CheckAcyclic<T(==,!new)>(g: Graph<T>, nodes: seq<T>) returns (r: Outcome<T>, ghost order: seq<T>)
    requires ClosedUnder(g, Elements(nodes))
    ensures r.Fine? <==> forall x :: x in nodes ==> !OnCycle(g, x)
    ensures r.Fine? ==> Postorder(g, order) && Elements(order) == Elements(nodes)
    ensures !r.Fine? ==> r.Cycle? && OnCycle(g, r.at) && r.at in nodes
  {
    hide OnCycle, Reaches, Postorder, ClosedUnder;
    var walk := new Walk<T>(g, {}, Elements(nodes));
    for i := 0 to |nodes|
      invariant walk.Valid() && walk.stack == [] && walk.g == g && walk.universe == Elements(nodes) && walk.broken == {}
      invariant forall j :: 0 <= j < i ==> nodes[j] in walk.done
    {
      ghost var before := walk.done;
      r := walk.Visit(nodes[i]);
      if !r.Fine? {
        assert r.Cycle?;
        ClosedContainsReached(g, Elements(nodes), nodes[i], r.at);
        return r, [];
      }
    }
    order := walk.ordered;
    forall x | x in nodes ensures !OnCycle(g, x) {
      PostorderHasNoCycle(g, order, x);
    }
    return Fine, order;
  }

  // ----- discoverClosure -----

  function Declared(references: seq<Key>, declared: set<Key>): (kept: seq<Key>)
    ensures forall x :: x in kept <==> x in references && x in declared
  {
    if references == [] then []
    else (if references[0] in declared then [references[0]] else []) + Declared(references[1..], declared)
  }

  /** Publication references to resources the project declares. */
  function Peers(references: Graph<Key>, declared: set<Key>): Graph<Key> {
    map x | x in references :: Declared(references[x], declared)
  }

  /** The part of a catalog that discovery reads: resource inputs, publication
      references, what is declared, and what fails its own operation contract. */
  datatype Catalog = Catalog(inputs: Graph<Key>, references: Graph<Key>, declared: set<Key>, broken: set<Key>,
                             brokenPeers: set<Key>)

  ghost predicate ValidCatalog(c: Catalog) {
    ClosedUnder(c.inputs, c.declared)
  }

  /** The producers-first closure of the roots, or why there is none. */
  method VisitRoots(c: Catalog, roots: seq<Key>) returns (r: Outcome<Key>, ordered: seq<Key>)
    requires ValidCatalog(c) && Elements(roots) <= c.declared
    ensures r.Fine? ==>
              && Postorder(c.inputs, ordered) && Elements(ordered) <= c.declared - c.broken
              && (forall x :: x in ordered <==> ReachedFrom(c.inputs, Elements(roots), x))
              && (forall x :: x in ordered ==> !OnCycle(c.inputs, x))
    ensures r.Cycle? ==> OnCycle(c.inputs, r.at) && ReachedFrom(c.inputs, Elements(roots), r.at)
    ensures r.Broken? ==> r.at in c.broken && ReachedFrom(c.inputs, Elements(roots), r.at)
  {
    hide OnCycle, Reaches, ClosedUnder;
    var walk := new Walk<Key>(c.inputs, c.broken, c.declared);
    for i := 0 to |roots|
      invariant walk.Valid() && walk.stack == [] && walk.g == c.inputs && walk.universe == c.declared
      invariant walk.broken == c.broken
      invariant forall j :: 0 <= j < i ==> roots[j] in walk.done
      invariant forall x :: x in walk.done ==> ReachedFrom(c.inputs, Elements(roots), x)
    {
      assert roots[i] in Elements(roots);
      r := walk.Visit(roots[i]);
      if !r.Fine? {
        return r, [];
      }
    }
    ordered := walk.ordered;
    r := Fine;
    OrderedIsClosed(c.inputs, ordered);
    forall x | ReachedFrom(c.inputs, Elements(roots), x) ensures x in ordered {
      var root :| root in Elements(roots) && Reaches(c.inputs, root, x);
      ClosedContainsReached(c.inputs, Elements(ordered), root, x);
    }
    forall x | x in ordered ensures !OnCycle(c.inputs, x) {
      PostorderHasNoCycle(c.inputs, ordered, x);
    }
  }

  lemma OrderedIsClosed<T(!new)>(g: Graph<T>, ordered: seq<T>)
    requires Postorder(g, ordered)
    ensures ClosedUnder(g, Elements(ordered))
  {
    forall x, k | x in Elements(ordered) && 0 <= k < |Next(g, x)| ensures Next(g, x)[k] in Elements(ordered) {
      var i :| 0 <= i < |ordered| && ordered[i] == x;
      assert Next(g, ordered[i])[k] in ordered[..i];
    }
  }

  /** Everything already in the worklist's set is closed or still queued. */
  predicate Pending<T(==)>(g: Graph<T>, found: set<T>, queue: seq<T>) {
    forall x :: x in found && x !in queue ==> forall i :: 0 <= i < |Next(g, x)| ==> Next(g, x)[i] in found
  }

  ghost predicate AllFrom<T(!new)>(g: Graph<T>, seeds: set<T>, found: set<T>) {
    forall x :: x in found ==> ReachedFrom(g, seeds, x)
  }

  lemma SeedsAreReached<T(!new)>(g: Graph<T>, seeds: set<T>)
    ensures AllFrom(g, seeds, seeds)
  {
    forall x | x in seeds ensures ReachedFrom(g, seeds, x) {
      ReachesSelf(g, x);
    }
  }

  lemma FoundMore<T(!new)>(g: Graph<T>, seeds: set<T>, found: set<T>, x: T, y: T)
    requires AllFrom(g, seeds, found) && x in found && y in Next(g, x)
    ensures AllFrom(g, seeds, found + {y})
  {
    var s :| s in seeds && Reaches(g, s, x);
    ReachesOn(g, s, x, y);
  }

  lemma WorklistDone<T(!new)>(g: Graph<T>, seeds: set<T>, found: set<T>)
    requires AllFrom(g, seeds, found) && Pending(g, found, []) && seeds <= found
    ensures ClosedUnder(g, found) && forall x :: x in found <==> ReachedFrom(g, seeds, x)
  {
    forall x | ReachedFrom(g, seeds, x) ensures x in found {
      var s :| s in seeds && Reaches(g, s, x);
      ClosedContainsReached(g, found, s, x);
    }
  }

  /** Evaluates the references of one resource and queues what was new. */
  method EvaluateReferences(c: Catalog, key: Key, known: set<Key>, waiting: seq<Key>, ghost seeds: set<Key>)
    returns (r: Outcome<Key>, plans: set<Key>, queue: seq<Key>)
    requires key in known && known <= c.declared && AllFrom(Peers(c.references, c.declared), seeds, known)
    requires seeds <= known && (known - seeds) !! c.brokenPeers
    ensures r.Fine? ==>
              && known <= plans <= c.declared && (plans - seeds) !! c.brokenPeers
              && AllFrom(Peers(c.references, c.declared), seeds, plans)
              && waiting <= queue && Elements(queue) == Elements(waiting) + (plans - known)
              && (plans == known ==> queue == waiting)
              && forall i :: 0 <= i < |Next(Peers(c.references, c.declared), key)| ==>
                   Next(Peers(c.references, c.declared), key)[i] in plans
    ensures !r.Fine? ==>
              r.Broken? && r.at in c.brokenPeers - seeds && ReachedFrom(Peers(c.references, c.declared), seeds, r.at)
  {
    hide ReachedFrom, AllFrom;
    ghost var g := Peers(c.references, c.declared);
    plans, queue := known, waiting;
    var references := Next(c.references, key);
    assert forall x :: x in Next(g, key) <==> x in references && x in c.declared;
    for i := 0 to |references|
      invariant known <= plans <= c.declared && (plans - seeds) !! c.brokenPeers
      invariant waiting <= queue && Elements(queue) == Elements(waiting) + (plans - known)
      invariant plans == known ==> queue == waiting
      invariant AllFrom(g, seeds, plans)
      invariant forall j :: 0 <= j < i && references[j] in c.declared ==> references[j] in plans
    {
      var peer := references[i];
      if peer in plans || peer !in c.declared {
        continue;
      }
      FoundMore(g, seeds, plans, key, peer);
      if peer in c.brokenPeers {
        FoundIsReached(g, seeds, plans + {peer}, peer);
        return Broken(peer), plans, queue;
      }
      assert Elements(queue + [peer]) == Elements(queue) + {peer};
      plans, queue := plans + {peer}, queue + [peer];
    }
    forall i | 0 <= i < |Next(g, key)| ensures Next(g, key)[i] in plans {
      assert Next(g, key)[i] in references;
    }
    r := Fine;
  }

  lemma PendingNext<T(!new)>(g: Graph<T>, before: set<T>, after: set<T>, queue: seq<T>, grown: seq<T>)
    requires queue != [] && Pending(g, before, queue) && before <= after
    requires Elements(grown) == Elements(queue[1..]) + (after - before)
    requires forall i :: 0 <= i < |Next(g, queue[0])| ==> Next(g, queue[0])[i] in after
    ensures Pending(g, after, grown)
  {
    forall x, i | x in after && x !in grown && 0 <= i < |Next(g, x)| ensures Next(g, x)[i] in after {
      assert x !in Elements(queue[1..]) && x !in after - before;
      assert queue == [queue[0]] + queue[1..];
    }
  }

  /** Evaluates everything the closure publishes with, without running it. */
  method EvaluatePeers(c: Catalog, ordered: seq<Key>) returns (r: Outcome<Key>, plans: set<Key>)
    requires Elements(ordered) <= c.declared
    ensures r.Fine? ==>
              && ClosedUnder(Peers(c.references, c.declared), plans)
              && (forall x :: x in plans <==> ReachedFrom(Peers(c.references, c.declared), Elements(ordered), x))
              && (plans - Elements(ordered)) !! c.brokenPeers && plans <= c.declared
    ensures !r.Fine? ==>
              && r.Broken? && r.at in c.brokenPeers - Elements(ordered)
              && ReachedFrom(Peers(c.references, c.declared), Elements(ordered), r.at)
  {
    hide ReachedFrom, AllFrom, Peers;
    ghost var g, seeds := Peers(c.references, c.declared), Elements(ordered);
    plans := Elements(ordered);
    var queue := ordered;
    SeedsAreReached(g, seeds);
    while queue != []
      invariant seeds <= plans <= c.declared && (plans - seeds) !! c.brokenPeers && Elements(queue) <= plans
      invariant AllFrom(g, seeds, plans) && Pending(g, plans, queue)
      decreases |c.declared - plans|, |queue|
    {
      hide Pending;
      ghost var before, waiting := plans, queue;
      assert queue[0] in Elements(queue);
      assert Elements(queue[1..]) <= Elements(queue);
      r, plans, queue := EvaluateReferences(c, queue[0], plans, queue[1..], seeds);
      if !r.Fine? {
        return;
      }
      if plans != before {
        Fewer(c.declared, before, plans);
      }
      PendingNext(g, before, plans, waiting, queue);
    }
    WorklistDone(g, seeds, plans);
    r := Fine;
  }

  lemma FoundIsReached<T(!new)>(g: Graph<T>, seeds: set<T>, found: set<T>, x: T)
    requires AllFrom(g, seeds, found) && x in found
    ensures ReachedFrom(g, seeds, x)
  {}

  lemma Fewer<T>(universe: set<T>, before: set<T>, after: set<T>)
    requires before < after <= universe
    ensures |universe - after| < |universe - before|
  {
    assert universe - before == (universe - after) + (after - before) && before + (after - before) == after;
    Sets.Smaller(universe - after, universe - before);
  }

  /** Reached from the closure of the roots through publication references. */
  ghost predicate PeerReached(c: Catalog, roots: seq<Key>, x: Key) {
    exists y :: ReachedFrom(c.inputs, Elements(roots), y) && Reaches(Peers(c.references, c.declared), y, x)
  }

  /** Reached, and failing its own operation contract: in the closure, or only as a peer. */
  ghost predicate Unevaluable(c: Catalog, roots: seq<Key>, destinations: bool, x: Key) {
    || (x in c.broken && ReachedFrom(c.inputs, Elements(roots), x))
    || (destinations && x in c.brokenPeers && PeerReached(c, roots, x) && !ReachedFrom(c.inputs, Elements(roots), x))
  }

  ghost predicate Discoverable(c: Catalog, roots: seq<Key>, destinations: bool) {
    && (forall x :: ReachedFrom(c.inputs, Elements(roots), x) ==> !OnCycle(c.inputs, x))
    && (forall x :: !Unevaluable(c, roots, destinations, x))
  }

  lemma PeersOfClosure(c: Catalog, roots: seq<Key>, closure: set<Key>)
    requires forall x :: x in closure <==> ReachedFrom(c.inputs, Elements(roots), x)
    ensures forall x :: PeerReached(c, roots, x) <==> ReachedFrom(Peers(c.references, c.declared), closure, x)
  {
    hide Reaches, Peers;
    var g := Peers(c.references, c.declared);
    forall x ensures PeerReached(c, roots, x) <==> ReachedFrom(g, closure, x) {
      if y :| ReachedFrom(c.inputs, Elements(roots), y) && Reaches(g, y, x) {
        assert y in closure;
      }
      if ReachedFrom(g, closure, x) {
        var y :| y in closure && Reaches(g, y, x);
        assert ReachedFrom(c.inputs, Elements(roots), y);
      }
    }
  }

  /** The evaluated plans and the dependency-first run. It fails exactly at a reachable cycle
      or at something reached that cannot be evaluated. Peers are evaluated only for
      runs that use destinations, and never join the run. */
  method DiscoverClosure(c: Catalog, roots: seq<Key>, destinations: bool)
    returns (r: Outcome<Key>, plans: set<Key>, ordered: seq<Key>)
    requires ValidCatalog(c) && Elements(roots) <= c.declared
    ensures r.Fine? ==>
              && Postorder(c.inputs, ordered)
              && (forall x :: x in ordered <==> ReachedFrom(c.inputs, Elements(roots), x))
              && (forall x :: x in ordered ==> !OnCycle(c.inputs, x) && x !in c.broken)
              && Elements(ordered) <= plans <= c.declared
              && (if destinations then ClosedUnder(Peers(c.references, c.declared), plans)
                    else plans == Elements(ordered))
              && (forall x :: x in plans <==> if destinations then PeerReached(c, roots, x) else x in ordered)
    ensures r.Cycle? ==> OnCycle(c.inputs, r.at) && ReachedFrom(c.inputs, Elements(roots), r.at)
    ensures r.Broken? ==> Unevaluable(c, roots, destinations, r.at)
    ensures r.Fine? <==> Discoverable(c, roots, destinations)
  {
    hide ReachedFrom, OnCycle, Postorder, Peers, ClosedUnder, PeerReached;
    plans := {};
    r, ordered := VisitRoots(c, roots);
    if !r.Fine? {
      return;
    }
    assert Elements(ordered) == set x | x in ordered;
    PeersOfClosure(c, roots, Elements(ordered));
    plans := Elements(ordered);
    SeedsAreReached(Peers(c.references, c.declared), plans);
    if destinations {
      r, plans := EvaluatePeers(c, ordered);
      SeedsAreReached(Peers(c.references, c.declared), Elements(ordered));
    }
  }
}
