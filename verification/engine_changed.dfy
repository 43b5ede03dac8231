/**
 The closures over consumers (internal/engine/changed.go, changedSince;
 internal/engine/resolve.go, Dependents).
 */
module EngineChanged {
  import Sets
  import opened EngineGraph
  import opened EngineClosure

  // ----- changedSince -----

  /** `producers` lists what each resource consumes; a usable producer is declared and
      not suspended; `unreadable` resources have no preparation to compare. */
  datatype Project = Project(producers: Graph<Key>, usable: set<Key>, unreadable: set<Key>)

  /** The inputs a read follows. */
  function Followed(p: Project): Graph<Key> {
    map x | x in p.producers :: Declared(p.producers[x], p.usable)
  }

  predicate NeedsUnusable(p: Project, x: Key) {
    exists i :: 0 <= i < |Next(p.producers, x)| && Next(p.producers, x)[i] !in p.usable
  }

  /** Consumption between the resources that were read. */
  ghost predicate Consumes(p: Project, read: set<Key>, consumers: Graph<Key>) {
    forall x, y :: y in Next(consumers, x) <==> y in read && x in Next(p.producers, y)
  }

  /** What a read has recorded so far. */
  datatype Record = Record(current: set<Key>, consumers: Graph<Key>, affected: set<Key>)

  ghost predicate Grows(a: Record, b: Record) {
    && a.current <= b.current && a.affected <= b.affected
    && forall x, y :: y in Next(a.consumers, x) ==> y in Next(b.consumers, x)
  }

  /** A resource being read has registered the first `n` of its producers. */
  ghost predicate Registered(p: Project, r: Record, key: Key, n: nat) {
    n <= |Next(p.producers, key)| &&
    forall i :: 0 <= i < n ==>
      var producer := Next(p.producers, key)[i];
      && key in Next(r.consumers, producer)
      && (if producer in p.usable then producer in r.current else key in r.affected)
  }

  ghost predicate AllRegistered(p: Project, r: Record, except: set<Key>) {
    forall x :: x in r.current && x !in except ==> Registered(p, r, x, |Next(p.producers, x)|)
  }

  /** Nothing is recorded that a resource read from the roots does not justify. */
  ghost predicate Justified(p: Project, r: Record, roots: set<Key>) {
    && (forall x, y :: y in Next(r.consumers, x) ==> y in r.current && x in Next(p.producers, y))
    && (forall x :: x in r.affected ==> x in r.current && NeedsUnusable(p, x))
    && AllFrom(Followed(p), roots, r.current)
  }

  /** A resource that a read from the roots comes to has no preparation. */
  ghost predicate SomeUnreadable(p: Project, roots: set<Key>) {
    exists x :: x in p.unreadable && ReachedFrom(Followed(p), roots, x)
  }

  lemma GrowsTransitively(a: Record, b: Record, c: Record)
    requires Grows(a, b) && Grows(b, c)
    ensures Grows(a, c)
  {}

  lemma RegisteredGrows(p: Project, a: Record, b: Record, key: Key, n: nat)
    requires Registered(p, a, key, n) && Grows(a, b)
    ensures Registered(p, b, key, n)
  {}

  lemma AllRegisteredGrows(p: Project, a: Record, b: Record, before: set<Key>)
    requires AllRegistered(p, a, before) && Grows(a, b) && AllRegistered(p, b, a.current)
    ensures AllRegistered(p, b, before)
  {
    forall x | x in b.current && x !in before ensures Registered(p, b, x, |Next(p.producers, x)|) {
      if x in a.current {
        RegisteredGrows(p, a, b, x, |Next(p.producers, x)|);
      }
    }
  }

  lemma StartsReading(p: Project, r: Record, key: Key, roots: set<Key>)
    requires Justified(p, r, roots) && ReachedFrom(Followed(p), roots, key)
    ensures var s := r.(current := r.current + {key});
            && Grows(r, s) && Justified(p, s, roots) && AllRegistered(p, s, s.current) && Registered(p, s, key, 0)
  {}

  /** Registering one more producer; an unusable one keeps its consumer selected. */
  function Register(p: Project, r: Record, key: Key, producer: Key): Record {
    r.(consumers := r.consumers[producer := Next(r.consumers, producer) + [key]],
       affected := if producer in p.usable then r.affected else r.affected + {key})
  }

  lemma FollowsUsable(p: Project, r: Record, key: Key, producer: Key, roots: set<Key>)
    requires AllFrom(Followed(p), roots, r.current) && key in r.current
    requires producer in Next(p.producers, key) && producer in p.usable
    ensures ReachedFrom(Followed(p), roots, producer)
  {
    assert producer in Next(Followed(p), key);
    FoundMore(Followed(p), roots, r.current, key, producer);
    FoundIsReached(Followed(p), roots, r.current + {producer}, producer);
  }

  lemma Registers(p: Project, r: Record, key: Key, i: nat, roots: set<Key>)
    requires Justified(p, r, roots) && key in r.current && i < |Next(p.producers, key)|
    ensures var s := Register(p, r, key, Next(p.producers, key)[i]);
            && Grows(r, s) && Justified(p, s, roots) && s.current == r.current
            && key in Next(s.consumers, Next(p.producers, key)[i])
            && (Next(p.producers, key)[i] !in p.usable ==> key in s.affected)
            && (Next(p.producers, key)[i] in p.usable ==> ReachedFrom(Followed(p), roots, Next(p.producers, key)[i]))
  {
    hide AllFrom, ReachedFrom, Followed;
    var producer := Next(p.producers, key)[i];
    var s := Register(p, r, key, producer);
    assert Next(s.consumers, producer) == Next(r.consumers, producer) + [key];
    assert forall x :: x != producer ==> Next(s.consumers, x) == Next(r.consumers, x);
    if producer in p.usable {
      FollowsUsable(p, r, key, producer, roots);
    } else {
      assert NeedsUnusable(p, key);
    }
  }

  class Comparison {
    const project: Project
    var current: set<Key>
    var consumers: Graph<Key>
    var affected: set<Key>

    constructor (project: Project)
      ensures this.project == project && current == {} && consumers == map[] && affected == {}
    {
      this.project, current, consumers, affected := project, {}, map[], {};
    }

    function Now(): Record
      reads this
    {
      Record(current, consumers, affected)
    }

    /** Enters one resource as a consumer of another. */
    method RecordConsumer(key: Key, producer: Key)
      modifies this
      ensures Now() == Register(project, old(Now()), key, producer)
    {
      consumers := consumers[producer := Next(consumers, producer) + [key]];
      if producer !in project.usable {
        affected := affected + {key};
      }
    }

    /** Reads a resource and, first, everything it consumes. Cycles end at what was read. */
    method Read(key: Key, ghost roots: set<Key>, ghost universe: set<Key>) returns (ok: bool)
      requires Justified(project, Now(), roots) && ReachedFrom(Followed(project), roots, key)
      requires current <= universe && key in universe && project.usable <= universe
      modifies this
      ensures current <= universe && Justified(project, Now(), roots) && Grows(old(Now()), Now())
      ensures ok ==> key in current && AllRegistered(project, Now(), old(current))
      ensures !ok ==> SomeUnreadable(project, roots)
      ensures old(current) !! project.unreadable ==> current !! project.unreadable
      decreases |universe - current|
    {
      if key in current {
        return true;
      }
      if key in project.unreadable {
        return false;
      }
      hide Justified, Registered, ReachedFrom, SomeUnreadable;
      ghost var start := Now();
      StartsReading(project, start, key, roots);
      current := current + {key};
      Fewer(universe, start.current, current);
      var producers := Next(project.producers, key);
      for i := 0 to |producers|
        invariant key in current && current <= universe && Justified(project, Now(), roots)
        invariant Grows(start.(current := start.current + {key}), Now())
        invariant Registered(project, Now(), key, i)
        invariant AllRegistered(project, Now(), start.current + {key})
        invariant start.current !! project.unreadable ==> current !! project.unreadable
      {
        hide AllRegistered, Grows;
        var producer := producers[i];
        ghost var before := Now();
        Registers(project, before, key, i, roots);
        RecordConsumer(key, producer);
        ghost var mid := Now();
        if producer in project.usable {
          GrowsFewer(universe, start, key, mid);
          ok := Read(producer, roots, universe);
          if !ok {
            GrowsTransitively(start.(current := start.current + {key}), before, mid);
            GrowsTransitively(start.(current := start.current + {key}), mid, Now());
            GrowsTransitively(start, start.(current := start.current + {key}), Now());
            return;
          }
        }
        RegisterStep(project, before, mid, Now(), key, i, start);
      }
      LastRegistered(project, Now(), key, start);
      GrowsTransitively(start, start.(current := start.current + {key}), Now());
      return true;
    }
  }

  lemma GrowsFewer(universe: set<Key>, start: Record, key: Key, mid: Record)
    requires Grows(start.(current := start.current + {key}), mid)
    requires key !in start.current && mid.current <= universe
    ensures |universe - mid.current| < |universe - start.current|
  {
    Fewer(universe, start.current, mid.current);
  }

  lemma RegisterStep(p: Project, before: Record, mid: Record, after: Record, key: Key, i: nat, start: Record)
    requires Grows(before, mid) && Grows(mid, after) && Grows(start.(current := start.current + {key}), before)
    requires i < |Next(p.producers, key)| && Registered(p, before, key, i)
    requires key in Next(mid.consumers, Next(p.producers, key)[i])
    requires if Next(p.producers, key)[i] in p.usable then Next(p.producers, key)[i] in after.current
             else key in mid.affected
    requires AllRegistered(p, before, start.current + {key}) && mid.current == before.current
    requires AllRegistered(p, after, mid.current)
    ensures Registered(p, after, key, i + 1) && AllRegistered(p, after, start.current + {key})
    ensures Grows(start.(current := start.current + {key}), after)
  {
    GrowsTransitively(before, mid, after);
    GrowsTransitively(start.(current := start.current + {key}), before, after);
    RegisteredGrows(p, before, after, key, i);
    AllRegisteredGrows(p, before, after, start.current + {key});
  }

  lemma LastRegistered(p: Project, r: Record, key: Key, start: Record)
    requires Registered(p, r, key, |Next(p.producers, key)|) && AllRegistered(p, r, start.current + {key})
    ensures AllRegistered(p, r, start.current)
  {}

  /** The keys of a set, in any order. */
  method Keys(s: set<Key>) returns (keys: seq<Key>)
    ensures Elements(keys) == s
  {
    keys := [];
    var rest := s;
    while rest != {}
      invariant rest <= s && Elements(keys) == s - rest
    {
      var x :| x in rest;
      assert Elements(keys + [x]) == Elements(keys) + {x};
      rest, keys := rest - {x}, keys + [x];
    }
  }

  /** Marks the unmarked consumers of one resource and queues them. */
  method SpreadFrom(consumers: Graph<Key>, key: Key, known: set<Key>, waiting: seq<Key>, ghost seeds: set<Key>)
    returns (affected: set<Key>, queue: seq<Key>)
    requires key in known && AllFrom(consumers, seeds, known)
    ensures known <= affected && AllFrom(consumers, seeds, affected)
    ensures Elements(queue) == Elements(waiting) + (affected - known) && (affected == known ==> queue == waiting)
    ensures forall i :: 0 <= i < |Next(consumers, key)| ==> Next(consumers, key)[i] in affected
    ensures forall x :: x in affected - known ==> x in Next(consumers, key)
  {
    hide AllFrom;
    affected, queue := known, waiting;
    var next := Next(consumers, key);
    for i := 0 to |next|
      invariant known <= affected && AllFrom(consumers, seeds, affected)
      invariant Elements(queue) == Elements(waiting) + (affected - known) && (affected == known ==> queue == waiting)
      invariant forall j :: 0 <= j < i ==> next[j] in affected
      invariant forall x :: x in affected - known ==> x in next
    {
      if next[i] !in affected {
        FoundMore(consumers, seeds, affected, key, next[i]);
        assert Elements(queue + [next[i]]) == Elements(queue) + {next[i]};
        affected, queue := affected + {next[i]}, queue + [next[i]];
      }
    }
  }

  /** Adds every consumer of an affected resource until none is left. */
  method Spread(consumers: Graph<Key>, seeds: set<Key>, ghost read: set<Key>) returns (affected: set<Key>)
    requires seeds <= read && forall x, y :: y in Next(consumers, x) ==> y in read
    ensures affected <= read && forall x :: x in affected <==> ReachedFrom(consumers, seeds, x)
  {
    hide ReachedFrom, AllFrom;
    affected := seeds;
    var queue := Keys(seeds);
    SeedsAreReached(consumers, seeds);
    while queue != []
      invariant seeds <= affected <= read && Elements(queue) <= affected
      invariant AllFrom(consumers, seeds, affected) && Pending(consumers, affected, queue)
      decreases |read - affected|, |queue|
    {
      hide Pending;
      ghost var before, waiting := affected, queue;
      assert queue[0] in Elements(queue) && Elements(queue[1..]) <= Elements(queue);
      affected, queue := SpreadFrom(consumers, queue[0], affected, queue[1..], seeds);
      if affected != before {
        Fewer(read, before, affected);
      }
      PendingNext(consumers, before, affected, waiting, queue);
    }
    WorklistDone(consumers, seeds, affected);
  }

  /** What a complete read from the roots has recorded. */
  lemma ReadIsComplete(p: Project, r: Record, roots: set<Key>)
    requires Justified(p, r, roots) && AllRegistered(p, r, {}) && roots <= r.current
    ensures forall x :: x in r.current <==> ReachedFrom(Followed(p), roots, x)
    ensures Consumes(p, r.current, r.consumers)
    ensures forall x :: x in r.affected <==> x in r.current && NeedsUnusable(p, x)
  {
    forall x, i | x in r.current && 0 <= i < |Next(Followed(p), x)| ensures Next(Followed(p), x)[i] in r.current {
      assert Registered(p, r, x, |Next(p.producers, x)|);
      var y := Next(Followed(p), x)[i];
      assert y in Next(p.producers, x) && y in p.usable;
    }
    WorklistDone(Followed(p), roots, r.current);
    forall x, y | y in r.current && x in Next(p.producers, y) ensures y in Next(r.consumers, x) {
      assert Registered(p, r, y, |Next(p.producers, y)|);
    }
    forall x | x in r.current && NeedsUnusable(p, x) ensures x in r.affected {
      assert Registered(p, r, x, |Next(p.producers, x)|);
    }
  }

  /** A resource against its state at the base: new, prepared otherwise or with a changed
      input; the same; or not comparable, when the base's preparation cannot be read or an
      input cannot be examined. */
  datatype Compared = Differs | Same | Fails

  /** Why there is no answer: something reached has no preparation, the lock file does not
      match what was read, or something read cannot be compared. */
  ghost predicate Incomparable(p: Project, roots: set<Key>, locked: set<Key> -> bool, compare: Key -> Compared) {
    || SomeUnreadable(p, roots)
    || exists read :: IsClosure(p, roots, read) && (!locked(read) || exists x :: x in read && compare(x) == Fails)
  }

  ghost predicate IsClosure(p: Project, roots: set<Key>, read: set<Key>) {
    forall x :: x in read <==> ReachedFrom(Followed(p), roots, x)
  }

  /** The resources read from the roots that differ from the base, that need something
      unusable, or that consume such a resource, directly or not. */
  method ChangedSince(p: Project, roots: seq<Key>, locked: set<Key> -> bool, compare: Key -> Compared)
    returns (ok: bool, affected: set<Key>, ghost read: set<Key>, ghost consumers: Graph<Key>)
    ensures ok <==> !Incomparable(p, Elements(roots), locked, compare)
    ensures ok ==>
              && IsClosure(p, Elements(roots), read)
              && Consumes(p, read, consumers) && affected <= read
              && forall x :: x in affected <==>
                   ReachedFrom(consumers, (set y | y in read && (compare(y) == Differs || NeedsUnusable(p, y))), x)
  {
    hide ReachedFrom, Consumes, NeedsUnusable, SomeUnreadable;
    var c := new Comparison(p);
    affected, read, consumers := {}, {}, map[];
    assert Justified(p, c.Now(), Elements(roots));
    for i := 0 to |roots|
      invariant c.project == p && Justified(p, c.Now(), Elements(roots)) && AllRegistered(p, c.Now(), {})
      invariant c.current <= Elements(roots) + p.usable && c.current !! p.unreadable
      invariant forall j :: 0 <= j < i ==> roots[j] in c.current
    {
      hide Justified, AllRegistered;
      assert ReachedFrom(Followed(p), Elements(roots), roots[i]) by { RootIsReached(Followed(p), roots, i); }
      ghost var before := c.Now();
      ok := c.Read(roots[i], Elements(roots), Elements(roots) + p.usable);
      if !ok {
        return;
      }
      AllRegisteredGrows(p, before, c.Now(), {});
    }
    read, consumers := c.current, c.consumers;
    ReadIsComplete(p, c.Now(), Elements(roots));
    assert IsClosure(p, Elements(roots), c.current);
    NothingUnreadable(p, Elements(roots), c.current);
    OneClosure(p, Elements(roots), c.current);
    ok := false;
    if !locked(c.current) || exists x :: x in c.current && compare(x) == Fails {
      return;
    }
    var seeds := c.affected + set x | x in c.current && compare(x) == Differs;
    ok := true;
    assert seeds == set y | y in read && (compare(y) == Differs || NeedsUnusable(p, y));
    affected := Spread(c.consumers, seeds, c.current);
  }

  lemma NothingUnreadable(p: Project, roots: set<Key>, read: set<Key>)
    requires IsClosure(p, roots, read) && read !! p.unreadable
    ensures !SomeUnreadable(p, roots)
  {
    hide ReachedFrom;
  }

  lemma OneClosure(p: Project, roots: set<Key>, read: set<Key>)
    requires IsClosure(p, roots, read)
    ensures forall other :: IsClosure(p, roots, other) ==> other == read
  {
    hide ReachedFrom;
    forall other | IsClosure(p, roots, other) ensures other == read {
      assert forall x :: x in other <==> x in read;
    }
  }

  lemma RootIsReached(g: Graph<Key>, roots: seq<Key>, i: nat)
    requires i < |roots|
    ensures ReachedFrom(g, Elements(roots), roots[i])
  {
    ReachesSelf(g, roots[i]);
    assert roots[i] in Elements(roots);
  }

  // ----- Dependents -----

  datatype CandidateResource = CandidateResource(producers: seq<Key>, skipped: bool)

  class Candidate {
    const resources: map<Key, CandidateResource>
    var seen: set<Key>

    constructor (resources: map<Key, CandidateResource>)
      ensures this.resources == resources
    {
      this.resources := resources;
    }

    /** Consumers by producer; skipped consumers are left out. */
    method Consumers() returns (consumers: Graph<Key>)
      ensures forall x, y :: y in Next(consumers, x) <==>
                y in resources && !resources[y].skipped && x in resources[y].producers
    {
      consumers := map[];
      var names := resources.Keys;
      while names != {}
        invariant names <= resources.Keys
        invariant forall x, y :: y in Next(consumers, x) <==>
                    y in resources.Keys - names && !resources[y].skipped && x in resources[y].producers
        decreases |names|
      {
        var name :| name in names;
        ghost var before := consumers;
        if !resources[name].skipped {
          var producers := resources[name].producers;
          for i := 0 to |producers|
            invariant forall x, y :: y in Next(consumers, x) <==>
                      y in Next(before, x) || (y == name && x in producers[..i])
          {
            ghost var last := consumers;
            consumers := consumers[producers[i] := Next(consumers, producers[i]) + [name]];
            assert forall x :: x != producers[i] ==> Next(consumers, x) == Next(last, x);
            assert producers[..i + 1] == producers[..i] + [producers[i]];
          }
          assert producers[..|producers|] == producers;
        }
        names := names - {name};
      }
    }

    ghost predicate Expanded(consumers: Graph<Key>, x: Key)
      reads this
    {
      forall i :: 0 <= i < |Next(consumers, x)| ==> Next(consumers, x)[i] in seen
    }

    /** Marks every consumer of `key` that is not marked yet, and theirs. */
    method Visit(consumers: Graph<Key>, key: Key, ghost from: set<Key>)
      requires forall x, y :: y in Next(consumers, x) ==> y in resources
      requires seen <= resources.Keys && AllFrom(consumers, from, seen)
      requires forall i :: 0 <= i < |Next(consumers, key)| ==> ReachedFrom(consumers, from, Next(consumers, key)[i])
      modifies this
      ensures old(seen) <= seen <= resources.Keys && AllFrom(consumers, from, seen)
      ensures Expanded(consumers, key)
      ensures forall x :: x in seen && x !in old(seen) ==> Expanded(consumers, x)
      decreases |resources.Keys - seen|
    {
      hide ReachedFrom, AllFrom;
      ghost var start := seen;
      var next := Next(consumers, key);
      for i := 0 to |next|
        invariant start <= seen <= resources.Keys && AllFrom(consumers, from, seen)
        invariant forall j :: 0 <= j < i ==> next[j] in seen
        invariant forall x :: x in seen && x !in start ==> Expanded(consumers, x)
      {
        var consumer := next[i];
        if consumer !in seen {
          ghost var before := seen;
          MarksReached(consumers, from, seen, consumer);
          seen := seen + {consumer};
          Fewer(resources.Keys, before, seen);
          FewerOrSame(resources.Keys, start, before);
          SuccessorsReached(consumers, from, consumer);
          Visit(consumers, consumer, from);
        }
      }
    }

    /** Every resource that consumes the key's outputs, directly or through others; the
        key itself only when a cycle leads back to it. */
    method Dependents(key: Key) returns (dependents: set<Key>, ghost consumers: Graph<Key>)
      modifies this
      ensures forall x, y :: y in Next(consumers, x) <==>
                y in resources && !resources[y].skipped && x in resources[y].producers
      ensures forall x :: x in dependents <==> ReachedFrom(consumers, Elements(Next(consumers, key)), x)
      ensures key in dependents <==> OnCycle(consumers, key)
    {
      var byProducer := Consumers();
      consumers := byProducer;
      ghost var from := Elements(Next(consumers, key));
      seen := {};
      SeedsAreReached(consumers, from);
      assert forall i :: 0 <= i < |Next(consumers, key)| ==> Next(consumers, key)[i] in from;
      Visit(byProducer, key, from);
      WorklistDone(consumers, from, seen);
      dependents := seen;
    }
  }

  lemma MarksReached(g: Graph<Key>, from: set<Key>, found: set<Key>, x: Key)
    requires AllFrom(g, from, found) && ReachedFrom(g, from, x)
    ensures AllFrom(g, from, found + {x})
  {}

  lemma SuccessorsReached(g: Graph<Key>, from: set<Key>, x: Key)
    requires ReachedFrom(g, from, x)
    ensures forall i :: 0 <= i < |Next(g, x)| ==> ReachedFrom(g, from, Next(g, x)[i])
  {
    forall i | 0 <= i < |Next(g, x)| ensures ReachedFrom(g, from, Next(g, x)[i]) {
      var s :| s in from && Reaches(g, s, x);
      ReachesOn(g, s, x, Next(g, x)[i]);
    }
  }

  lemma FewerOrSame(universe: set<Key>, before: set<Key>, after: set<Key>)
    requires before <= after <= universe
    ensures |universe - after| <= |universe - before|
  {
    Sets.NotLarger(universe - after, universe - before);
  }
}
