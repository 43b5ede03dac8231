/**
 The depth-first walks of the engine (internal/engine/resources.go, visit in
 discoverClosure; internal/engine/composition.go, visit in checkAcyclic) and the
 reachability they compute.
 */
module EngineGraph {
  import Sets

  // ----- Reachability -----

  type Graph<T> = map<T, seq<T>>

  function Next<T>(g: Graph<T>, x: T): seq<T> {
    if x in g then g[x] else []
  }

  predicate IsPath<T(==)>(g: Graph<T>, path: seq<T>) {
    path != [] && forall i :: 0 <= i < |path| - 1 ==> path[i + 1] in Next(g, path[i])
  }

  predicate Leads<T(==)>(g: Graph<T>, path: seq<T>, x: T, y: T) {
    IsPath(g, path) && path[0] == x && path[|path| - 1] == y
  }

  ghost predicate Reaches<T(!new)>(g: Graph<T>, x: T, y: T) {
    exists path :: Leads(g, path, x, y)
  }

  ghost predicate OnCycle<T(!new)>(g: Graph<T>, x: T) {
    exists y :: y in Next(g, x) && Reaches(g, y, x)
  }

  ghost predicate ReachedFrom<T(!new)>(g: Graph<T>, roots: set<T>, y: T) {
    exists x :: x in roots && Reaches(g, x, y)
  }

  predicate ClosedUnder<T(==)>(g: Graph<T>, s: set<T>) {
    forall x :: x in s ==> forall i :: 0 <= i < |Next(g, x)| ==> Next(g, x)[i] in s
  }

  lemma ReachesSelf<T(!new)>(g: Graph<T>, x: T)
    ensures Reaches(g, x, x)
  {
    assert Leads(g, [x], x, x);
  }

  lemma ReachesStep<T(!new)>(g: Graph<T>, x: T, y: T, z: T)
    requires y in Next(g, x) && Reaches(g, y, z)
    ensures Reaches(g, x, z)
  {
    var path :| Leads(g, path, y, z);
    assert Leads(g, [x] + path, x, z);
  }

  lemma ReachesOn<T(!new)>(g: Graph<T>, x: T, y: T, z: T)
    requires Reaches(g, x, y) && z in Next(g, y)
    ensures Reaches(g, x, z)
  {
    var path :| Leads(g, path, x, y);
    assert Leads(g, path + [z], x, z);
  }

  lemma {:induction false} PathStays<T(!new)>(g: Graph<T>, s: set<T>, path: seq<T>)
    requires ClosedUnder(g, s) && IsPath(g, path) && path[0] in s
    ensures path[|path| - 1] in s
    decreases |path|
  {
    if |path| > 1 {
      assert path[1] in Next(g, path[0]);
      PathStays(g, s, path[1..]);
    }
  }

  lemma ClosedContainsReached<T(!new)>(g: Graph<T>, s: set<T>, x: T, y: T)
    requires ClosedUnder(g, s) && x in s && Reaches(g, x, y)
    ensures y in s
  {
    var path :| Leads(g, path, x, y);
    PathStays(g, s, path);
  }

  // ----- Postorder -----

  /** Every successor of an element comes before it. */
  predicate Postorder<T(==)>(g: Graph<T>, ordered: seq<T>) {
    && (forall i, j :: 0 <= i < j < |ordered| ==> ordered[i] != ordered[j])
    && forall i, k :: 0 <= i < |ordered| && 0 <= k < |Next(g, ordered[i])| ==> Next(g, ordered[i])[k] in ordered[..i]
  }

  function Elements<T>(s: seq<T>): set<T> {
    set x | x in s
  }

  function IndexOf<T(==)>(ordered: seq<T>, x: T): (i: nat)
    requires x in ordered
    ensures i < |ordered| && ordered[i] == x
  {
    if ordered[0] == x then 0 else 1 + IndexOf(ordered[1..], x)
  }

  /** The position in a postorder is a rank that every edge lowers. */
  lemma PostorderRanks<T(!new)>(g: Graph<T>, ordered: seq<T>, x: T, y: T)
    requires Postorder(g, ordered) && x in ordered && y in Next(g, x)
    ensures y in ordered && IndexOf(ordered, y) < IndexOf(ordered, x)
  {
    var k :| 0 <= k < |Next(g, x)| && Next(g, x)[k] == y;
    var i := IndexOf(ordered, x);
    assert Next(g, ordered[i])[k] in ordered[..i];
    var j :| 0 <= j < i && ordered[j] == y;
  }

  lemma {:induction false} PathDescends<T(!new)>(g: Graph<T>, ordered: seq<T>, path: seq<T>)
    requires Postorder(g, ordered) && IsPath(g, path) && path[0] in ordered
    ensures path[|path| - 1] in ordered
    ensures IndexOf(ordered, path[|path| - 1]) <= IndexOf(ordered, path[0])
    decreases |path|
  {
    if |path| > 1 {
      PostorderRanks(g, ordered, path[0], path[1]);
      PathDescends(g, ordered, path[1..]);
    }
  }

  lemma PostorderHasNoCycle<T(!new)>(g: Graph<T>, ordered: seq<T>, x: T)
    requires Postorder(g, ordered) && x in ordered
    ensures !OnCycle(g, x)
  {
    if OnCycle(g, x) {
      var y :| y in Next(g, x) && Reaches(g, y, x);
      PostorderRanks(g, ordered, x, y);
      var path :| Leads(g, path, y, x);
      PathDescends(g, ordered, path);
    }
  }

  // ----- The walk -----

  datatype Outcome<T> = Fine | Cycle(at: T) | Broken(at: T)

  /** The nodes on the stack form a path; those done form a postorder beside it. */
  ghost predicate Consistent<T(!new)>(g: Graph<T>, broken: set<T>, universe: set<T>, active: set<T>, done: set<T>,
                                      ordered: seq<T>, stack: seq<T>)
  {
    && ClosedUnder(g, universe)
    && active == Elements(stack) && done == Elements(ordered)
    && active + done <= universe && active !! done && active + done !! broken
    && (stack != [] ==> IsPath(g, stack))
    && Postorder(g, ordered)
  }

  lemma Enters<T(!new)>(g: Graph<T>, broken: set<T>, universe: set<T>, active: set<T>, done: set<T>,
                        ordered: seq<T>, stack: seq<T>, key: T)
    requires Consistent(g, broken, universe, active, done, ordered, stack)
    requires key in universe && key !in active + done + broken
    requires stack != [] ==> key in Next(g, stack[|stack| - 1])
    ensures Consistent(g, broken, universe, active + {key}, done, ordered, stack + [key])
    ensures key !in stack
  {
    hide Postorder, ClosedUnder;
    PathGrows(g, stack, key);
    hide IsPath, Next;
    assert Elements(stack + [key]) == Elements(stack) + {key};
  }

  lemma EntersFewer<T(!new)>(g: Graph<T>, broken: set<T>, universe: set<T>, active: set<T>, done: set<T>,
                             ordered: seq<T>, stack: seq<T>, key: T)
    requires Consistent(g, broken, universe, active, done, ordered, stack) && key in universe && key !in active + done
    ensures |universe - (active + {key}) - done| < |universe - active - done|
    ensures forall i :: 0 <= i < |Next(g, key)| ==> Next(g, key)[i] in universe
  {
    assert key in universe - active - done;
    Sets.Smaller(universe - (active + {key}) - done, universe - active - done);
  }

  lemma PathGrows<T(!new)>(g: Graph<T>, stack: seq<T>, key: T)
    requires stack != [] ==> IsPath(g, stack) && key in Next(g, stack[|stack| - 1])
    ensures IsPath(g, stack + [key])
  {}

  lemma PathShrinks<T(!new)>(g: Graph<T>, stack: seq<T>, key: T)
    requires IsPath(g, stack + [key]) && stack != []
    ensures IsPath(g, stack)
  {
    assert forall i :: 0 <= i < |stack| ==> (stack + [key])[i] == stack[i];
  }

  lemma Leaves<T(!new)>(g: Graph<T>, broken: set<T>, universe: set<T>, active: set<T>, done: set<T>,
                        ordered: seq<T>, stack: seq<T>, key: T)
    requires Consistent(g, broken, universe, active, done, ordered, stack + [key])
    requires key !in stack && forall j :: 0 <= j < |Next(g, key)| ==> Next(g, key)[j] in done
    ensures Consistent(g, broken, universe, active - {key}, done + {key}, ordered + [key], stack)
  {
    assert Elements(stack + [key]) == Elements(stack) + {key};
    assert Elements(ordered + [key]) == Elements(ordered) + {key};
    assert key !in Elements(ordered);
    PostorderGrows(g, ordered, key);
    if stack != [] {
      PathShrinks(g, stack, key);
    }
  }

  /** An active node is on the stack, so an edge back to it closes a cycle. */
  lemma ActiveCycles<T(!new)>(g: Graph<T>, broken: set<T>, universe: set<T>, active: set<T>, done: set<T>,
                              ordered: seq<T>, stack: seq<T>, key: T)
    requires Consistent(g, broken, universe, active, done, ordered, stack) && key in active
    requires stack != [] ==> key in Next(g, stack[|stack| - 1])
    ensures OnCycle(g, key)
  {
    assert key in Elements(stack);
    var i :| 0 <= i < |stack| && stack[i] == key;
    if i == |stack| - 1 {
      ReachesSelf(g, key);
    } else {
      assert stack[i + 1] in Next(g, key);
      assert Leads(g, stack[i + 1..] + [key], stack[i + 1], key);
    }
  }

  lemma FewerLeft<T>(universe: set<T>, active: set<T>, before: set<T>, done: set<T>)
    requires before <= done
    ensures |universe - active - done| <= |universe - active - before|
  {
    Sets.NotLarger(universe - active - done, universe - active - before);
  }

  ghost predicate AllReached<T(!new)>(g: Graph<T>, key: T, before: set<T>, after: set<T>) {
    forall x :: x in after && x !in before ==> Reaches(g, key, x)
  }

  lemma ReachedNothing<T(!new)>(g: Graph<T>, key: T, done: set<T>)
    ensures AllReached(g, key, done, done)
  {}

  lemma ReachedMore<T(!new)>(g: Graph<T>, key: T, via: T, before: set<T>, mid: set<T>, after: set<T>)
    requires via == key || via in Next(g, key)
    requires AllReached(g, key, before, mid)
    requires AllReached(g, via, mid, after) || after == mid + {key}
    ensures AllReached(g, key, before, after)
  {
    ReachesSelf(g, key);
    forall x | x in after && x !in before ensures Reaches(g, key, x) {
      if x !in mid && x != key && via != key {
        ReachesStep(g, key, via, x);
      }
    }
  }

  /** Reachability and cycles depend on which edges there are, not on their order. */
  lemma SameEdges<T(!new)>(g: Graph<T>, h: Graph<T>)
    requires forall x, y :: y in Next(g, x) <==> y in Next(h, x)
    ensures forall x, y :: Reaches(g, x, y) <==> Reaches(h, x, y)
    ensures forall x :: OnCycle(g, x) <==> OnCycle(h, x)
  {
    forall x, y ensures Reaches(g, x, y) <==> Reaches(h, x, y) {
      if path :| Leads(g, path, x, y) {
        assert Leads(h, path, x, y);
      }
      if path :| Leads(h, path, x, y) {
        assert Leads(g, path, x, y);
      }
    }
    hide Reaches, Next;
  }

  class Walk<T(==,!new)> {
    const g: Graph<T>
    const broken: set<T>
    ghost const universe: set<T>
    var active: set<T>
    var done: set<T>
    var ordered: seq<T>
    ghost var stack: seq<T>

    ghost predicate Valid()
      reads this
    {
      Consistent(g, broken, universe, active, done, ordered, stack)
    }

    constructor (g: Graph<T>, broken: set<T>, ghost universe: set<T>)
      requires ClosedUnder(g, universe)
      ensures Valid() && this.g == g && this.broken == broken && this.universe == universe
      ensures stack == [] && ordered == [] && done == {}
    {
      this.g, this.broken, this.universe := g, broken, universe;
      active, done, ordered, stack := {}, {}, [], [];
    }

    /** What a finished visit of `key` added. */
    ghost predicate Grew(key: T, before: seq<T>, finished: set<T>)
      reads this
    {
      before <= ordered && finished + {key} <= done && AllReached(g, key, finished, done)
    }

    method Visit(key: T) returns (r: Outcome<T>)
      requires Valid() && key in universe
      requires stack != [] ==> key in Next(g, stack[|stack| - 1])
      modifies this
      ensures r.Fine? ==> Valid() && stack == old(stack) && active == old(active) && Grew(key, old(ordered), old(done))
      ensures r.Cycle? ==> OnCycle(g, r.at) && Reaches(g, key, r.at)
      ensures r.Broken? ==> r.at in broken && Reaches(g, key, r.at)
      decreases |universe - active - done|, 0
    {
      ReachesSelf(g, key);
      ReachedNothing(g, key, done);
      hide Consistent, Next, Reaches, OnCycle, AllReached;
      if key in active {
        ActiveCycles(g, broken, universe, active, done, ordered, stack, key);
        return Cycle(key);
      }
      if key in done {
        return Fine;
      }
      if key in broken {
        return Broken(key);
      }
      EntersFewer(g, broken, universe, active, done, ordered, stack, key);
      Enters(g, broken, universe, active, done, ordered, stack, key);
      ghost var outer, finished := stack, done;
      active, stack := active + {key}, stack + [key];
      r := VisitInputs(key);
      if r.Fine? {
        ReachedMore(g, key, key, finished, done, done + {key});
        Leave(key, outer);
      }
    }

    /** Ends the visit of the node on top of the stack. */
    method Leave(key: T, ghost outer: seq<T>)
      requires Valid() && stack == outer + [key] && key !in outer
      requires forall j :: 0 <= j < |Next(g, key)| ==> Next(g, key)[j] in done
      modifies this
      ensures Valid() && stack == outer && active == old(active) - {key}
      ensures done == old(done) + {key} && ordered == old(ordered) + [key]
    {
      hide Consistent, Next;
      Leaves(g, broken, universe, active, done, ordered, outer, key);
      active, done, ordered, stack := active - {key}, done + {key}, ordered + [key], outer;
    }

    /** The loop over the successors of the node on top of the stack. */
    method VisitInputs(key: T) returns (r: Outcome<T>)
      requires Valid() && stack != [] && stack[|stack| - 1] == key
      requires forall i :: 0 <= i < |Next(g, key)| ==> Next(g, key)[i] in universe
      modifies this
      ensures r.Fine? ==> Valid() && stack == old(stack) && active == old(active)
      ensures r.Fine? ==> old(ordered) <= ordered && old(done) <= done && AllReached(g, key, old(done), done)
      ensures r.Fine? ==> forall j :: 0 <= j < |Next(g, key)| ==> Next(g, key)[j] in done
      ensures r.Cycle? ==> OnCycle(g, r.at) && Reaches(g, key, r.at)
      ensures r.Broken? ==> r.at in broken && Reaches(g, key, r.at)
      decreases |universe - active - done|, 1
    {
      ReachedNothing(g, key, done);
      hide Consistent, Next, Reaches, OnCycle, AllReached;
      ghost var before, finished := ordered, done;
      var next := Next(g, key);
      r := Fine;
      for i := 0 to |next|
        invariant Valid() && stack == old(stack) && active == old(active)
        invariant before <= ordered && finished <= done && AllReached(g, key, finished, done)
        invariant r.Fine? && forall j :: 0 <= j < i ==> next[j] in done
      {
        ghost var soFar := done;
        FewerLeft(universe, active, finished, done);
        r := Visit(next[i]);
        if !r.Fine? {
          ReachesStep(g, key, next[i], r.at);
          return;
        }
        ReachedMore(g, key, next[i], finished, soFar, done);
      }
    }
  }

  lemma PostorderGrows<T(!new)>(g: Graph<T>, ordered: seq<T>, key: T)
    requires Postorder(g, ordered) && key !in ordered
    requires forall j :: 0 <= j < |Next(g, key)| ==> Next(g, key)[j] in ordered
    ensures Postorder(g, ordered + [key])
  {
    var all := ordered + [key];
    forall i, k | 0 <= i < |all| && 0 <= k < |Next(g, all[i])| ensures Next(g, all[i])[k] in all[..i] {
      assert all[..i] == ordered[..i];
    }
  }
}
