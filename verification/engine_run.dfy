/**
 The execution itself (internal/engine/run.go, destination.go): prepare and
 reconcile, which call each other down the input and publication graphs, and run.
 */
module EngineRun {
  import opened EngineGraph
  import opened EngineClosure
  import opened EngineExecution

  class Execution {
    const c: Config
    ghost const order: seq<Ref>
    var prepared: map<Key, Prepared>
    var rows: seq<Row>
    var pending: map<Key, int>
    var reconciled: set<Ref>
    var failed: set<Ref>
    var finished: seq<Row>
    var called: seq<Ref>

    /** Counts each resource's publications before anything runs. */
    constructor (c: Config, ghost order: seq<Ref>)
      requires ValidConfig(c, order)
      ensures this.c == c && this.order == order && Valid()
      ensures prepared == map[] && reconciled == {}
    {
      this.c, this.order := c, order;
      prepared, rows, reconciled, failed, finished, called := map[], [], {}, {}, [], [];
      pending := map key | key in c.destinations :: |c.destinations[key]|;
      new;
      forall key | key in c.selected
        ensures PendingOf(Now(), key) == |Refs(c, key)| && Refs(c, key) - {} == Refs(c, key)
      {
        DestinationsAreRefs(c, key);
      }
    }

    function Now(): Ledger
      reads this
    {
      Ledger(prepared, rows, pending, reconciled, failed, finished, called)
    }

    ghost predicate Valid()
      reads this
    {
      ValidConfig(c, order) && Inv(c, Now())
    }

    /** Hands a finished row to ResourceDone. */
    method Complete(row: Row)
      modifies this`finished
      ensures finished == old(finished) + [row]
    {
      finished := finished + [row];
    }

    /** Prepares a resource once, after the resources whose outputs it consumes. */
    method Prepare(key: Key)
      requires Valid() && key in c.selected
      modifies this`prepared, this`rows, this`finished
      ensures Valid() && key in prepared && PreparedBelow(c.selected, old(prepared).Keys, prepared.Keys, key, true)
      decreases IndexOf(c.selected, key)
    {
      hide Inv, ValidConfig, IndexOf, PreparedBelow;
      PreparesNothing(c.selected, prepared.Keys, key);
      if key in prepared {
        return;
      }
      var producers := Next(c.producers, key);
      for i := 0 to |producers|
        invariant Valid() && key !in prepared
        invariant PreparedBelow(c.selected, old(prepared).Keys, prepared.Keys, key, false)
        invariant forall j :: 0 <= j < i ==> producers[j] in prepared
      {
        ghost var before := prepared.Keys;
        ProducerIsLower(c, order, key, producers[i]);
        Prepare(producers[i]);
        PreparesMore(c.selected, old(prepared).Keys, before, prepared.Keys, producers[i], key);
      }
      PreparesItself(c.selected, old(prepared).Keys, prepared.Keys, key);
      ghost var others := prepared.Keys;
      PrepareOwn(key);
      assert prepared.Keys == others + {key};
    }

    /** The rest of prepare, once every producer is prepared. */
    method PrepareOwn(key: Key)
      requires Valid() && key in c.selected && key !in prepared
      requires forall i :: 0 <= i < |Next(c.producers, key)| ==> Next(c.producers, key)[i] in prepared
      modifies this`prepared, this`rows, this`finished
      ensures Valid() && Now() == PrepareStep(c, old(Now()), key)
    {
      hide Inv, ValidConfig;
      ghost var before := Now();
      SelectedHasDestinations(c, order, key);
      PrepareKeeps(c, before, key);
      var blocked := BlockedBy(Now(), Next(c.producers, key));
      var ready := blocked == [] && c.acquires(key);
      var row := Row(key, !ready, blocked, []);
      prepared, rows := prepared[key := Prepared(|rows|, ready)], rows + [row];
      if !ready || PendingOf(Now(), key) == 0 {
        Complete(rows[prepared[key].report]);
      }
      assert finished == before.finished + if !ready || PendingOf(before, key) == 0 then [row] else [];
      assert Now() == PrepareStep(c, before, key);
    }

    /** Reconciles a publication once, after those it requires and its resource. */
    method Reconcile(ref: Ref)
      requires Valid() && IsRef(c, ref)
      modifies this
      ensures Valid() && ref in reconciled && old(prepared).Keys <= prepared.Keys
      ensures ReconciledBelow(order, old(reconciled), reconciled, ref)
      decreases if ref in order then IndexOf(order, ref) else |order|
    {
      hide Inv, ValidConfig, IndexOf, Lower, ReconciledBelow;
      ReconcilesNothing(order, reconciled, ref);
      if ref in reconciled {
        return;
      }
      RefIsRanked(c, order, ref);
      var required := Next(c.requires_, ref);
      for i := 0 to |required|
        invariant Valid() && ref !in reconciled && ReconciledBelow(order, old(reconciled), reconciled, ref)
        invariant old(prepared).Keys <= prepared.Keys
        invariant forall j :: 0 <= j < i ==> required[j] in reconciled
      {
        RequiredIsLower(c, order, ref, required[i]);
        ghost var before := reconciled;
        Reconcile(required[i]);
        ReconcilesMore(order, old(reconciled), before, reconciled, required[i], ref);
      }
      PreparedBelowGrows(c.selected, ref.resource);
      Prepare(ref.resource);
      ReconcilesItself(order, old(reconciled), reconciled, ref);
      ReconcileKeeps(c, Now(), ref);
      Publish(ref);
    }

    /** The rest of reconcile, once everything the publication waits for is done. */
    method Publish(ref: Ref)
      requires Valid() && Ready(c, Now(), ref)
      requires RowsMatch(Now()) && Inv(c, ReconcileStep(c, Now(), ref))
      modifies this
      ensures Now() == ReconcileStep(c, old(Now()), ref) && Valid() && reconciled == old(reconciled) + {ref}
      ensures prepared == old(prepared)
    {
      hide Inv, ValidConfig, Ready, Calls, Fails;
      ghost var before := Now();
      PreparedHasRow(c, before, ref);
      var result := prepared[ref.resource];
      reconciled := reconciled + {ref};
      if !result.ready {
        failed := failed + {ref};
        return;
      }
      var item, failure := Attempt(ref, rows[result.report], before);
      if failure {
        failed := failed + {ref};
      }
      rows := rows[result.report := item];
      pending := pending[ref.resource := PendingOf(Now(), ref.resource) - 1];
      if pending[ref.resource] == 0 {
        Complete(item);
      }
    }

    /** Calls the provider unless something required failed, and reports the outcome. */
    method Attempt(ref: Ref, row: Row, ghost before: Ledger) returns (item: Row, failure: bool)
      requires Now() == before.(reconciled := before.reconciled + {ref})
      requires ref.resource in before.prepared && before.prepared[ref.resource].ready
      modifies this`called
      ensures failure == Fails(c, before, ref) && item == ReconciledRow(c, before, ref, row)
      ensures called == if Calls(c, before, ref) then before.called + [ref] else before.called
    {
      item := row;
      failure := c.publishing && exists i :: 0 <= i < |Next(c.requires_, ref)| && Next(c.requires_, ref)[i] in failed;
      if !failure && (c.publishing || !c.environment(ref)) {
        called := called + [ref];
        var outcome := c.publish(ref);
        failure := outcome != Succeeded;
        if c.publishing && outcome != FailedEarly {
          item := item.(destinations := item.destinations + [DestinationReport(ref.destination, outcome == Succeeded)]);
        }
      }
      if failure {
        if |item.destinations| == |row.destinations| {
          item := item.(destinations := item.destinations + [DestinationReport(ref.destination, false)]);
        }
        item := item.(error := true);
      }
    }

    /** Prepares every selected resource and reconciles its publications. */
    method Run()
      requires Valid()
      modifies this
      ensures Valid() && EverythingHandled(c, Now())
      ensures OncePerResource(c, rows) && OncePerResource(c, finished)
      ensures forall i :: 0 <= i < |finished| ==> finished[i] in rows
    {
      hide Inv, ValidConfig;
      for i := 0 to |c.selected|
        invariant Valid()
        invariant forall j :: 0 <= j < i ==> Handled(c.selected[j])
      {
        var key := c.selected[i];
        SelectedHasDestinations(c, order, key);
        if c.destinations[key] == [] {
          Prepare(key);
        }
        var names := c.destinations[key];
        for k := 0 to |names|
          invariant Valid() && (names == [] ==> key in prepared)
          invariant forall j :: 0 <= j < k ==> Ref(key, names[j]) in reconciled
          invariant forall j :: 0 <= j < i ==> Handled(c.selected[j])
        {
          Reconcile(Ref(key, names[k]));
        }
        ReconciledIsPrepared(c, Now(), key);
      }
      ReportedExactlyOnce(c, Now());
    }

    ghost predicate Handled(key: Key)
      reads this
    {
      && key in prepared && key in c.destinations
      && forall d :: d in c.destinations[key] ==> Ref(key, d) in reconciled
    }
  }

  /** Preparing `key` prepares only resources up to it in the closure order. */
  ghost predicate PreparedBelow(selected: seq<Key>, before: set<Key>, after: set<Key>, key: Key, inclusive: bool) {
    && before <= after && key in selected
    && forall k :: k in after && k !in before ==>
         k in selected && (IndexOf(selected, k) < IndexOf(selected, key) || (inclusive && k == key))
  }

  lemma PreparesNothing(selected: seq<Key>, keys: set<Key>, key: Key)
    requires key in selected
    ensures PreparedBelow(selected, keys, keys, key, true) && PreparedBelow(selected, keys, keys, key, false)
  {}

  lemma PreparesMore(selected: seq<Key>, start: set<Key>, before: set<Key>, after: set<Key>, producer: Key, key: Key)
    requires PreparedBelow(selected, start, before, key, false) && key !in before
    requires PreparedBelow(selected, before, after, producer, true)
    requires IndexOf(selected, producer) < IndexOf(selected, key)
    ensures PreparedBelow(selected, start, after, key, false) && key !in after && before <= after
  {}

  lemma PreparesItself(selected: seq<Key>, start: set<Key>, before: set<Key>, key: Key)
    requires PreparedBelow(selected, start, before, key, false)
    ensures PreparedBelow(selected, start, before + {key}, key, true)
  {}

  lemma PreparedBelowGrows(selected: seq<Key>, key: Key)
    ensures forall before, after :: PreparedBelow(selected, before, after, key, true) ==> before <= after
  {}

  /** Reconciling `ref` reconciles only publications that rank below it, and itself. */
  ghost predicate ReconciledBelow(order: seq<Ref>, before: set<Ref>, after: set<Ref>, ref: Ref) {
    before <= after && forall r :: r in after && r !in before ==> r == ref || Lower(order, r, ref)
  }

  lemma ReconcilesNothing(order: seq<Ref>, reconciled: set<Ref>, ref: Ref)
    ensures ReconciledBelow(order, reconciled, reconciled, ref)
  {}

  lemma ReconcilesMore(order: seq<Ref>, start: set<Ref>, before: set<Ref>, after: set<Ref>, next: Ref, ref: Ref)
    requires ReconciledBelow(order, start, before, ref) && ref !in before
    requires ReconciledBelow(order, before, after, next) && Lower(order, next, ref)
    ensures ReconciledBelow(order, start, after, ref) && ref !in after && before <= after
  {}

  lemma ReconcilesItself(order: seq<Ref>, start: set<Ref>, before: set<Ref>, ref: Ref)
    requires ReconciledBelow(order, start, before, ref)
    ensures ReconciledBelow(order, start, before + {ref}, ref)
  {}

  function FirstRefs(key: Key, names: seq<string>, n: nat): set<Ref>
    requires n <= |names|
  {
    set i | 0 <= i < n :: Ref(key, names[i])
  }

  lemma {:induction false} DistinctRefs(key: Key, names: seq<string>, n: nat)
    requires n <= |names| && forall i, j :: 0 <= i < j < |names| ==> names[i] != names[j]
    ensures |FirstRefs(key, names, n)| == n
  {
    if n > 0 {
      DistinctRefs(key, names, n - 1);
      assert FirstRefs(key, names, n) == FirstRefs(key, names, n - 1) + {Ref(key, names[n - 1])};
    }
  }

  lemma DestinationsAreRefs(c: Config, key: Key)
    requires key in c.destinations
    requires forall i, j :: 0 <= i < j < |c.destinations[key]| ==> c.destinations[key][i] != c.destinations[key][j]
    ensures |Refs(c, key)| == |c.destinations[key]|
  {
    DistinctRefs(key, c.destinations[key], |c.destinations[key]|);
    assert Refs(c, key) == FirstRefs(key, c.destinations[key], |c.destinations[key]|);
  }

  lemma ProducerIsLower(c: Config, order: seq<Ref>, key: Key, producer: Key)
    requires ValidConfig(c, order) && key in c.selected && producer in Next(c.producers, key)
    ensures producer in c.selected && IndexOf(c.selected, producer) < IndexOf(c.selected, key)
  {
    PostorderRanks(c.producers, c.selected, key, producer);
  }

  lemma SelectedHasDestinations(c: Config, order: seq<Ref>, key: Key)
    requires ValidConfig(c, order) && key in c.selected
    ensures key in c.destinations
  {}

  lemma RefIsRanked(c: Config, order: seq<Ref>, ref: Ref)
    requires ValidConfig(c, order) && IsRef(c, ref)
    ensures ref in order
  {}

  lemma RequiredIsLower(c: Config, order: seq<Ref>, ref: Ref, next: Ref)
    requires ValidConfig(c, order) && IsRef(c, ref) && next in Next(c.requires_, ref)
    ensures IsRef(c, next) && next in order && ref in order && IndexOf(order, next) < IndexOf(order, ref)
    ensures Lower(order, next, ref)
  {}

  lemma PreparedHasRow(c: Config, l: Ledger, ref: Ref)
    requires RowsMatch(l) && Ready(c, l, ref)
    ensures ref.resource in l.prepared && l.prepared[ref.resource].report < |l.rows|
  {}

  lemma ReconciledIsPrepared(c: Config, l: Ledger, key: Key)
    requires Inv(c, l) && key in c.destinations
    ensures c.destinations[key] != [] && Ref(key, c.destinations[key][0]) in l.reconciled ==> key in l.prepared
  {}

  // ----- What a run promises -----

  /** Exactly one row for every selected resource. */
  ghost predicate OncePerResource(c: Config, rows: seq<Row>) {
    && (forall i :: 0 <= i < |rows| ==> rows[i].key in c.selected)
    && (forall key :: key in c.selected ==> exists i :: 0 <= i < |rows| && rows[i].key == key)
    && (forall i, j :: 0 <= i < j < |rows| ==> rows[i].key != rows[j].key)
  }

  ghost predicate EverythingHandled(c: Config, l: Ledger) {
    forall key :: key in c.selected ==>
      key in l.prepared && key in c.destinations && forall d :: d in c.destinations[key] ==> Ref(key, d) in l.reconciled
  }

  /** Whatever fails, every selected resource has one row and one ResourceDone call,
      and that call received the row as it stands in the final report. */
  lemma ReportedExactlyOnce(c: Config, l: Ledger)
    requires Inv(c, l) && EverythingHandled(c, l)
    ensures OncePerResource(c, l.rows) && OncePerResource(c, l.finished)
    ensures forall i :: 0 <= i < |l.finished| ==> l.finished[i] in l.rows
  {
    forall key | key in c.selected ensures exists i :: 0 <= i < |l.finished| && l.finished[i].key == key {
      assert Over(c, l, key);
    }
    forall i | 0 <= i < |l.finished| ensures l.finished[i].key in c.selected {
      assert Over(c, l, l.finished[i].key);
    }
    forall key | key in c.selected ensures exists i :: 0 <= i < |l.rows| && l.rows[i].key == key {
      assert l.rows[l.prepared[key].report].key == key;
    }
  }

  /** In plan and apply a provider is called only after everything its publication
      requires, directly or through others, was called and succeeded. */
  lemma {:induction false} CalledAfterAllRequired(c: Config, l: Ledger, i: nat, path: seq<Ref>)
    requires Inv(c, l) && c.publishing && i < |l.called|
    requires IsPath(c.requires_, path) && path[0] == l.called[i] && |path| > 1
    ensures path[|path| - 1] in l.called[..i] && path[|path| - 1] in l.reconciled && path[|path| - 1] !in l.failed
    decreases |path|
  {
    hide Inv;
    assert path[1] in Next(c.requires_, path[0]);
    var j := CalledBefore(c, l, i, path[1]);
    if |path| > 2 {
      CalledAfterAllRequired(c, l, j, path[1..]);
      assert l.called[..j] <= l.called[..i];
    }
  }

  lemma CalledBefore(c: Config, l: Ledger, i: nat, next: Ref) returns (j: nat)
    requires Inv(c, l) && c.publishing && i < |l.called| && next in Next(c.requires_, l.called[i])
    ensures j < i && l.called[j] == next && next in l.reconciled && next !in l.failed
  {
    assert CalledInOrder(c, l, i);
    j :| 0 <= j < i && l.called[j] == next;
    assert l.called[j] in l.called;
  }

  lemma RequiredOfSucceeded(c: Config, l: Ledger, ref: Ref, next: Ref)
    requires Inv(c, l) && c.publishing && ref in l.reconciled && next in Next(c.requires_, ref)
    ensures next in l.reconciled && (next in l.failed ==> ref in l.failed)
  {}

  /** Failure closes upward: what requires a failed publication fails as well. */
  lemma {:induction false} FailureClosesUpward(c: Config, l: Ledger, path: seq<Ref>)
    requires Inv(c, l) && c.publishing && IsPath(c.requires_, path)
    requires path[0] in l.reconciled && path[|path| - 1] in l.failed
    ensures path[0] in l.failed
    decreases |path|
  {
    hide Inv;
    if |path| > 1 {
      assert path[1] in Next(c.requires_, path[0]);
      RequiredOfSucceeded(c, l, path[0], path[1]);
      FailureClosesUpward(c, l, path[1..]);
    }
  }
}
