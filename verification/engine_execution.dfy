/**
 One run over the selected resources (internal/engine/run.go, destination.go): each
 resource is prepared once after its producers, each publication reconciled once
 after those it requires, and each resource reported exactly once. Acquisition,
 preparation and providers are arbitrary functions; the run is not interrupted.
 */
module EngineExecution {
  import opened EngineGraph
  import opened EngineClosure

  datatype Ref = Ref(resource: Key, destination: string)

  /** How a provider call ends: publishTo appends its own report only once it got as
      far as planning. */
  datatype Published = Succeeded | FailedReported | FailedEarly

  datatype DestinationReport = DestinationReport(name: string, ok: bool)

  datatype Row = Row(key: Key, error: bool, blockedBy: seq<Key>, destinations: seq<DestinationReport>)

  datatype Prepared = Prepared(report: nat, ready: bool)

  /** What a run starts from. `selected` is the closure, producers first; `requires`
      are the publication references among selected resources. */
  datatype Config = Config(publishing: bool, selected: seq<Key>, producers: Graph<Key>,
                           destinations: map<Key, seq<string>>, requires_: Graph<Ref>, acquires: Key -> bool,
                           publish: Ref -> Published, environment: Ref -> bool)

  /** The fields of an execution. `finished` are the rows handed to ResourceDone and
      `called` the publications whose provider was called, both in order. */
  datatype Ledger = Ledger(prepared: map<Key, Prepared>, rows: seq<Row>, pending: map<Key, int>, reconciled: set<Ref>,
                           failed: set<Ref>, finished: seq<Row>, called: seq<Ref>)

  function Refs(c: Config, key: Key): set<Ref>
    requires key in c.destinations
  {
    set d | d in c.destinations[key] :: Ref(key, d)
  }

  predicate IsRef(c: Config, ref: Ref) {
    ref.resource in c.selected && ref.resource in c.destinations && ref.destination in c.destinations[ref.resource]
  }

  ghost predicate ValidConfig(c: Config, order: seq<Ref>) {
    && Postorder(c.producers, c.selected)
    && (forall key :: key in c.selected ==> key in c.destinations)
    && (forall key, i, j :: key in c.destinations && 0 <= i < j < |c.destinations[key]| ==>
          c.destinations[key][i] != c.destinations[key][j])
    && (forall ref :: IsRef(c, ref) ==> ref in order)
    && (forall ref, next :: IsRef(c, ref) && next in Next(c.requires_, ref) ==>
          IsRef(c, next) && Lower(order, next, ref))
  }

  ghost predicate Lower(order: seq<Ref>, a: Ref, b: Ref) {
    a in order && b in order && IndexOf(order, a) < IndexOf(order, b)
  }

  // ----- The steps -----

  function PendingOf(l: Ledger, key: Key): int {
    if key in l.pending then l.pending[key] else 0
  }

  function BlockedBy(l: Ledger, producers: seq<Key>): seq<Key>
    requires forall i :: 0 <= i < |producers| ==> producers[i] in l.prepared
  {
    if producers == [] then []
    else (if l.prepared[producers[0]].ready then [] else [producers[0]]) + BlockedBy(l, producers[1..])
  }

  /** Preparing one resource whose producers were prepared. */
  function PrepareStep(c: Config, l: Ledger, key: Key): Ledger
    requires forall i :: 0 <= i < |Next(c.producers, key)| ==> Next(c.producers, key)[i] in l.prepared
  {
    var blocked := BlockedBy(l, Next(c.producers, key));
    var ready := blocked == [] && c.acquires(key);
    var row := Row(key, !ready, blocked, []);
    l.(prepared := l.prepared[key := Prepared(|l.rows|, ready)], rows := l.rows + [row],
       finished := l.finished + if !ready || PendingOf(l, key) == 0 then [row] else [])
  }

  predicate RequiredFailed(c: Config, l: Ledger, ref: Ref) {
    exists i :: 0 <= i < |Next(c.requires_, ref)| && Next(c.requires_, ref)[i] in l.failed
  }

  predicate Calls(c: Config, l: Ledger, ref: Ref) {
    !(c.publishing && RequiredFailed(c, l, ref)) && (c.publishing || !c.environment(ref))
  }

  predicate Fails(c: Config, l: Ledger, ref: Ref) {
    (c.publishing && RequiredFailed(c, l, ref)) || (Calls(c, l, ref) && c.publish(ref) != Succeeded)
  }

  /** The row after one publication: a failure that reported nothing is reported here. */
  function ReconciledRow(c: Config, l: Ledger, ref: Ref, row: Row): Row {
    var own := if c.publishing && Calls(c, l, ref) && c.publish(ref) != FailedEarly
               then [DestinationReport(ref.destination, c.publish(ref) == Succeeded)] else [];
    var reported := if Fails(c, l, ref) && own == [] then [DestinationReport(ref.destination, false)] else own;
    row.(destinations := row.destinations + reported, error := row.error || Fails(c, l, ref))
  }

  /** Reconciling one publication whose requirements were reconciled. */
  function ReconcileStep(c: Config, l: Ledger, ref: Ref): Ledger
    requires ref.resource in l.prepared && l.prepared[ref.resource].report < |l.rows|
  {
    var prepared := l.prepared[ref.resource];
    var marked := l.(reconciled := l.reconciled + {ref});
    if !prepared.ready then marked.(failed := l.failed + {ref})
    else
      var row := ReconciledRow(c, l, ref, l.rows[prepared.report]);
      var left := PendingOf(l, ref.resource) - 1;
      marked.(rows := l.rows[prepared.report := row],
              failed := if Fails(c, l, ref) then l.failed + {ref} else l.failed,
              called := if Calls(c, l, ref) then l.called + [ref] else l.called,
              pending := l.pending[ref.resource := left],
              finished := if left == 0 then l.finished + [row] else l.finished)
  }

  // ----- The invariant -----

  /** Every prepared resource has one row, and its index points at it. */
  predicate RowsMatch(l: Ledger) {
    && (forall key :: key in l.prepared ==>
          l.prepared[key].report < |l.rows| && l.rows[l.prepared[key].report].key == key)
    && (forall i :: 0 <= i < |l.rows| ==> l.rows[i].key in l.prepared && l.prepared[l.rows[i].key].report == i)
  }

  ghost predicate InScope(c: Config, l: Ledger) {
    && (forall key :: key in l.prepared ==> key in c.selected)
    && (forall key, i :: key in l.prepared && 0 <= i < |Next(c.producers, key)| ==>
          Next(c.producers, key)[i] in l.prepared)
    && (forall ref :: ref in l.reconciled ==> IsRef(c, ref) && ref.resource in l.prepared)
    && (forall ref, next :: ref in l.reconciled && next in Next(c.requires_, ref) ==> next in l.reconciled)
    && l.failed <= l.reconciled
    && (forall ref :: ref in l.called ==> ref in l.reconciled)
  }

  ghost predicate Counted(c: Config, l: Ledger) {
    forall key :: key in c.selected && key in c.destinations && (key in l.prepared ==> l.prepared[key].ready) ==>
      PendingOf(l, key) == |Refs(c, key) - l.reconciled|
  }

  /** A resource is over when it failed to prepare or has no publication left. */
  ghost predicate Over(c: Config, l: Ledger, key: Key) {
    key in l.prepared && key in c.destinations && (!l.prepared[key].ready || Refs(c, key) <= l.reconciled)
  }

  /** ResourceDone was called exactly for what is over, once each, with the final row. */
  ghost predicate Reported(c: Config, l: Ledger) {
    && (forall i, j :: 0 <= i < j < |l.finished| ==> l.finished[i].key != l.finished[j].key)
    && (forall i :: 0 <= i < |l.finished| ==> Over(c, l, l.finished[i].key) && l.finished[i] in l.rows)
    && (forall key :: Over(c, l, key) ==> exists i :: 0 <= i < |l.finished| && l.finished[i].key == key)
  }

  /** A provider was called only after those required were, and none of them failed. */
  ghost predicate CalledInOrder(c: Config, l: Ledger, i: nat)
    requires i < |l.called|
  {
    forall next :: next in Next(c.requires_, l.called[i]) ==> next in l.called[..i] && next !in l.failed
  }

  /** A publication that succeeded was called, and everything it requires succeeded. */
  ghost predicate Ordered(c: Config, l: Ledger) {
    && (forall ref :: ref in l.reconciled && ref !in l.failed ==>
          && ref.resource in l.prepared && l.prepared[ref.resource].ready && ref in l.called
          && forall next :: next in Next(c.requires_, ref) ==> next !in l.failed)
    && forall i :: 0 <= i < |l.called| ==> CalledInOrder(c, l, i)
  }

  predicate Mentions(row: Row, name: string) {
    exists i :: 0 <= i < |row.destinations| && row.destinations[i].name == name
  }

  /** A row reports each reconciled publication of its resource once, and none else; outside
      publishing only the failed ones. */
  ghost predicate Lists(c: Config, l: Ledger, row: Row) {
    && row.key in l.prepared
    && (forall i, j :: 0 <= i < j < |row.destinations| ==> row.destinations[i].name != row.destinations[j].name)
    && (forall name :: Mentions(row, name) <==>
          Ref(row.key, name) in l.reconciled && l.prepared[row.key].ready
            && (c.publishing || Ref(row.key, name) in l.failed))
    && (forall i :: 0 <= i < |row.destinations| ==>
          (row.destinations[i].ok <==> Ref(row.key, row.destinations[i].name) !in l.failed))
  }

  ghost predicate Listed(c: Config, l: Ledger) {
    RowsMatch(l) && forall i :: 0 <= i < |l.rows| ==> Lists(c, l, l.rows[i])
  }

  /** A resource is ready when it acquires and everything it consumes is ready; its row
      names the producers that are not, and is in error when it or a publication failed. */
  ghost predicate PreparedRight(c: Config, l: Ledger, key: Key) {
    && key in l.prepared
    && (l.prepared[key].ready <==>
          c.acquires(key) && forall k :: k in Next(c.producers, key) ==> k in l.prepared && l.prepared[k].ready)
  }

  ghost predicate RowRight(c: Config, l: Ledger, row: Row) {
    && row.key in l.prepared
    && (forall k :: k in row.blockedBy <==>
          k in Next(c.producers, row.key) && k in l.prepared && !l.prepared[k].ready)
    && (row.error <==> !l.prepared[row.key].ready || exists name :: Ref(row.key, name) in l.failed)
  }

  /** Something the publication requires failed; only publishing minds. */
  ghost predicate HeldBack(c: Config, l: Ledger, ref: Ref) {
    c.publishing && exists next :: next in Next(c.requires_, ref) && next in l.failed
  }

  /** Whether a provider is called, and how its publication ends. */
  ghost predicate PublishedRight(c: Config, l: Ledger, ref: Ref) {
    var ready := ref.resource in l.prepared && l.prepared[ref.resource].ready;
    var tried := c.publishing || !c.environment(ref);
    && (ref in l.called <==> ready && !HeldBack(c, l, ref) && tried)
    && (ref in l.failed <==> !ready || HeldBack(c, l, ref) || (tried && c.publish(ref) != Succeeded))
  }

  ghost predicate Explained(c: Config, l: Ledger) {
    && (forall key :: key in l.prepared ==> PreparedRight(c, l, key))
    && (forall row :: row in l.rows ==> RowRight(c, l, row))
    && (forall ref :: ref in l.reconciled ==> PublishedRight(c, l, ref))
    && (forall i, j :: 0 <= i < j < |l.called| ==> l.called[i] != l.called[j])
  }

  ghost predicate Inv(c: Config, l: Ledger) {
    && RowsMatch(l) && InScope(c, l) && Counted(c, l) && Reported(c, l) && Explained(c, l) && Listed(c, l)
    && (c.publishing ==> Ordered(c, l))
  }

  // ----- Preparing keeps it -----

  lemma PrepareKeepsRows(c: Config, l: Ledger, key: Key)
    requires RowsMatch(l) && key !in l.prepared
    requires forall i :: 0 <= i < |Next(c.producers, key)| ==> Next(c.producers, key)[i] in l.prepared
    ensures RowsMatch(PrepareStep(c, l, key))
  {}

  lemma PrepareKeepsScope(c: Config, l: Ledger, key: Key)
    requires InScope(c, l) && key !in l.prepared && key in c.selected
    requires forall i :: 0 <= i < |Next(c.producers, key)| ==> Next(c.producers, key)[i] in l.prepared
    ensures InScope(c, PrepareStep(c, l, key))
  {}

  lemma NothingReconciled(c: Config, l: Ledger, key: Key)
    requires InScope(c, l) && Counted(c, l) && key !in l.prepared && key in c.selected && key in c.destinations
    ensures Refs(c, key) - l.reconciled == Refs(c, key)
    ensures PendingOf(l, key) == 0 <==> Refs(c, key) == {}
  {
    assert Refs(c, key) !! l.reconciled;
    assert Refs(c, key) - l.reconciled == Refs(c, key);
  }

  /** One more resource is over: its row joins the reported ones. */
  lemma ReportsOneMore(c: Config, l: Ledger, m: Ledger, row: Row)
    requires Reported(c, l) && m.finished == l.finished + [row]
    requires Over(c, m, row.key) && row in m.rows && !Over(c, l, row.key)
    requires forall key :: key != row.key ==> (Over(c, m, key) <==> Over(c, l, key))
    requires forall other :: other in l.rows && other.key != row.key ==> other in m.rows
    ensures Reported(c, m)
  {
    hide Over;
    forall i | 0 <= i < |l.finished| ensures l.finished[i].key != row.key && m.finished[i] == l.finished[i] {
      assert Over(c, l, l.finished[i].key);
    }
    forall key | Over(c, m, key) ensures exists i :: 0 <= i < |m.finished| && m.finished[i].key == key {
      if key == row.key {
        assert m.finished[|l.finished|].key == key;
      } else {
        var i :| 0 <= i < |l.finished| && l.finished[i].key == key;
        assert m.finished[i].key == key;
      }
    }
  }

  /** Nothing else is over: what was reported stays as it was. */
  lemma ReportsTheSame(c: Config, l: Ledger, m: Ledger, changed: Key)
    requires Reported(c, l) && m.finished == l.finished && !Over(c, l, changed)
    requires forall key :: Over(c, m, key) <==> Over(c, l, key)
    requires forall other :: other in l.rows && other.key != changed ==> other in m.rows
    ensures Reported(c, m)
  {
    hide Over;
    forall i | 0 <= i < |m.finished| ensures Over(c, m, m.finished[i].key) && m.finished[i] in m.rows {
      assert Over(c, l, l.finished[i].key);
    }
  }

  lemma PrepareKeepsReports(c: Config, l: Ledger, key: Key)
    requires InScope(c, l) && Counted(c, l) && Reported(c, l)
    requires key !in l.prepared && key in c.selected && key in c.destinations
    requires forall i :: 0 <= i < |Next(c.producers, key)| ==> Next(c.producers, key)[i] in l.prepared
    ensures Reported(c, PrepareStep(c, l, key))
  {
    hide Reported;
    var m := PrepareStep(c, l, key);
    NothingReconciled(c, l, key);
    var row := m.rows[|l.rows|];
    assert Over(c, m, key) <==> !m.prepared[key].ready || Refs(c, key) == {};
    assert forall k :: k != key ==> (Over(c, m, k) <==> Over(c, l, k));
    if Over(c, m, key) {
      ReportsOneMore(c, l, m, row);
    } else {
      ReportsTheSame(c, l, m, key);
    }
  }

  lemma PrepareKeepsCounts(c: Config, l: Ledger, key: Key)
    requires Counted(c, l) && key !in l.prepared
    requires forall i :: 0 <= i < |Next(c.producers, key)| ==> Next(c.producers, key)[i] in l.prepared
    ensures Counted(c, PrepareStep(c, l, key))
  {
    var m := PrepareStep(c, l, key);
    assert m.pending == l.pending && m.reconciled == l.reconciled;
    assert forall k :: (k in m.prepared ==> m.prepared[k].ready) ==> (k in l.prepared ==> l.prepared[k].ready);
  }

  lemma PrepareKeepsOrder(c: Config, l: Ledger, key: Key)
    requires InScope(c, l) && Ordered(c, l) && key !in l.prepared
    requires forall i :: 0 <= i < |Next(c.producers, key)| ==> Next(c.producers, key)[i] in l.prepared
    ensures Ordered(c, PrepareStep(c, l, key))
  {
    var m := PrepareStep(c, l, key);
    assert m.reconciled == l.reconciled && m.failed == l.failed && m.called == l.called;
    assert forall k :: k in l.prepared ==> k in m.prepared && m.prepared[k] == l.prepared[k];
    forall i | 0 <= i < |m.called| ensures CalledInOrder(c, m, i) {
      assert CalledInOrder(c, l, i);
    }
  }

  lemma PrepareKeepsLists(c: Config, l: Ledger, key: Key)
    requires InScope(c, l) && Listed(c, l) && key !in l.prepared
    requires forall i :: 0 <= i < |Next(c.producers, key)| ==> Next(c.producers, key)[i] in l.prepared
    ensures Listed(c, PrepareStep(c, l, key))
  {
    var m := PrepareStep(c, l, key);
    PrepareKeepsRows(c, l, key);
    forall i | 0 <= i < |m.rows| ensures Lists(c, m, m.rows[i]) {
      if i < |l.rows| {
        assert Lists(c, l, l.rows[i]);
      } else {
        assert forall name :: Ref(key, name) !in l.reconciled;
      }
    }
  }

  lemma {:induction false} BlockedByIsNotReady(l: Ledger, producers: seq<Key>)
    requires forall i :: 0 <= i < |producers| ==> producers[i] in l.prepared
    ensures forall k :: k in BlockedBy(l, producers) <==> k in producers && !l.prepared[k].ready
  {
    if producers != [] {
      BlockedByIsNotReady(l, producers[1..]);
      assert producers == [producers[0]] + producers[1..];
    }
  }

  lemma PrepareKeepsExplained(c: Config, l: Ledger, key: Key)
    requires RowsMatch(l) && InScope(c, l) && Explained(c, l) && key !in l.prepared
    requires forall i :: 0 <= i < |Next(c.producers, key)| ==> Next(c.producers, key)[i] in l.prepared
    ensures Explained(c, PrepareStep(c, l, key))
  {
    hide RowsMatch, BlockedBy, Next;
    var m := PrepareStep(c, l, key);
    BlockedByIsNotReady(l, Next(c.producers, key));
    assert m.reconciled == l.reconciled && m.failed == l.failed && m.called == l.called;
    assert forall k :: k in l.prepared ==> k in m.prepared && m.prepared[k] == l.prepared[k];
    assert forall k :: k in Next(c.producers, key) ==> k in l.prepared;
    if m.prepared[key].ready {
      assert BlockedBy(l, Next(c.producers, key)) == [];
    } else if c.acquires(key) {
      var blocked := BlockedBy(l, Next(c.producers, key));
      assert blocked[0] in blocked;
    }
    forall k | k in l.prepared ensures PreparedRight(c, m, k) {
      assert PreparedRight(c, l, k);
      assert forall p :: p in Next(c.producers, k) ==> p in l.prepared;
    }
    forall row | row in l.rows ensures RowRight(c, m, row) {
      assert RowRight(c, l, row);
      assert forall p :: p in Next(c.producers, row.key) ==> p in l.prepared;
    }
    forall ref | ref in m.reconciled ensures PublishedRight(c, m, ref) {
      assert PublishedRight(c, l, ref);
    }
  }

  lemma PrepareKeeps(c: Config, l: Ledger, key: Key)
    requires Inv(c, l) && key !in l.prepared && key in c.selected && key in c.destinations
    requires forall i :: 0 <= i < |Next(c.producers, key)| ==> Next(c.producers, key)[i] in l.prepared
    ensures Inv(c, PrepareStep(c, l, key))
  {
    hide RowsMatch, InScope, Counted, Reported, Ordered, Listed, Explained;
    PrepareKeepsExplained(c, l, key);
    PrepareKeepsRows(c, l, key);
    PrepareKeepsScope(c, l, key);
    PrepareKeepsReports(c, l, key);
    PrepareKeepsCounts(c, l, key);
    PrepareKeepsLists(c, l, key);
    if c.publishing {
      PrepareKeepsOrder(c, l, key);
    }
  }

  // ----- Reconciling keeps it -----

  ghost predicate Ready(c: Config, l: Ledger, ref: Ref) {
    && IsRef(c, ref) && ref !in l.reconciled && ref.resource in l.prepared
    && forall next :: next in Next(c.requires_, ref) ==> next in l.reconciled
  }

  lemma ReconcileKeepsRows(c: Config, l: Ledger, ref: Ref)
    requires RowsMatch(l) && Ready(c, l, ref)
    ensures RowsMatch(ReconcileStep(c, l, ref))
  {}

  lemma ReconcileKeepsScope(c: Config, l: Ledger, ref: Ref)
    requires RowsMatch(l) && InScope(c, l) && Ready(c, l, ref)
    ensures InScope(c, ReconcileStep(c, l, ref))
  {}

  lemma ReconcileKeepsCounts(c: Config, l: Ledger, ref: Ref)
    requires RowsMatch(l) && Counted(c, l) && Ready(c, l, ref)
    ensures Counted(c, ReconcileStep(c, l, ref))
  {
    var m := ReconcileStep(c, l, ref);
    hide RowsMatch, Next;
    assert m.prepared == l.prepared && m.reconciled == l.reconciled + {ref};
    forall key | key in c.selected && key in c.destinations && (key in m.prepared ==> m.prepared[key].ready)
      ensures PendingOf(m, key) == |Refs(c, key) - m.reconciled|
    {
      if key == ref.resource {
        RefIsLeft(c, ref, l.reconciled);
        assert PendingOf(m, key) == PendingOf(l, key) - 1;
      } else {
        OtherRefs(c, key, ref, l.reconciled);
        assert PendingOf(m, key) == PendingOf(l, key);
      }
    }
  }

  lemma RefIsLeft(c: Config, ref: Ref, reconciled: set<Ref>)
    requires IsRef(c, ref) && ref !in reconciled
    ensures |Refs(c, ref.resource) - (reconciled + {ref})| == |Refs(c, ref.resource) - reconciled| - 1
  {
    var left := Refs(c, ref.resource) - reconciled;
    assert ref in left;
    assert Refs(c, ref.resource) - (reconciled + {ref}) == left - {ref};
  }

  lemma OtherRefs(c: Config, key: Key, ref: Ref, reconciled: set<Ref>)
    requires key in c.destinations && key != ref.resource
    ensures Refs(c, key) - (reconciled + {ref}) == Refs(c, key) - reconciled
  {}

  lemma LeftToReconcile(c: Config, l: Ledger, ref: Ref)
    requires RowsMatch(l) && InScope(c, l) && Counted(c, l) && Ready(c, l, ref) && l.prepared[ref.resource].ready
    ensures !Over(c, l, ref.resource)
    ensures Over(c, ReconcileStep(c, l, ref), ref.resource) <==> PendingOf(l, ref.resource) == 1
  {
    assert ref in Refs(c, ref.resource) - l.reconciled;
    ReconcileKeepsCounts(c, l, ref);
    var m := ReconcileStep(c, l, ref);
    assert PendingOf(m, ref.resource) == |Refs(c, ref.resource) - m.reconciled|;
  }

  lemma ReconcileKeepsReports(c: Config, l: Ledger, ref: Ref)
    requires RowsMatch(l) && InScope(c, l) && Counted(c, l) && Reported(c, l) && Ready(c, l, ref)
    ensures Reported(c, ReconcileStep(c, l, ref))
  {
    hide Reported;
    var m := ReconcileStep(c, l, ref);
    var key := ref.resource;
    assert forall k :: k != key ==> (Over(c, m, k) <==> Over(c, l, k)) by {
      assert forall k :: k in c.destinations && k != key ==> ref !in Refs(c, k);
    }
    if l.prepared[key].ready {
      LeftToReconcile(c, l, ref);
      var row := m.rows[l.prepared[key].report];
      assert row in m.rows && row.key == key;
      forall other | other in l.rows && other.key != key ensures other in m.rows {
        var i :| 0 <= i < |l.rows| && l.rows[i] == other;
        assert m.rows[i] == other;
      }
      if Over(c, m, key) {
        ReportsOneMore(c, l, m, row);
      } else {
        ReportsTheSame(c, l, m, key);
      }
    } else {
      ReportsStay(c, l, m);
    }
  }

  lemma ReportsStay(c: Config, l: Ledger, m: Ledger)
    requires Reported(c, l) && m.finished == l.finished && m.rows == l.rows
    requires forall key :: Over(c, m, key) <==> Over(c, l, key)
    ensures Reported(c, m)
  {
    hide Over;
  }

  lemma ReconcileKeepsOrder(c: Config, l: Ledger, ref: Ref)
    requires RowsMatch(l) && InScope(c, l) && Ordered(c, l) && Ready(c, l, ref) && c.publishing
    ensures Ordered(c, ReconcileStep(c, l, ref))
  {
    var m := ReconcileStep(c, l, ref);
    assert forall next :: next in l.reconciled ==> (next in m.failed <==> next in l.failed);
    forall i | 0 <= i < |m.called| ensures CalledInOrder(c, m, i) {
      forall next | next in Next(c.requires_, m.called[i]) ensures next in m.called[..i] && next !in m.failed {
        if i < |l.called| {
          assert CalledInOrder(c, l, i);
          assert m.called[i] == l.called[i] && m.called[..i] == l.called[..i];
          assert l.called[i] in l.called;
        } else {
          assert m.called[i] == ref && m.called[..i] == l.called;
          RequiredSucceeded(c, l, ref, next);
        }
      }
    }
    forall done | done in m.reconciled && done !in m.failed
      ensures forall next :: next in Next(c.requires_, done) ==> next !in m.failed
    {
      forall next | next in Next(c.requires_, done) ensures next !in m.failed {
        if done == ref {
          RequiredSucceeded(c, l, ref, next);
        }
      }
    }
  }

  lemma RequiredSucceeded(c: Config, l: Ledger, ref: Ref, next: Ref)
    requires c.publishing && InScope(c, l) && Ordered(c, l) && Ready(c, l, ref)
    requires !RequiredFailed(c, l, ref) && next in Next(c.requires_, ref)
    ensures next in l.reconciled && next in l.called && next !in l.failed
  {
    var i :| 0 <= i < |Next(c.requires_, ref)| && Next(c.requires_, ref)[i] == next;
  }

  /** Every publication of a ready resource adds one report while publishing; otherwise only
      one that fails does. */
  lemma OneReportEach(c: Config, l: Ledger, ref: Ref, row: Row)
    ensures ReconciledRow(c, l, ref, row).key == row.key
    ensures ReconciledRow(c, l, ref, row).destinations ==
            if c.publishing || Fails(c, l, ref)
            then row.destinations + [DestinationReport(ref.destination, !Fails(c, l, ref))] else row.destinations
  {}

  lemma ReconcileKeepsLists(c: Config, l: Ledger, ref: Ref)
    requires InScope(c, l) && Listed(c, l) && Ready(c, l, ref)
    ensures Listed(c, ReconcileStep(c, l, ref))
  {
    var m := ReconcileStep(c, l, ref);
    ReconcileKeepsRows(c, l, ref);
    forall i | 0 <= i < |m.rows| ensures Lists(c, m, m.rows[i]) {
      assert Lists(c, l, l.rows[i]);
      if m.rows[i].key == ref.resource && l.prepared[ref.resource].ready {
        ListsOneMore(c, l, m, ref, l.rows[i], m.rows[i]);
      } else {
        ListsTheSame(c, l, m, ref, l.rows[i]);
      }
    }
  }

  lemma ListsTheSame(c: Config, l: Ledger, m: Ledger, ref: Ref, row: Row)
    requires row.key in l.prepared && Lists(c, l, row)
    requires m.prepared == l.prepared && m.reconciled == l.reconciled + {ref}
    requires l.failed <= m.failed <= l.failed + {ref}
    requires row.key != ref.resource || !l.prepared[row.key].ready
    ensures Lists(c, m, row)
  {
    assert !l.prepared[row.key].ready ==>
           forall i :: 0 <= i < |row.destinations| ==> Mentions(row, row.destinations[i].name);
  }

  lemma ListsOneMore(c: Config, l: Ledger, m: Ledger, ref: Ref, row: Row, after: Row)
    requires row.key == ref.resource && row.key in l.prepared && l.prepared[row.key].ready
    requires Lists(c, l, row)
    requires ref !in l.reconciled && after == ReconciledRow(c, l, ref, row)
    requires m.prepared == l.prepared && m.reconciled == l.reconciled + {ref}
    requires m.failed == (if Fails(c, l, ref) then l.failed + {ref} else l.failed) && l.failed <= l.reconciled
    ensures Lists(c, m, after)
  {
    OneReportEach(c, l, ref, row);
    hide ReconciledRow, Fails;
    assert !Mentions(row, ref.destination);
    var n := |row.destinations|;
    var added := c.publishing || Fails(c, l, ref);
    assert forall i :: 0 <= i < n ==>
           after.destinations[i] == row.destinations[i] && Mentions(row, row.destinations[i].name);
    forall name ensures Mentions(after, name) <==> Mentions(row, name) || (added && name == ref.destination) {
      if Mentions(row, name) {
        var i :| 0 <= i < n && row.destinations[i].name == name;
        assert after.destinations[i].name == name;
      }
      assert added ==> after.destinations[n].name == ref.destination;
    }
    assert forall i :: 0 <= i < n ==> row.destinations[i].name != ref.destination;
    hide Mentions;
  }

  /** The publication itself comes out as declared. */
  lemma ReconciledRight(c: Config, l: Ledger, ref: Ref)
    requires RowsMatch(l) && InScope(c, l) && Ready(c, l, ref)
    ensures PublishedRight(c, ReconcileStep(c, l, ref), ref)
  {
    var m := ReconcileStep(c, l, ref);
    assert RequiredFailed(c, l, ref) <==> exists next :: next in Next(c.requires_, ref) && next in l.failed;
    assert c.publishing ==> (HeldBack(c, m, ref) <==> RequiredFailed(c, l, ref)) by {
      assert forall next :: next in Next(c.requires_, ref) ==> next != ref;
    }
  }

  /** Earlier publications stay as they came out. */
  lemma OthersStayRight(c: Config, l: Ledger, ref: Ref, done: Ref)
    requires RowsMatch(l) && InScope(c, l) && Ready(c, l, ref)
    requires done in l.reconciled && PublishedRight(c, l, done)
    ensures PublishedRight(c, ReconcileStep(c, l, ref), done)
  {
    var m := ReconcileStep(c, l, ref);
    assert forall next :: next in Next(c.requires_, done) ==> (next in m.failed <==> next in l.failed);
  }

  lemma ReconcileKeepsExplained(c: Config, l: Ledger, ref: Ref)
    requires RowsMatch(l) && InScope(c, l) && Explained(c, l) && Ready(c, l, ref)
    ensures Explained(c, ReconcileStep(c, l, ref))
  {
    hide PublishedRight, Next;
    var m := ReconcileStep(c, l, ref);
    assert m.prepared == l.prepared && ref !in l.called;
    ReconciledRight(c, l, ref);
    forall done | done in l.reconciled ensures PublishedRight(c, m, done) {
      OthersStayRight(c, l, ref, done);
    }
    forall key | key in m.prepared ensures PreparedRight(c, m, key) {
      assert PreparedRight(c, l, key);
    }
    forall i | 0 <= i < |m.rows| ensures RowRight(c, m, m.rows[i]) {
      assert RowRight(c, l, l.rows[i]);
    }
  }

  lemma ReconcileKeeps(c: Config, l: Ledger, ref: Ref)
    requires Inv(c, l) && Ready(c, l, ref)
    ensures RowsMatch(l) && Inv(c, ReconcileStep(c, l, ref))
  {
    hide RowsMatch, InScope, Counted, Reported, Ordered, Ready, Listed, Explained;
    ReconcileKeepsExplained(c, l, ref);
    ReconcileKeepsRows(c, l, ref);
    ReconcileKeepsScope(c, l, ref);
    ReconcileKeepsCounts(c, l, ref);
    ReconcileKeepsReports(c, l, ref);
    ReconcileKeepsLists(c, l, ref);
    if c.publishing {
      ReconcileKeepsOrder(c, l, ref);
    }
  }
}
