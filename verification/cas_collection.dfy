/**
 Collection (internal/cas/maintenance.go): invalid entries first, then the least
 recently used ones while the cache is over budget, each object taking the indexes
 that name it along. The methods are proved against a description of the removed
 set that mentions neither iteration order nor disk.
 */
module CasCollection {
  import opened CasMaintenance

  // ----- The removed set -----

  predicate Names(e: Entry, id: string) {
    exists k :: 0 <= k < |e.objects| && OBJECT + e.objects[k] == id
  }

  function Dependents(entries: seq<Entry>, id: string): set<string> {
    set i | 0 <= i < |entries| && Names(entries[i], id) :: entries[i].id
  }

  /** Removing an entry takes every index along that names it as an object. */
  function Cascade(entries: seq<Entry>, removed: set<string>, id: string): set<string> {
    if id in removed then removed else removed + {id} + Dependents(entries, id)
  }

  predicate Swept(e: Entry, all: bool, evict: bool) {
    (e.invalid && (evict || e.temporary)) || all
  }

  /** The first pass: everything invalid, or only abandoned work when not evicting. */
  function Sweep(entries: seq<Entry>, n: nat, all: bool, evict: bool): set<string>
    requires n <= |entries|
  {
    if n == 0 then {}
    else
      var before := Sweep(entries, n - 1, all, evict);
      if Swept(entries[n - 1], all, evict) then Cascade(entries, before, entries[n - 1].id) else before
  }

  function Retained(f: Files, removed: set<string>): int
    requires ValidFiles(f)
  {
    Counted(f, Ids(f) - removed).retained
  }

  /** The second pass over the entries from the n-th on. */
  function Evict(f: Files, entries: seq<Entry>, n: nat, removed: set<string>, limit: int, cutoff: int): set<string>
    requires ValidFiles(f) && n <= |entries|
    decreases |entries| - n
  {
    if n == |entries| || Retained(f, removed) <= limit then removed
    else
      var e := entries[n];
      Evict(f, entries, n + 1, if e.id in removed || e.used >= cutoff then removed
        else Cascade(entries, removed, e.id), limit, cutoff)
  }

  /** No survivor is an index that names something removed. */
  predicate Closed(entries: seq<Entry>, removed: set<string>) {
    forall i, id :: 0 <= i < |entries| && id in removed && Names(entries[i], id) ==> entries[i].id in removed
  }

  /** What every enumeration of an inventory satisfies and the proofs below need. */
  predicate Listed(entries: seq<Entry>) {
    && (forall i :: 0 <= i < |entries| && OBJECT <= entries[i].id ==> entries[i].objects == [])
    && (forall i, j :: 0 <= i < j < |entries| ==> entries[i].id != entries[j].id)
  }

  lemma EnumerationsAreListed(entries: seq<Entry>, f: Files)
    requires ValidFiles(f) && Enumerates(entries, f, Ids(f))
    ensures Listed(entries)
  {
    forall i | 0 <= i < |entries| && OBJECT <= entries[i].id ensures entries[i].objects == [] {
      EntryFacts(f, entries[i].id);
    }
  }

  lemma OnlyObjectsHaveDependents(entries: seq<Entry>, id: string)
    ensures Dependents(entries, id) != {} ==> OBJECT <= id
  {}

  lemma DependentsHaveNone(entries: seq<Entry>, id: string, dependent: string)
    requires Listed(entries) && dependent in Dependents(entries, id)
    ensures Dependents(entries, dependent) == {}
  {
    var i :| 0 <= i < |entries| && Names(entries[i], id) && entries[i].id == dependent;
    assert !(OBJECT <= dependent);
    OnlyObjectsHaveDependents(entries, dependent);
  }

  lemma CascadeCloses(entries: seq<Entry>, removed: set<string>, id: string)
    requires Listed(entries) && Closed(entries, removed)
    ensures Closed(entries, Cascade(entries, removed, id))
  {
    forall i, x | 0 <= i < |entries| && x in Cascade(entries, removed, id) && Names(entries[i], x)
      ensures entries[i].id in Cascade(entries, removed, id)
    {
      assert entries[i].id in Dependents(entries, x);
      if x !in removed && x != id {
        DependentsHaveNone(entries, id, x);
      }
    }
  }

  lemma {:induction false} SweepCloses(entries: seq<Entry>, n: nat, all: bool, evict: bool)
    requires Listed(entries) && n <= |entries|
    ensures Closed(entries, Sweep(entries, n, all, evict))
  {
    if n > 0 {
      SweepCloses(entries, n - 1, all, evict);
      CascadeCloses(entries, Sweep(entries, n - 1, all, evict), entries[n - 1].id);
    }
  }

  lemma {:induction false} EvictCloses(f: Files, entries: seq<Entry>, n: nat, removed: set<string>, limit: int,
                                       cutoff: int)
    requires ValidFiles(f) && n <= |entries| && Listed(entries) && Closed(entries, removed)
    ensures Closed(entries, Evict(f, entries, n, removed, limit, cutoff))
    decreases |entries| - n
  {
    if n < |entries| && Retained(f, removed) > limit {
      var e := entries[n];
      CascadeCloses(entries, removed, e.id);
      EvictCloses(f, entries, n + 1,
        if e.id in removed || e.used >= cutoff then removed else Cascade(entries, removed, e.id), limit, cutoff);
    }
  }

  /** An entry goes for its own sake, or because an object it names goes. */
  predicate Justified(entries: seq<Entry>, removed: set<string>, id: string, own: Entry -> bool) {
    exists i :: 0 <= i < |entries| && entries[i].id == id &&
                (own(entries[i]) || exists owner :: owner in removed && Names(entries[i], owner))
  }

  predicate AllJustified(entries: seq<Entry>, removed: set<string>, own: Entry -> bool) {
    forall id :: id in removed ==> Justified(entries, removed, id, own)
  }

  lemma CascadeJustified(entries: seq<Entry>, removed: set<string>, i: nat, own: Entry -> bool)
    requires i < |entries| && own(entries[i]) && AllJustified(entries, removed, own)
    ensures AllJustified(entries, Cascade(entries, removed, entries[i].id), own)
  {
    var after := Cascade(entries, removed, entries[i].id);
    forall id | id in after ensures Justified(entries, after, id, own) {
      if id in removed {
        assert Justified(entries, removed, id, own);
        var k :| 0 <= k < |entries| && entries[k].id == id &&
          (own(entries[k]) || exists owner :: owner in removed && Names(entries[k], owner));
        assert own(entries[k]) || exists owner :: owner in after && Names(entries[k], owner);
      } else if id != entries[i].id {
        assert id in Dependents(entries, entries[i].id);
        assert entries[i].id in after;
      }
    }
  }

  lemma {:induction false} SweepJustified(entries: seq<Entry>, n: nat, all: bool, evict: bool, own: Entry -> bool)
    requires n <= |entries| && forall e :: Swept(e, all, evict) ==> own(e)
    ensures AllJustified(entries, Sweep(entries, n, all, evict), own)
  {
    if n > 0 {
      SweepJustified(entries, n - 1, all, evict, own);
      if Swept(entries[n - 1], all, evict) {
        CascadeJustified(entries, Sweep(entries, n - 1, all, evict), n - 1, own);
      }
    }
  }

  lemma {:induction false} EvictJustified(f: Files, entries: seq<Entry>, n: nat, removed: set<string>, limit: int,
                                          cutoff: int, own: Entry -> bool)
    requires ValidFiles(f) && n <= |entries| && AllJustified(entries, removed, own)
    requires forall e: Entry :: e.used < cutoff ==> own(e)
    ensures AllJustified(entries, Evict(f, entries, n, removed, limit, cutoff), own)
    decreases |entries| - n
  {
    if n < |entries| && Retained(f, removed) > limit {
      var e := entries[n];
      if e.id in removed || e.used >= cutoff {
        EvictJustified(f, entries, n + 1, removed, limit, cutoff, own);
      } else {
        CascadeJustified(entries, removed, n, own);
        EvictJustified(f, entries, n + 1, Cascade(entries, removed, e.id), limit, cutoff, own);
      }
    }
  }

  /** Within budget, or nothing but recent entries left to remove. */
  lemma {:induction false} EvictReachesBudget(f: Files, entries: seq<Entry>, n: nat, removed: set<string>, limit: int,
                                              cutoff: int)
    requires ValidFiles(f) && n <= |entries|
    requires forall i :: 0 <= i < n ==> entries[i].id in removed || entries[i].used >= cutoff
    ensures var final := Evict(f, entries, n, removed, limit, cutoff);
            && removed <= final
            && (Retained(f, final) <= limit ||
                forall i :: 0 <= i < |entries| ==> entries[i].id in final || entries[i].used >= cutoff)
    decreases |entries| - n
  {
    if n < |entries| && Retained(f, removed) > limit {
      var e := entries[n];
      EvictReachesBudget(f, entries, n + 1,
        if e.id in removed || e.used >= cutoff then removed else Cascade(entries, removed, e.id), limit, cutoff);
    }
  }

  /** What is gone after the entries from `from` up to k were looked at, with no regard to
      the budget: each old one that is still there goes, with its dependents. */
  function EvictedUpTo(entries: seq<Entry>, from: nat, k: nat, removed: set<string>, cutoff: int): set<string>
    requires from <= k <= |entries|
  {
    if k == from then removed
    else
      var before := EvictedUpTo(entries, from, k - 1, removed, cutoff);
      if entries[k - 1].id in before || entries[k - 1].used >= cutoff then before
        else Cascade(entries, before, entries[k - 1].id)
  }

  /** The k-th entry is evicted for its own sake when its turn comes. */
  predicate Evicted(entries: seq<Entry>, from: nat, k: nat, removed: set<string>, cutoff: int)
    requires from <= k < |entries|
  {
    entries[k].used < cutoff && entries[k].id !in EvictedUpTo(entries, from, k, removed, cutoff)
  }

  /** Evicted for its own sake, or naming an object that was. */
  predicate EvictedWith(entries: seq<Entry>, from: nat, k: nat, removed: set<string>, cutoff: int, id: string)
    requires from <= k < |entries|
  {
    Evicted(entries, from, k, removed, cutoff) && (id == entries[k].id || id in Dependents(entries, entries[k].id))
  }

  /** Eviction goes through the entries in order and stops at the first position where the
      budget is met: before it the budget is exceeded at every position and every old entry
      goes; behind it nothing is chosen. */
  predicate EvictsUpTo(f: Files, entries: seq<Entry>, from: nat, stop: nat, removed: set<string>, final: set<string>,
                       limit: int, cutoff: int)
    requires ValidFiles(f)
  {
    && from <= stop <= |entries|
    && final == EvictedUpTo(entries, from, stop, removed, cutoff)
    && (forall k :: from <= k < stop ==> Retained(f, EvictedUpTo(entries, from, k, removed, cutoff)) > limit)
    && (stop < |entries| ==> Retained(f, final) <= limit)
    && (forall k :: from <= k < stop ==> entries[k].id in final || entries[k].used >= cutoff)
    && (forall id :: id in final && id !in removed ==>
          exists k :: from <= k < stop && EvictedWith(entries, from, k, removed, cutoff, id))
  }

  lemma {:induction false} EvictedLater(entries: seq<Entry>, from: nat, k: nat, removed: set<string>, cutoff: int)
    requires from < k <= |entries|
    ensures EvictedUpTo(entries, from, k, removed, cutoff)
         == EvictedUpTo(entries, from + 1, k, EvictedUpTo(entries, from, from + 1, removed, cutoff), cutoff)
  {
    if from + 1 < k {
      EvictedLater(entries, from, k - 1, removed, cutoff);
    }
  }

  lemma {:induction false} EvictedGrows(entries: seq<Entry>, from: nat, k: nat, removed: set<string>, cutoff: int)
    requires from <= k <= |entries|
    ensures removed <= EvictedUpTo(entries, from, k, removed, cutoff)
    ensures forall i :: from <= i < k ==>
            entries[i].id in EvictedUpTo(entries, from, k, removed, cutoff) || entries[i].used >= cutoff
    ensures forall id :: id in EvictedUpTo(entries, from, k, removed, cutoff) && id !in removed ==>
              exists i :: from <= i < k && EvictedWith(entries, from, i, removed, cutoff, id)
  {
    if from < k {
      hide Dependents;
      EvictedGrows(entries, from, k - 1, removed, cutoff);
      forall id | id in EvictedUpTo(entries, from, k, removed, cutoff) && id !in removed
        ensures exists i :: from <= i < k && EvictedWith(entries, from, i, removed, cutoff, id)
      {
        assert id in EvictedUpTo(entries, from, k - 1, removed, cutoff)
               || EvictedWith(entries, from, k - 1, removed, cutoff, id);
      }
    }
  }

  lemma {:induction false} EvictStops(f: Files, entries: seq<Entry>, n: nat, removed: set<string>, limit: int,
                                      cutoff: int)
    returns (stop: nat)
    requires ValidFiles(f) && n <= |entries|
    ensures n <= stop <= |entries|
    ensures Evict(f, entries, n, removed, limit, cutoff) == EvictedUpTo(entries, n, stop, removed, cutoff)
    ensures forall k :: n <= k < stop ==> Retained(f, EvictedUpTo(entries, n, k, removed, cutoff)) > limit
    ensures stop < |entries| ==> Retained(f, EvictedUpTo(entries, n, stop, removed, cutoff)) <= limit
    decreases |entries| - n
  {
    hide Retained, Cascade;
    stop := n;
    if n < |entries| && Retained(f, removed) > limit {
      var next := EvictedUpTo(entries, n, n + 1, removed, cutoff);
      assert EvictedUpTo(entries, n, n, removed, cutoff) == removed;
      stop := EvictStops(f, entries, n + 1, next, limit, cutoff);
      forall k | n < k <= stop
        ensures EvictedUpTo(entries, n, k, removed, cutoff) == EvictedUpTo(entries, n + 1, k, next, cutoff)
      {
        EvictedLater(entries, n, k, removed, cutoff);
      }
    }
  }

  lemma EvictTakesAPrefix(f: Files, entries: seq<Entry>, n: nat, removed: set<string>, limit: int, cutoff: int)
    returns (stop: nat)
    requires ValidFiles(f) && n <= |entries|
    ensures EvictsUpTo(f, entries, n, stop, removed, Evict(f, entries, n, removed, limit, cutoff), limit, cutoff)
  {
    hide Retained, Cascade, Evict, EvictedWith, EvictedUpTo;
    stop := EvictStops(f, entries, n, removed, limit, cutoff);
    EvictedGrows(entries, n, stop, removed, cutoff);
  }

  /** The stopping position is no choice. */
  lemma StopIsUnique(f: Files, entries: seq<Entry>, n: nat, removed: set<string>, limit: int, cutoff: int, a: nat,
                     b: nat,
                     x: set<string>, y: set<string>)
    requires ValidFiles(f) && EvictsUpTo(f, entries, n, a, removed, x, limit, cutoff)
    requires EvictsUpTo(f, entries, n, b, removed, y, limit, cutoff)
    ensures a == b && x == y
  {
    hide Retained, EvictedUpTo, EvictedWith;
  }

  lemma {:induction false} SweepGrows(entries: seq<Entry>, i: nat, n: nat, all: bool, evict: bool)
    requires i <= n <= |entries|
    ensures Sweep(entries, i, all, evict) <= Sweep(entries, n, all, evict)
  {
    if i < n {
      SweepGrows(entries, i, n - 1, all, evict);
    }
  }

  lemma {:induction false} EvictGrows(f: Files, entries: seq<Entry>, n: nat, removed: set<string>, limit: int,
                                      cutoff: int)
    requires ValidFiles(f) && n <= |entries|
    ensures removed <= Evict(f, entries, n, removed, limit, cutoff)
    decreases |entries| - n
  {
    if n < |entries| && Retained(f, removed) > limit {
      var e := entries[n];
      EvictGrows(f, entries, n + 1, if e.id in removed || e.used >= cutoff then removed
        else Cascade(entries, removed, e.id), limit, cutoff);
    }
  }

  // ----- Iteration order does not matter -----

  predicate Chosen(entries: seq<Entry>, n: nat, all: bool, evict: bool, id: string)
    requires n <= |entries|
  {
    exists i :: 0 <= i < n && Swept(entries[i], all, evict)
      && (id == entries[i].id || id in Dependents(entries, entries[i].id))
  }

  /** The first pass removes what qualifies and what names it, in any order. */
  lemma {:induction false} SweepIsChosen(entries: seq<Entry>, n: nat, all: bool, evict: bool)
    requires Listed(entries) && n <= |entries|
    ensures forall id :: id in Sweep(entries, n, all, evict) <==> Chosen(entries, n, all, evict, id)
  {
    if n > 0 {
      hide Swept, Dependents, Listed, Chosen;
      SweepIsChosen(entries, n - 1, all, evict);
      var e, before := entries[n - 1], Sweep(entries, n - 1, all, evict);
      if Swept(e, all, evict) && e.id in before {
        ChosenHasNone(entries, n - 1, all, evict, n - 1);
      }
      forall id
        ensures id in Sweep(entries, n, all, evict) <==> Chosen(entries, n, all, evict, id)
      {
        ChosenNext(entries, n - 1, all, evict, id);
      }
    }
  }

  lemma ChosenNext(entries: seq<Entry>, n: nat, all: bool, evict: bool, id: string)
    requires n < |entries|
    ensures Chosen(entries, n + 1, all, evict, id) <==>
            Chosen(entries, n, all, evict, id) ||
            (Swept(entries[n], all, evict) && (id == entries[n].id || id in Dependents(entries, entries[n].id)))
  {
    hide Swept, Dependents;
  }

  /** An entry that was taken before its turn, for an object it names, has no dependents. */
  lemma ChosenHasNone(entries: seq<Entry>, n: nat, all: bool, evict: bool, at: nat)
    requires Listed(entries) && n <= at < |entries| && Chosen(entries, n, all, evict, entries[at].id)
    ensures Dependents(entries, entries[at].id) == {}
  {
    hide Swept, Dependents;
    var i :| 0 <= i < n && Swept(entries[i], all, evict)
      && (entries[at].id == entries[i].id || entries[at].id in Dependents(entries, entries[i].id));
    DependentsHaveNone(entries, entries[i].id, entries[at].id);
  }

  function Elements(entries: seq<Entry>): set<Entry> {
    set e | e in entries
  }

  lemma SameDependents(a: seq<Entry>, b: seq<Entry>, id: string)
    requires Elements(a) == Elements(b)
    ensures Dependents(a, id) == Dependents(b, id)
  {
    forall i | 0 <= i < |a| && Names(a[i], id) ensures a[i].id in Dependents(b, id) {
      assert a[i] in Elements(b);
    }
    forall i | 0 <= i < |b| && Names(b[i], id) ensures b[i].id in Dependents(a, id) {
      assert b[i] in Elements(a);
    }
  }

  lemma SweepIgnoresOrder(a: seq<Entry>, b: seq<Entry>, all: bool, evict: bool)
    requires Listed(a) && Listed(b) && Elements(a) == Elements(b)
    ensures Sweep(a, |a|, all, evict) == Sweep(b, |b|, all, evict)
  {
    hide Dependents, Swept, Listed, Sweep;
    SweepIsChosen(a, |a|, all, evict);
    SweepIsChosen(b, |b|, all, evict);
    forall x: string {
      SameDependents(a, b, x);
    }
    forall id ensures Chosen(a, |a|, all, evict, id) == Chosen(b, |b|, all, evict, id) {
      if Chosen(a, |a|, all, evict, id) {
        var i :| 0 <= i < |a| && Swept(a[i], all, evict) && (id == a[i].id || id in Dependents(a, a[i].id));
        assert a[i] in Elements(b);
      }
      if Chosen(b, |b|, all, evict, id) {
        var i :| 0 <= i < |b| && Swept(b[i], all, evict) && (id == b[i].id || id in Dependents(b, b[i].id));
        assert b[i] in Elements(a);
      }
    }
  }

  // ----- The order of eviction -----

  predicate Less(a: string, b: string) {
    if b == "" then false
    else if a == "" then true
    else a[0] < b[0] || (a[0] == b[0] && Less(a[1..], b[1..]))
  }

  /** Least recently used first, then by identifier. */
  predicate Earlier(a: Entry, b: Entry) {
    a.used < b.used || (a.used == b.used && Less(a.id, b.id))
  }

  predicate Ordered(entries: seq<Entry>) {
    forall i, j :: 0 <= i < j < |entries| ==> Earlier(entries[i], entries[j])
  }

  lemma {:induction false} LessIsTotal(a: string, b: string)
    ensures a == b || Less(a, b) || Less(b, a)
    ensures !(Less(a, b) && Less(b, a)) && (a == b ==> !Less(a, b))
  {
    if a != "" && b != "" {
      LessIsTotal(a[1..], b[1..]);
      if a[0] == b[0] && a[1..] == b[1..] {
        assert a == [a[0]] + a[1..] && b == [b[0]] + b[1..];
      }
    }
  }

  lemma {:induction false} LessIsTransitive(a: string, b: string, c: string)
    requires Less(a, b) && Less(b, c)
    ensures Less(a, c)
  {
    if a != "" && a[0] == b[0] && b[0] == c[0] {
      LessIsTransitive(a[1..], b[1..], c[1..]);
    }
  }

  function Insert(e: Entry, sorted: seq<Entry>): seq<Entry> {
    if sorted == [] || Earlier(e, sorted[0]) then [e] + sorted
    else [sorted[0]] + Insert(e, sorted[1..])
  }

  function Sorted(entries: seq<Entry>): seq<Entry> {
    if entries == [] then [] else Insert(entries[0], Sorted(entries[1..]))
  }

  lemma {:induction false} InsertKeepsOrder(e: Entry, sorted: seq<Entry>)
    requires Ordered(sorted) && forall i :: 0 <= i < |sorted| ==> sorted[i].id != e.id
    ensures Ordered(Insert(e, sorted)) && |Insert(e, sorted)| == |sorted| + 1
    ensures Elements(Insert(e, sorted)) == Elements(sorted) + {e}
  {
    if sorted == [] {
    } else if Earlier(e, sorted[0]) {
      forall i | 0 <= i < |sorted| ensures Earlier(e, sorted[i]) {
        EarlierIsTransitive(e, sorted[0], sorted[i]);
      }
    } else {
      var rest := Insert(e, sorted[1..]);
      InsertKeepsOrder(e, sorted[1..]);
      LessIsTotal(e.id, sorted[0].id);
      assert Elements(sorted) == {sorted[0]} + Elements(sorted[1..]);
      assert forall i :: 0 <= i < |rest| ==> rest[i] in Elements(rest);
      assert Elements([sorted[0]] + rest) == {sorted[0]} + Elements(rest);
    }
  }

  lemma EarlierIsTransitive(a: Entry, b: Entry, c: Entry)
    requires Earlier(a, b) && (b == c || Earlier(b, c))
    ensures Earlier(a, c)
  {
    if a.used == b.used == c.used && b != c {
      LessIsTransitive(a.id, b.id, c.id);
    }
  }

  lemma {:induction false} SortedIsOrdered(entries: seq<Entry>)
    requires forall i, j :: 0 <= i < j < |entries| ==> entries[i].id != entries[j].id
    ensures Ordered(Sorted(entries)) && Elements(Sorted(entries)) == Elements(entries) && |Sorted(entries)| == |entries|
  {
    if entries != [] {
      var rest := Sorted(entries[1..]);
      SortedIsOrdered(entries[1..]);
      forall i | 0 <= i < |rest| ensures rest[i].id != entries[0].id {
        assert rest[i] in Elements(entries[1..]);
      }
      InsertKeepsOrder(entries[0], rest);
      assert Elements(entries) == {entries[0]} + Elements(entries[1..]);
    }
  }

  lemma OrderedTail(a: seq<Entry>)
    requires Ordered(a) && a != []
    ensures Ordered(a[1..]) && Elements(a[1..]) == Elements(a) - {a[0]} && a[0] in Elements(a)
  {
    assert a == [a[0]] + a[1..];
    LessIsTotal(a[0].id, a[0].id);
  }

  lemma {:induction false} OrderedCount(a: seq<Entry>)
    requires Ordered(a)
    ensures |Elements(a)| == |a|
  {
    if a != [] {
      OrderedTail(a);
      OrderedCount(a[1..]);
    }
  }

  /** Any correct sort gives the same sequence: the order is strict. */
  lemma {:induction false} OrderedIsUnique(a: seq<Entry>, b: seq<Entry>)
    requires Ordered(a) && Ordered(b) && Elements(a) == Elements(b)
    ensures a == b
  {
    OrderedCount(a);
    OrderedCount(b);
    if a != [] {
      OrderedTail(a);
      OrderedTail(b);
      LessIsTotal(a[0].id, b[0].id);
      OrderedIsUnique(a[1..], b[1..]);
      assert a == [a[0]] + a[1..] && b == [b[0]] + b[1..];
    }
  }

  /** Everything one successful collection removes. A zero limit disables eviction. */
  function Collected(f: Files, order: seq<Entry>, limit: int, cutoff: int, all: bool, evict: bool): set<string>
    requires ValidFiles(f)
  {
    var swept := Sweep(order, |order|, all, evict);
    if !evict || limit == 0 || all then swept else Evict(f, order, 0, swept, limit, cutoff)
  }

  /** The inventory in eviction order. */
  ghost predicate InOrder(order: seq<Entry>, f: Files) {
    ValidFiles(f) && Enumerates(order, f, Ids(f)) && Listed(order) && Ordered(order)
  }

  lemma SortedInventory(entries: seq<Entry>, f: Files)
    requires ValidFiles(f) && Enumerates(entries, f, Ids(f))
    ensures Listed(entries) && InOrder(Sorted(entries), f) && Elements(Sorted(entries)) == Elements(entries)
  {
    var order := Sorted(entries);
    SortedIsOrdered(entries);
    forall i | 0 <= i < |order| ensures order[i].id in Ids(f) && order[i] == EntryOf(f, order[i].id) {
      assert order[i] in Elements(entries);
    }
    forall id | id in Ids(f) ensures exists i :: 0 <= i < |order| && order[i].id == id {
      var i :| 0 <= i < |entries| && entries[i].id == id;
      assert entries[i] in Elements(order);
    }
    forall i, j | 0 <= i < j < |order| ensures order[i].id != order[j].id {
      LessIsTotal(order[i].id, order[i].id);
      assert Earlier(order[i], order[j]);
      assert order[i] == EntryOf(f, order[i].id) && order[j] == EntryOf(f, order[j].id);
    }
    EnumerationsAreListed(entries, f);
    EnumerationsAreListed(order, f);
  }

  /** There is one inventory in eviction order, whatever order the map yielded. */
  lemma OneOrder(a: seq<Entry>, b: seq<Entry>, f: Files)
    requires InOrder(a, f) && InOrder(b, f)
    ensures a == b
  {
    forall i | 0 <= i < |a| ensures a[i] in Elements(b) {
      var j :| 0 <= j < |b| && b[j].id == a[i].id;
      assert b[j] == a[i];
    }
    forall i | 0 <= i < |b| ensures b[i] in Elements(a) {
      var j :| 0 <= j < |a| && a[j].id == b[i].id;
      assert a[j] == b[i];
    }
    OrderedIsUnique(a, b);
  }
}
