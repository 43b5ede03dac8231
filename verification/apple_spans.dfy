/**
 Disjointness of byte ranges, decided as internal/apple/macho.go decides it: sort by
 start, then compare neighbours.
 */
module AppleSpans {
  import Pairs

  datatype Span = Span(start: nat, end: nat)

  predicate Apart(a: Span, b: Span) {
    a.end <= b.start || b.end <= a.start
  }

  predicate PairwiseApart(spans: seq<Span>) {
    forall i, j :: 0 <= i < j < |spans| ==> Apart(spans[i], spans[j])
  }

  predicate Nonempty(spans: seq<Span>) {
    forall i :: 0 <= i < |spans| ==> spans[i].start < spans[i].end
  }

  predicate SortedByStart(spans: seq<Span>) {
    forall i, j :: 0 <= i < j < |spans| ==> spans[i].start <= spans[j].start
  }

  predicate NeighboursApart(spans: seq<Span>) {
    forall i :: 1 <= i < |spans| ==> spans[i - 1].end <= spans[i].start
  }

  /** Comparing neighbours after any sort by start, stable or not, decides disjointness
      of every pair. */
  lemma NeighboursDecide(spans: seq<Span>, sorted: seq<Span>)
    requires Nonempty(spans) && multiset(sorted) == multiset(spans) && SortedByStart(sorted)
    ensures NeighboursApart(sorted) <==> PairwiseApart(spans)
  {
    assert forall i :: 0 <= i < |sorted| ==> sorted[i] in multiset(spans);
    NeighboursOrder(sorted);
    var apart := (a: Span, b: Span) => Apart(a, b);
    assert Pairs.Symmetric(apart);
    Pairs.PairwiseIgnoresOrder(spans, sorted, apart);
    assert Pairs.Pairwise(spans, apart) == PairwiseApart(spans);
    assert Pairs.Pairwise(sorted, apart) == PairwiseApart(sorted);
  }

  lemma NeighboursOrder(sorted: seq<Span>)
    requires Nonempty(sorted) && SortedByStart(sorted)
    ensures NeighboursApart(sorted) <==> PairwiseApart(sorted)
  {
    if NeighboursApart(sorted) {
      forall i, j | 0 <= i < j < |sorted| ensures Apart(sorted[i], sorted[j]) {
        assert sorted[i].end <= sorted[i + 1].start;
        assert i + 1 < j ==> sorted[i + 1].start <= sorted[j].start;
      }
    }
    if PairwiseApart(sorted) {
      forall i | 1 <= i < |sorted| ensures sorted[i - 1].end <= sorted[i].start {
        assert Apart(sorted[i - 1], sorted[i]) && sorted[i - 1].start <= sorted[i].start;
      }
    }
  }

  function Insert(span: Span, sorted: seq<Span>): seq<Span> {
    if sorted == [] || span.start <= sorted[0].start then [span] + sorted else [sorted[0]] + Insert(span, sorted[1..])
  }

  function Sort(spans: seq<Span>): seq<Span> {
    if spans == [] then [] else Insert(spans[|spans| - 1], Sort(spans[..|spans| - 1]))
  }

  lemma {:induction false} InsertSorts(span: Span, sorted: seq<Span>)
    requires SortedByStart(sorted)
    ensures SortedByStart(Insert(span, sorted)) && multiset(Insert(span, sorted)) == multiset(sorted) + multiset{span}
    ensures Insert(span, sorted)[0] == span || (sorted != [] && Insert(span, sorted)[0] == sorted[0])
  {
    hide SortedByStart;
    if sorted == [] || span.start <= sorted[0].start {
      SortedFirst(span, sorted);
    } else {
      var first, rest := sorted[0], sorted[1..];
      assert sorted == [first] + rest;
      SortedFirst(first, rest);
      InsertSorts(span, rest);
      SortedFirst(first, Insert(span, rest));
      assert multiset([first] + Insert(span, rest)) == multiset{first} + multiset(Insert(span, rest));
      assert multiset([first] + rest) == multiset{first} + multiset(rest);
    }
  }

  lemma SortedFirst(first: Span, rest: seq<Span>)
    ensures SortedByStart([first] + rest) <==> SortedByStart(rest) && (rest != [] ==> first.start <= rest[0].start)
  {
    var all := [first] + rest;
    if SortedByStart(all) {
      assert rest != [] ==> all[1] == rest[0] && all[0].start <= all[1].start;
      forall i, j | 0 <= i < j < |rest| ensures rest[i].start <= rest[j].start {
        assert all[i + 1] == rest[i] && all[j + 1] == rest[j] && all[i + 1].start <= all[j + 1].start;
      }
    }
    if SortedByStart(rest) && (rest != [] ==> first.start <= rest[0].start) {
      forall i, j | 0 <= i < j < |all| ensures all[i].start <= all[j].start {
        assert all[j] == rest[j - 1] && rest[0].start <= rest[j - 1].start;
        assert i > 0 ==> all[i] == rest[i - 1];
      }
    }
  }

  lemma {:induction false} SortSorts(spans: seq<Span>)
    ensures SortedByStart(Sort(spans)) && multiset(Sort(spans)) == multiset(spans)
  {
    if spans != [] {
      hide Insert;
      var before, last := spans[..|spans| - 1], spans[|spans| - 1];
      assert spans == before + [last];
      SortSorts(before);
      InsertSorts(last, Sort(before));
    }
  }

  /** The overlap check of slices and of signature blobs. */
  method CheckApart(spans: seq<Span>) returns (ok: bool)
    requires Nonempty(spans)
    ensures ok <==> PairwiseApart(spans)
  {
    var sorted := Sort(spans);
    SortSorts(spans);
    NeighboursDecide(spans, sorted);
    hide PairwiseApart;
    var i := 1;
    while i < |sorted|
      invariant forall k :: 1 <= k < i && k < |sorted| ==> sorted[k - 1].end <= sorted[k].start
    {
      if sorted[i].start < sorted[i - 1].end {
        return false;
      }
      i := i + 1;
    }
    return true;
  }
}
