/** Pairwise relations and sums over a sequence do not depend on its order. */
module Pairs {
  ghost predicate Symmetric<T(!new)>(rel: (T, T) -> bool) {
    forall a, b :: rel(a, b) == rel(b, a)
  }

  predicate Pairwise<T>(s: seq<T>, rel: (T, T) -> bool) {
    forall i, j :: 0 <= i < j < |s| ==> rel(s[i], s[j])
  }

  ghost predicate BagPairwise<T(!new)>(bag: multiset<T>, rel: (T, T) -> bool) {
    && (forall a :: bag[a] > 1 ==> rel(a, a))
    && (forall a, b :: a in bag && b in bag && a != b ==> rel(a, b))
  }

  lemma {:induction false} PairwiseAsBag<T(!new)>(s: seq<T>, rel: (T, T) -> bool)
    requires Symmetric(rel)
    ensures Pairwise(s, rel) <==> BagPairwise(multiset(s), rel)
  {
    if s != [] {
      var n := |s| - 1;
      var rest, last := s[..n], s[n];
      assert s == rest + [last];
      PairwiseAsBag(rest, rel);
      BagGrows(multiset(rest), last, rel);
      PairwiseLast(rest, last, rel);
    }
  }

  lemma PairwiseLast<T>(s: seq<T>, last: T, rel: (T, T) -> bool)
    ensures Pairwise(s + [last], rel) <==> (Pairwise(s, rel) && forall a <- s :: rel(a, last))
  {
    var all := s + [last];
    assert forall i :: 0 <= i < |s| ==> all[i] == s[i];
    assert all[|s|] == last;
    if Pairwise(all, rel) {
      forall i, j | 0 <= i < j < |s| ensures rel(s[i], s[j]) {
        assert rel(all[i], all[j]);
      }
      forall a <- s ensures rel(a, last) {
        var i :| 0 <= i < |s| && s[i] == a;
        assert rel(all[i], all[|s|]);
      }
    }
  }

  lemma PairwiseFirst<T>(first: T, s: seq<T>, rel: (T, T) -> bool)
    ensures Pairwise([first] + s, rel) <==> (Pairwise(s, rel) && forall a <- s :: rel(first, a))
  {
    var all := [first] + s;
    assert forall i :: 0 <= i < |s| ==> all[i + 1] == s[i];
    if Pairwise(all, rel) {
      forall i, j | 0 <= i < j < |s| ensures rel(s[i], s[j]) {
        assert rel(all[i + 1], all[j + 1]);
      }
      forall a <- s ensures rel(first, a) {
        var i :| 0 <= i < |s| && s[i] == a;
        assert rel(all[0], all[i + 1]);
      }
    }
    if Pairwise(s, rel) && forall a <- s :: rel(first, a) {
      forall i, j | 0 <= i < j < |all| ensures rel(all[i], all[j]) {
        assert all[j] == s[j - 1] && (i > 0 ==> all[i] == s[i - 1]);
      }
    }
  }

  lemma BagGrows<T(!new)>(bag: multiset<T>, last: T, rel: (T, T) -> bool)
    requires Symmetric(rel)
    ensures BagPairwise(bag + multiset{last}, rel) <==> (BagPairwise(bag, rel) && forall a :: a in bag ==> rel(a, last))
  {
    var more := bag + multiset{last};
    assert forall a :: more[a] == bag[a] + if a == last then 1 else 0;
    if BagPairwise(more, rel) {
      forall a | a in bag ensures rel(a, last) {
        assert a == last ==> more[a] > 1;
        assert a in more && last in more;
      }
      assert forall a, b :: a in bag && b in bag ==> a in more && b in more;
      assert forall a :: bag[a] > 1 ==> more[a] > 1;
    }
    if BagPairwise(bag, rel) && forall a :: a in bag ==> rel(a, last) {
      forall a | more[a] > 1 ensures rel(a, a) {
        assert a == last ==> a in bag;
      }
      forall a, b | a in more && b in more && a != b ensures rel(a, b) {
        assert rel(b, a) == rel(a, b);
        assert (a in bag || a == last) && (b in bag || b == last);
      }
    }
  }

  lemma PairwiseIgnoresOrder<T(!new)>(s: seq<T>, t: seq<T>, rel: (T, T) -> bool)
    requires Symmetric(rel) && multiset(s) == multiset(t)
    ensures Pairwise(s, rel) <==> Pairwise(t, rel)
  {
    PairwiseAsBag(s, rel);
    PairwiseAsBag(t, rel);
  }

  function Sum<T>(s: seq<T>, weight: T -> int): int {
    if s == [] then 0 else Sum(s[..|s| - 1], weight) + weight(s[|s| - 1])
  }

  lemma {:induction false} SumWithout<T>(s: seq<T>, k: nat, weight: T -> int)
    requires k < |s|
    ensures Sum(s, weight) == Sum(s[..k] + s[k + 1..], weight) + weight(s[k])
  {
    var n := |s| - 1;
    if k < n {
      SumWithout(s[..n], k, weight);
      var less := s[..k] + s[k + 1..];
      assert less[..|less| - 1] == s[..n][..k] + s[..n][k + 1..];
      assert less[|less| - 1] == s[n];
    } else {
      assert s[..k] + s[k + 1..] == s[..n];
    }
  }

  lemma {:induction false} SumIgnoresOrder<T(!new)>(s: seq<T>, t: seq<T>, weight: T -> int)
    requires multiset(s) == multiset(t)
    ensures Sum(s, weight) == Sum(t, weight)
  {
    if s == [] {
      assert |multiset(t)| == 0;
    } else {
      var n := |s| - 1;
      assert s == s[..n] + [s[n]];
      assert s[n] in multiset(t);
      var k :| 0 <= k < |t| && t[k] == s[n];
      var rest := t[..k] + t[k + 1..];
      assert t == t[..k] + [t[k]] + t[k + 1..];
      assert multiset(rest) == multiset(t) - multiset{t[k]};
      SumWithout(t, k, weight);
      SumIgnoresOrder(s[..n], rest, weight);
    }
  }

  /** What every element yields, one after another. */
  function Collect<T, U>(s: seq<T>, f: T -> seq<U>): seq<U> {
    if s == [] then [] else Collect(s[..|s| - 1], f) + f(s[|s| - 1])
  }

  lemma {:induction false} CollectWithout<T, U>(s: seq<T>, k: nat, f: T -> seq<U>)
    requires k < |s|
    ensures multiset(Collect(s, f)) == multiset(Collect(s[..k] + s[k + 1..], f)) + multiset(f(s[k]))
  {
    var n := |s| - 1;
    if k < n {
      CollectWithout(s[..n], k, f);
      var less := s[..k] + s[k + 1..];
      assert less[..|less| - 1] == s[..n][..k] + s[..n][k + 1..];
      assert less[|less| - 1] == s[n];
    } else {
      assert s[..k] + s[k + 1..] == s[..n];
    }
  }

  lemma {:induction false} CollectIgnoresOrder<T(!new), U>(s: seq<T>, t: seq<T>, f: T -> seq<U>)
    requires multiset(s) == multiset(t)
    ensures multiset(Collect(s, f)) == multiset(Collect(t, f))
  {
    if s == [] {
      assert |multiset(t)| == 0;
    } else {
      var n := |s| - 1;
      assert s == s[..n] + [s[n]];
      assert s[n] in multiset(t);
      var k :| 0 <= k < |t| && t[k] == s[n];
      var rest := t[..k] + t[k + 1..];
      assert t == t[..k] + [t[k]] + t[k + 1..];
      assert multiset(rest) == multiset(t) - multiset{t[k]};
      CollectWithout(t, k, f);
      CollectIgnoresOrder(s[..n], rest, f);
    }
  }

  lemma {:induction false} CollectAlike<T, U>(s: seq<T>, f: T -> seq<U>, g: T -> seq<U>)
    requires forall x <- s :: f(x) == g(x)
    ensures Collect(s, f) == Collect(s, g)
  {
    if s != [] {
      assert s[|s| - 1] in s;
      CollectAlike(s[..|s| - 1], f, g);
    }
  }

  lemma SameElements<T>(s: seq<T>, t: seq<T>)
    requires multiset(s) == multiset(t)
    ensures |s| == |t| && forall e :: e in s <==> e in t
  {
    assert |multiset(s)| == |s| && |multiset(t)| == |t|;
    assert forall e :: e in s <==> e in multiset(s);
    assert forall e :: e in t <==> e in multiset(t);
  }
}
