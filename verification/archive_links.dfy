/**
 What a name means in a tree with links (internal/archive/tarfs.go), said of children,
 parents and link targets only: a link leads where its target leads from the directory
 that holds it, and the rest of the name goes on from there. The lookup loop, which
 splices targets into the pending components, computes exactly this.
 */
module ArchiveLinks {
  import opened ArchiveTree

  datatype Outcome = At(node: Path) | Refused(error: LookupError)

  ghost predicate ChildOf(parent: Path, child: Path) {
    exists part :: child == parent + [part]
  }

  /** From d, the name ends with this outcome after following exactly so many links. */
  ghost predicate Leads(t: Tree, root: Path, d: Path, name: seq<string>, follow: bool, links: nat, out: Outcome)
    decreases links, |name|
  {
    if name == [] then links == 0 && out == At(d)
    else if !IsDirectory(t, d) then links == 0 && out == Refused(Invalid)
    else if name[0] in ["", "."] then Leads(t, root, d, name[1..], follow, links, out)
    else if name[0] == ".." then
      if d == root then links == 0 && out == Refused(Permission)
      else exists parent :: ChildOf(parent, d) && Leads(t, root, parent, name[1..], follow, links, out)
    else if d + [name[0]] !in t then links == 0 && out == Refused(NotExist)
    else match t[d + [name[0]]]
      case Link(target) =>
        if name == [name[0]] && !follow then links == 0 && out == At(d + [name[0]])
        else Follows(t, root, d, target, name[1..], follow, links, out)
      case _ => Leads(t, root, d + [name[0]], name[1..], follow, links, out)
  }

  /** A link in d leads where its target leads from d; the rest goes on from there. */
  ghost predicate Follows(t: Tree, root: Path, d: Path, target: seq<string>, rest: seq<string>, follow: bool,
                          links: nat, out: Outcome)
    decreases links, |rest|
  {
    links > 0 && (
      || (out.Refused? && Leads(t, root, d, target, true, links - 1, out))
      || exists node, k: nat :: k < links && Leads(t, root, d, target, true, k, At(node))
           && Leads(t, root, node, rest, follow, links - 1 - k, out))
  }

  /** The first part of a name leads somewhere, and the rest goes on from there. */
  ghost predicate Splits(t: Tree, root: Path, d: Path, a: seq<string>, b: seq<string>, follow: bool, links: nat,
                         out: Outcome)
  {
    || (out.Refused? && Leads(t, root, d, a, true, links, out))
    || exists node, k: nat :: k <= links && Leads(t, root, d, a, true, k, At(node))
         && Leads(t, root, node, b, follow, links - k, out)
  }

  lemma {:induction false} JoinRefused(t: Tree, root: Path, d: Path, a: seq<string>, b: seq<string>, follow: bool,
                                       links: nat, out: Outcome)
    requires b != [] && out.Refused? && Leads(t, root, d, a, true, links, out)
    ensures Leads(t, root, d, a + b, follow, links, out)
    decreases links, |a|
  {
    assert a != [] && (a + b)[0] == a[0] && (a + b)[1..] == a[1..] + b;
    if !IsDirectory(t, d) {
    } else if a[0] in ["", "."] {
      JoinRefused(t, root, d, a[1..], b, follow, links, out);
    } else if a[0] == ".." {
      if d != root {
        var parent :| ChildOf(parent, d) && Leads(t, root, parent, a[1..], true, links, out);
        JoinRefused(t, root, parent, a[1..], b, follow, links, out);
      }
    } else if d + [a[0]] in t {
      if t[d + [a[0]]].Link? {
        var target := t[d + [a[0]]].target;
        assert Follows(t, root, d, target, a[1..], true, links, out);
        if !Leads(t, root, d, target, true, links - 1, out) {
          var node, k: nat :| k < links && Leads(t, root, d, target, true, k, At(node))
            && Leads(t, root, node, a[1..], true, links - 1 - k, out);
          JoinRefused(t, root, node, a[1..], b, follow, links - 1 - k, out);
        }
        assert Follows(t, root, d, target, a[1..] + b, follow, links, out);
        assert a + b != [a[0]];
      } else {
        JoinRefused(t, root, d + [a[0]], a[1..], b, follow, links, out);
      }
    }
  }

  lemma {:induction false} Join(t: Tree, root: Path, d: Path, a: seq<string>, b: seq<string>, follow: bool,
                                node: Path, k: nat, j: nat, out: Outcome)
    requires b != [] && Leads(t, root, d, a, true, k, At(node)) && Leads(t, root, node, b, follow, j, out)
    ensures Leads(t, root, d, a + b, follow, k + j, out)
    decreases k, |a|
  {
    if a == [] {
      assert a + b == b;
    } else {
      assert (a + b)[0] == a[0] && (a + b)[1..] == a[1..] + b;
      if a[0] in ["", "."] {
        Join(t, root, d, a[1..], b, follow, node, k, j, out);
      } else if a[0] == ".." {
        var parent :| ChildOf(parent, d) && Leads(t, root, parent, a[1..], true, k, At(node));
        Join(t, root, parent, a[1..], b, follow, node, k, j, out);
      } else if t[d + [a[0]]].Link? {
        var target := t[d + [a[0]]].target;
        assert Follows(t, root, d, target, a[1..], true, k, At(node));
        var mid, i: nat :| i < k && Leads(t, root, d, target, true, i, At(mid))
          && Leads(t, root, mid, a[1..], true, k - 1 - i, At(node));
        Join(t, root, mid, a[1..], b, follow, node, k - 1 - i, j, out);
        assert Leads(t, root, mid, a[1..] + b, follow, k + j - 1 - i, out);
        assert Follows(t, root, d, target, a[1..] + b, follow, k + j, out);
        assert a + b != [a[0]];
      } else {
        Join(t, root, d + [a[0]], a[1..], b, follow, node, k, j, out);
      }
    }
  }

  lemma {:induction false} Split(t: Tree, root: Path, d: Path, a: seq<string>, b: seq<string>, follow: bool,
                                 links: nat, out: Outcome)
    requires b != [] && Leads(t, root, d, a + b, follow, links, out)
    ensures Splits(t, root, d, a, b, follow, links, out)
    decreases links, |a|
  {
    if a == [] {
      assert a + b == b;
      assert Leads(t, root, d, a, true, 0, At(d)) && Leads(t, root, d, b, follow, links - 0, out);
    } else {
      assert (a + b)[0] == a[0] && (a + b)[1..] == a[1..] + b;
      if !IsDirectory(t, d) {
      } else if a[0] in ["", "."] {
        Split(t, root, d, a[1..], b, follow, links, out);
        SplitStep(t, root, d, d, a, b, follow, links, out);
      } else if a[0] == ".." {
        if d != root {
          var parent :| ChildOf(parent, d) && Leads(t, root, parent, a[1..] + b, follow, links, out);
          Split(t, root, parent, a[1..], b, follow, links, out);
          SplitStep(t, root, d, parent, a, b, follow, links, out);
        }
      } else if d + [a[0]] in t {
        if t[d + [a[0]]].Link? {
          assert a + b != [a[0]];
          SplitLink(t, root, d, a, b, follow, links, out);
        } else {
          Split(t, root, d + [a[0]], a[1..], b, follow, links, out);
          SplitStep(t, root, d, d + [a[0]], a, b, follow, links, out);
        }
      }
    }
  }

  /** One component without a link in front. */
  lemma SplitStep(t: Tree, root: Path, d: Path, next: Path, a: seq<string>, b: seq<string>, follow: bool,
                  links: nat, out: Outcome)
    requires a != [] && Splits(t, root, next, a[1..], b, follow, links, out)
    requires forall k: nat, o :: Leads(t, root, next, a[1..], true, k, o) ==> Leads(t, root, d, a, true, k, o)
    ensures Splits(t, root, d, a, b, follow, links, out)
  {
    hide Leads;
  }

  lemma {:induction false} SplitLink(t: Tree, root: Path, d: Path, a: seq<string>, b: seq<string>, follow: bool,
                                     links: nat, out: Outcome)
    requires b != [] && a != [] && IsDirectory(t, d) && Plain(a[0]) && d + [a[0]] in t && t[d + [a[0]]].Link?
    requires Follows(t, root, d, t[d + [a[0]]].target, a[1..] + b, follow, links, out)
    ensures Splits(t, root, d, a, b, follow, links, out)
    decreases links, |a|, 0
  {
    var target := t[d + [a[0]]].target;
    if out.Refused? && Leads(t, root, d, target, true, links - 1, out) {
      assert Follows(t, root, d, target, a[1..], true, links, out);
    } else {
      var mid, i: nat :| i < links && Leads(t, root, d, target, true, i, At(mid))
        && Leads(t, root, mid, a[1..] + b, follow, links - 1 - i, out);
      Split(t, root, mid, a[1..], b, follow, links - 1 - i, out);
      if out.Refused? && Leads(t, root, mid, a[1..], true, links - 1 - i, out) {
        assert Follows(t, root, d, target, a[1..], true, links, out);
      } else {
        var node, k: nat :| k <= links - 1 - i && Leads(t, root, mid, a[1..], true, k, At(node))
          && Leads(t, root, node, b, follow, links - 1 - i - k, out);
        assert Follows(t, root, d, target, a[1..], true, i + 1 + k, At(node)) by {
          assert Leads(t, root, mid, a[1..], true, i + 1 + k - 1 - i, At(node));
        }
        assert Leads(t, root, d, a, true, i + 1 + k, At(node));
        assert Leads(t, root, node, b, follow, links - (i + 1 + k), out);
      }
    }
  }

  // ----- The loop computes it -----

  /** Whatever the loop finds, the name leads to; whatever stops it, stops the name. */
  ghost predicate Agrees(t: Tree, root: Path, d: Path, name: seq<string>, left: nat, follow: bool) {
    match Walk(t, root, d, name, left, follow)
    case Found(node, unused) => unused <= left && Leads(t, root, d, name, follow, left - unused, At(node))
    case Failed(error) =>
      error == TooManyLinks || exists k: nat :: k <= left && Leads(t, root, d, name, follow, k, Refused(error))
  }

  lemma AgreesStep(t: Tree, root: Path, d: Path, next: Path, name: seq<string>, left: nat, follow: bool)
    requires name != [] && Agrees(t, root, next, name[1..], left, follow)
    requires Walk(t, root, d, name, left, follow) == Walk(t, root, next, name[1..], left, follow)
    requires forall k: nat, o :: Leads(t, root, next, name[1..], follow, k, o) ==> Leads(t, root, d, name, follow, k, o)
    ensures Agrees(t, root, d, name, left, follow)
  {
    hide Walk, Leads;
  }

  lemma {:induction false} WalkLeads(t: Tree, root: Path, d: Path, name: seq<string>, left: nat, follow: bool)
    requires root <= d
    ensures Agrees(t, root, d, name, left, follow)
    decreases left, |name|
  {
    if name == [] {
    } else if !IsDirectory(t, d) {
      assert Leads(t, root, d, name, follow, 0, Refused(Invalid));
    } else if name[0] in ["", "."] {
      WalkLeads(t, root, d, name[1..], left, follow);
      AgreesStep(t, root, d, d, name, left, follow);
    } else if name[0] == ".." {
      if d == root {
        assert Leads(t, root, d, name, follow, 0, Refused(Permission));
      } else {
        assert d == Parent(d) + [d[|d| - 1]] && ChildOf(Parent(d), d);
        WalkLeads(t, root, Parent(d), name[1..], left, follow);
        AgreesStep(t, root, d, Parent(d), name, left, follow);
      }
    } else if d + [name[0]] !in t {
      assert Leads(t, root, d, name, follow, 0, Refused(NotExist));
    } else if !t[d + [name[0]]].Link? {
      WalkLeads(t, root, d + [name[0]], name[1..], left, follow);
      AgreesStep(t, root, d, d + [name[0]], name, left, follow);
    } else if follow || name[1..] != [] {
      if left > 0 {
        WalkLeads(t, root, d, t[d + [name[0]]].target + name[1..], left - 1, follow);
        AgreesAfterLink(t, root, d, name, left, follow);
      }
    } else {
      assert name == [name[0]];
    }
  }

  lemma AgreesAfterLink(t: Tree, root: Path, d: Path, name: seq<string>, left: nat, follow: bool)
    requires left > 0 && name != [] && IsDirectory(t, d) && Plain(name[0]) && d + [name[0]] in t
    requires t[d + [name[0]]].Link? && (follow || name[1..] != [])
    requires Agrees(t, root, d, t[d + [name[0]]].target + name[1..], left - 1, follow)
    ensures Agrees(t, root, d, name, left, follow)
  {
    var target, rest := t[d + [name[0]]].target, name[1..];
    assert name != [name[0]] || follow;
    match Walk(t, root, d, target + rest, left - 1, follow)
    case Found(node, unused) =>
      SplicedFollows(t, root, d, target, rest, follow, left - unused, At(node));
    case Failed(error) =>
      if error != TooManyLinks {
        var k: nat :| k <= left - 1 && Leads(t, root, d, target + rest, follow, k, Refused(error));
        SplicedFollows(t, root, d, target, rest, follow, k + 1, Refused(error));
        assert Leads(t, root, d, name, follow, k + 1, Refused(error));
      }
  }

  /** Splicing the target in front of the rest is following the link. */
  lemma SplicedFollows(t: Tree, root: Path, d: Path, target: seq<string>, rest: seq<string>, follow: bool, links: nat,
                       out: Outcome)
    requires links > 0 && (follow || rest != [])
    ensures Leads(t, root, d, target + rest, follow, links - 1, out) <==>
            Follows(t, root, d, target, rest, follow, links, out)
  {
    if rest == [] {
      assert target + rest == target;
      if Follows(t, root, d, target, rest, follow, links, out) && out.At? {
        assert Follows(t, root, d, target, rest, follow, links, out);
        var node, k: nat :| k < links && Leads(t, root, d, target, true, k, At(node))
          && Leads(t, root, node, rest, follow, links - 1 - k, out);
        assert node == out.node && k == links - 1;
      }
      if Leads(t, root, d, target, true, links - 1, out) && out.At? {
        assert Leads(t, root, out.node, rest, follow, links - 1 - (links - 1), out);
      }
    } else {
      if Leads(t, root, d, target + rest, follow, links - 1, out) {
        Split(t, root, d, target, rest, follow, links - 1, out);
      }
      if Follows(t, root, d, target, rest, follow, links, out) {
        if out.Refused? && Leads(t, root, d, target, true, links - 1, out) {
          JoinRefused(t, root, d, target, rest, follow, links - 1, out);
        } else {
          assert Follows(t, root, d, target, rest, follow, links, out);
          var node, k: nat :| k < links && Leads(t, root, d, target, true, k, At(node))
            && Leads(t, root, node, rest, follow, links - 1 - k, out);
          Join(t, root, d, target, rest, follow, node, k, links - 1 - k, out);
        }
      }
    }
  }

  function Answer(out: Outcome, left: nat): Lookup {
    match out
    case At(node) => Found(node, left)
    case Refused(error) => Failed(error)
  }

  lemma LeadsSpliced(t: Tree, root: Path, d: Path, name: seq<string>, follow: bool, links: nat, out: Outcome)
    requires Leads(t, root, d, name, follow, links, out) && name != [] && IsDirectory(t, d) && Plain(name[0])
    requires d + [name[0]] in t && t[d + [name[0]]].Link? && (follow || name[1..] != [])
    ensures links > 0 && Leads(t, root, d, t[d + [name[0]]].target + name[1..], follow, links - 1, out)
  {
    assert name != [name[0]] || follow;
    assert Follows(t, root, d, t[d + [name[0]]].target, name[1..], follow, links, out);
    SplicedFollows(t, root, d, t[d + [name[0]]].target, name[1..], follow, links, out);
  }

  /** Where a name leads, the loop arrives, as long as the links fit the budget. */
  lemma {:induction false} LeadsWalk(t: Tree, root: Path, d: Path, name: seq<string>, left: nat, follow: bool,
                                     links: nat, out: Outcome)
    requires root <= d && Leads(t, root, d, name, follow, links, out)
    ensures Walk(t, root, d, name, left, follow) ==
            if links <= left then Answer(out, left - links) else Failed(TooManyLinks)
    decreases left, |name|
  {
    hide Follows;
    if name == [] || !IsDirectory(t, d) {
    } else if name[0] in ["", "."] {
      LeadsWalk(t, root, d, name[1..], left, follow, links, out);
    } else if name[0] == ".." {
      if d != root {
        var parent :| ChildOf(parent, d) && Leads(t, root, parent, name[1..], follow, links, out);
        assert parent == Parent(d);
        LeadsWalk(t, root, parent, name[1..], left, follow, links, out);
      }
    } else if d + [name[0]] in t {
      LeadsWalkNamed(t, root, d, name, left, follow, links, out);
    }
  }

  lemma {:induction false} LeadsWalkNamed(t: Tree, root: Path, d: Path, name: seq<string>, left: nat, follow: bool,
                                          links: nat, out: Outcome)
    requires root <= d && Leads(t, root, d, name, follow, links, out)
    requires name != [] && IsDirectory(t, d) && Plain(name[0]) && d + [name[0]] in t
    ensures Walk(t, root, d, name, left, follow) ==
            if links <= left then Answer(out, left - links) else Failed(TooManyLinks)
    decreases left, |name|, 0
  {
    hide Follows;
    if t[d + [name[0]]].Link? && (follow || name[1..] != []) {
      LeadsSpliced(t, root, d, name, follow, links, out);
      if left > 0 {
        LeadsWalk(t, root, d, t[d + [name[0]]].target + name[1..], left - 1, follow, links - 1, out);
      }
    } else if !t[d + [name[0]]].Link? {
      LeadsWalk(t, root, d + [name[0]], name[1..], left, follow, links, out);
    } else {
      assert name == [name[0]];
    }
  }

  /** Having too many links is no property of a name. */
  lemma {:induction false} LeadsIsBounded(t: Tree, root: Path, d: Path, name: seq<string>, follow: bool, links: nat,
                                          out: Outcome)
    requires Leads(t, root, d, name, follow, links, out)
    ensures out != Refused(TooManyLinks)
    decreases links, |name|
  {
    if out.Refused? && name != [] && IsDirectory(t, d) {
      if name[0] in ["", "."] {
        LeadsIsBounded(t, root, d, name[1..], follow, links, out);
      } else if name[0] == ".." {
        if d != root {
          var parent :| ChildOf(parent, d) && Leads(t, root, parent, name[1..], follow, links, out);
          LeadsIsBounded(t, root, parent, name[1..], follow, links, out);
        }
      } else if d + [name[0]] in t {
        if t[d + [name[0]]].Link? {
          var target := t[d + [name[0]]].target;
          assert Follows(t, root, d, target, name[1..], follow, links, out);
          if Leads(t, root, d, target, true, links - 1, out) {
            LeadsIsBounded(t, root, d, target, true, links - 1, out);
          } else {
            var node, k: nat :| k < links && Leads(t, root, d, target, true, k, At(node))
              && Leads(t, root, node, name[1..], follow, links - 1 - k, out);
            LeadsIsBounded(t, root, node, name[1..], follow, links - 1 - k, out);
          }
        } else {
          LeadsIsBounded(t, root, d + [name[0]], name[1..], follow, links, out);
        }
      }
    }
  }

  predicate ValidName(name: seq<string>) {
    name == ["."] || (name != [] && forall part <- name :: part !in ["", ".", ".."])
  }

  ghost predicate StopsWithin(t: Tree, root: Path, name: seq<string>, follow: bool, links: nat, error: LookupError) {
    exists k: nat :: k <= links && Leads(t, root, root, name, follow, k, Refused(error))
  }

  ghost predicate EndsWithin(t: Tree, root: Path, name: seq<string>, follow: bool, links: nat) {
    exists k: nat, out :: k <= links && Leads(t, root, root, name, follow, k, out)
  }

  /** A lookup finds exactly where the name leads within forty links, and fails exactly as
      the name does; only a name that leads nowhere within forty links has too many. */
  lemma LookupIsLeads(t: Tree, root: Path, name: seq<string>, follow: bool)
    ensures forall node, left: nat :: Resolve(t, root, name, follow) == Found(node, left) <==>
              ValidName(name) && left <= 40 && Leads(t, root, root, name, follow, 40 - left, At(node))
    ensures forall error :: error != TooManyLinks ==> (Resolve(t, root, name, follow) == Failed(error) <==>
              if ValidName(name) then StopsWithin(t, root, name, follow, 40, error) else error == Invalid)
    ensures Resolve(t, root, name, follow) == Failed(TooManyLinks) <==>
              ValidName(name) && !EndsWithin(t, root, name, follow, 40)
  {
    hide Leads, Walk;
    assert forall i :: 0 <= i < |name| ==> name[i] in name;
    assert ValidPath(name) <==> ValidName(name);
    if ValidName(name) {
      WalkLeads(t, root, root, name, LINKS, follow);
      forall error | error != TooManyLinks && Resolve(t, root, name, follow) == Failed(error)
        ensures StopsWithin(t, root, name, follow, 40, error)
      {
        assert Walk(t, root, root, name, LINKS, follow) == Failed(error);
      }
      forall k: nat, out | Leads(t, root, root, name, follow, k, out)
        ensures Resolve(t, root, name, follow) == if k <= 40 then Answer(out, 40 - k) else Failed(TooManyLinks)
        ensures out != Refused(TooManyLinks)
      {
        LeadsWalk(t, root, root, name, LINKS, follow, k, out);
        LeadsIsBounded(t, root, root, name, follow, k, out);
      }
    }
  }

  // ----- A link gives way to its target -----

  /** Below a directory found without links, a link's name gives way to its target's
      components, dots and all, at the cost of one link. */
  lemma LinkGivesWay(t: Tree, root: Path, d: seq<string>, l: string, rest: seq<string>, left: nat, follow: bool)
    requires WellFormed(t) && IsDirectory(t, root + d) && PassesNoLink(t, root, d)
    requires root + d + [l] in t && t[root + d + [l]].Link? && (follow || rest != [])
    ensures Walk(t, root, root, d + [l] + rest, left, follow) ==
            if left == 0 then Failed(TooManyLinks)
            else Walk(t, root, root, d + t[root + d + [l]].target + rest, left - 1, follow)
  {
    var target := t[root + d + [l]].target;
    assert InDirectory(t, root + d + [l]);
    hide WellFormed, PassesNoLink;
    assert d + [l] + rest == d + ([l] + rest) && d + target + rest == d + (target + rest);
    PlainPrefix(t, root, root, d, [l] + rest, left, follow);
    assert ([l] + rest)[1..] == rest;
    if left > 0 {
      PlainPrefix(t, root, root, d, target + rest, left - 1, follow);
    }
  }

  lemma {:induction false} PlainPrefix(t: Tree, root: Path, current: Path, d: seq<string>, rest: seq<string>,
                                       left: nat, follow: bool)
    requires WellFormed(t) && PassesNoLink(t, current, d)
    ensures Walk(t, root, current, d + rest, left, follow) == Walk(t, root, current + d, rest, left, follow)
    decreases |d|
  {
    hide WellFormed, PassesNoLink;
    if d == [] {
      assert d + rest == rest && current + d == current;
    } else {
      PassesNext(t, current, d, left, root, follow);
      assert (d + rest)[0] == d[0] && (d + rest)[1..] == d[1..] + rest;
      AdvancePlain(t, root, current, d, rest, left, follow);
      PlainPrefix(t, root, current + [d[0]], d[1..], rest, left, follow);
    }
  }

  lemma AdvancePlain(t: Tree, root: Path, current: Path, d: seq<string>, rest: seq<string>, left: nat, follow: bool)
    requires WellFormed(t) && d != [] && PassesNoLink(t, current, d)
    ensures Advance(t, root, current, d + rest, left, follow) == To(current + [d[0]], d[1..] + rest, left)
  {
    assert (d + rest)[0] == d[0] && (d + rest)[1..] == d[1..] + rest && d[..1] == [d[0]];
    assert PassesAt(t, current, d, 1);
    AncestorsAreDirectories(t, current + [d[0]], |current|);
    assert (current + [d[0]])[..|current|] == current;
  }

  /** Between names: where d/target/rest is a name too, d/l/rest finds what it finds, with
      one link less. */
  lemma LinkIsItsTarget(t: Tree, root: Path, d: seq<string>, l: string, rest: seq<string>, follow: bool)
    requires WellFormed(t) && IsDirectory(t, root + d) && PassesNoLink(t, root, d)
    requires root + d + [l] in t && t[root + d + [l]].Link? && (follow || rest != [])
    requires ValidName(d + [l] + rest) && ValidName(d + t[root + d + [l]].target + rest)
    ensures forall node, left: nat ::
            Resolve(t, root, d + [l] + rest, follow) == Found(node, left) <==>
            Resolve(t, root, d + t[root + d + [l]].target + rest, follow) == Found(node, left + 1)
  {
    hide WellFormed, PassesNoLink;
    var target := t[root + d + [l]].target;
    ValidNames(d + [l] + rest);
    ValidNames(d + target + rest);
    LinkGivesWay(t, root, d, l, rest, 40, follow);
    WalkBudget(t, root, d + target + rest, follow);
  }

  lemma ValidNames(name: seq<string>)
    ensures ValidName(name) <==> ValidPath(name)
  {
    assert forall i :: 0 <= i < |name| ==> name[i] in name;
  }

  /** One link less to spend finds the same, as long as one was left. */
  lemma WalkBudget(t: Tree, root: Path, name: seq<string>, follow: bool)
    ensures forall node, left: nat ::
            Walk(t, root, root, name, 39, follow) == Found(node, left) <==>
            Walk(t, root, root, name, 40, follow) == Found(node, left + 1)
  {
    hide Leads, Walk;
    WalkLeads(t, root, root, name, 39, follow);
    WalkLeads(t, root, root, name, 40, follow);
    forall node, left: nat | Walk(t, root, root, name, 39, follow) == Found(node, left)
      ensures Walk(t, root, root, name, 40, follow) == Found(node, left + 1)
    {
      LeadsWalk(t, root, root, name, 40, follow, 39 - left, At(node));
    }
    forall node, left: nat | Walk(t, root, root, name, 40, follow) == Found(node, left + 1)
      ensures Walk(t, root, root, name, 39, follow) == Found(node, left)
    {
      LeadsWalk(t, root, root, name, 39, follow, 39 - left, At(node));
    }
  }
}
