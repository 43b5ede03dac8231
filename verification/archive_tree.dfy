/**
 The filesystem view of a canonical tree (internal/archive/tarfs.go). A path is the
 sequence of its components: [] is ".", a link target keeps its raw components,
 empty ones and dots included.
 */
module ArchiveTree {
  import opened Wrappers

  type Path = seq<string>

  datatype Node = Directory | Regular | Link(target: seq<string>)

  datatype LookupError = Invalid | Permission | NotExist | TooManyLinks

  /** A resolved path and the links that may still be followed. */
  datatype Lookup = Found(path: Path, left: nat) | Failed(error: LookupError)

  type Tree = map<Path, Node>

  const LINKS: nat := 40

  predicate Plain(part: string) {
    part != "" && part != "." && part != ".."
  }

  /** fs.ValidPath on the components of a slash-separated name. */
  predicate ValidPath(name: seq<string>) {
    name == ["."] || (name != [] && forall i :: 0 <= i < |name| ==> Plain(name[i]))
  }

  function Parent(path: Path): Path {
    if path == [] then [] else path[..|path| - 1]
  }

  predicate IsDirectory(t: Tree, path: Path) {
    path in t && t[path].Directory?
  }

  predicate InDirectory(t: Tree, path: Path) {
    path == [] || (Plain(path[|path| - 1]) && IsDirectory(t, Parent(path)))
  }

  /** Every node lies in a directory of the tree. */
  ghost predicate WellFormed(t: Tree) {
    IsDirectory(t, []) && forall path {:trigger InDirectory(t, path)} :: path in t ==> InDirectory(t, path)
  }

  // ----- lookup -----

  /** One iteration of the lookup loop. */
  datatype Move = To(current: Path, pending: seq<string>, left: nat) | Stop(error: LookupError)

  function Advance(t: Tree, root: Path, current: Path, pending: seq<string>, left: nat, follow: bool): (move: Move)
    requires pending != []
    ensures move.To? ==> move.left < left || (move.left == left && |move.pending| < |pending|)
  {
    if !IsDirectory(t, current) then Stop(Invalid)
    else
      var part, rest := pending[0], pending[1..];
      if part == "" || part == "." then To(current, rest, left)
      else if part == ".." then if current == root then Stop(Permission) else To(Parent(current), rest, left)
      else Enter(t, current, current + [part], rest, left, follow)
  }

  /** A link is replaced by its target's components, unless it is last and not followed. */
  function Enter(t: Tree, current: Path, next: Path, rest: seq<string>, left: nat, follow: bool): Move {
    if next !in t then Stop(NotExist)
    else if t[next].Link? && (follow || rest != []) then
      if left == 0 then Stop(TooManyLinks) else To(current, t[next].target + rest, left - 1)
    else To(next, rest, left)
  }

  /** What the lookup loop computes from one of its states. */
  function Walk(t: Tree, root: Path, current: Path, pending: seq<string>, left: nat, follow: bool): Lookup
    decreases left, |pending|
  {
    if pending == [] then Found(current, left)
    else
      match Advance(t, root, current, pending, left, follow)
      case Stop(error) => Failed(error)
      case To(current', pending', left') => Walk(t, root, current', pending', left', follow)
  }

  function Resolve(t: Tree, root: Path, name: seq<string>, follow: bool): Lookup {
    if ValidPath(name) then Walk(t, root, root, name, LINKS, follow) else Failed(Invalid)
  }

  lemma ParentStaysBelow(t: Tree, root: Path, path: Path)
    requires WellFormed(t) && path in t && root <= path && path != root
    ensures Parent(path) in t && root <= Parent(path)
  {
    assert InDirectory(t, path);
    assert path[..|path| - 1][..|root|] == path[..|root|] == root;
  }

  lemma AdvanceStays(t: Tree, root: Path, current: Path, pending: seq<string>, left: nat, follow: bool)
    requires WellFormed(t) && current in t && root <= current && pending != []
    ensures match Advance(t, root, current, pending, left, follow)
            case Stop(_) => true
            case To(current', _, left') => current' in t && root <= current' && left' <= left
  {
    hide WellFormed;
    if pending[0] == ".." && current != root {
      ParentStaysBelow(t, root, current);
    }
  }

  /** Resolves one component at a time: a link's target is walked before any later "..",
      because an earlier component can lead to another depth. */
  method LookupPath(t: Tree, root: Path, name: seq<string>, follow: bool) returns (r: Lookup)
    requires WellFormed(t) && root in t
    ensures r == Resolve(t, root, name, follow)
  {
    hide WellFormed, Parent;
    if !ValidPath(name) {
      return Failed(Invalid);
    }
    var current, pending, links := root, name, 0;
    while pending != []
      invariant current in t && root <= current && links <= LINKS
      invariant Walk(t, root, current, pending, LINKS - links, follow) == Resolve(t, root, name, follow)
      decreases LINKS - links, |pending|
    {
      hide Resolve;
      AdvanceStays(t, root, current, pending, LINKS - links, follow);
      if !t[current].Directory? {
        return Failed(Invalid);
      }
      var part := pending[0];
      ghost var all := pending;
      pending := pending[1..];
      if part == "" || part == "." {
        continue;
      }
      if part == ".." {
        if current == root {
          return Failed(Permission);
        }
        current := Parent(current);
        continue;
      }
      var next := current + [part];
      assert Advance(t, root, current, all, LINKS - links, follow)
             == Enter(t, current, next, pending, LINKS - links, follow);
      if next !in t {
        return Failed(NotExist);
      }
      if t[next].Link? && (follow || pending != []) {
        links := links + 1;
        if links > LINKS {
          return Failed(TooManyLinks);
        }
        pending := t[next].target + pending;
        continue;
      }
      current := next;
    }
    return Found(current, LINKS - links);
  }

  /** A result lies at or below the root, however many dots and links the name and the
      targets hold. */
  lemma {:induction false} WalkIsConfined(t: Tree, root: Path, current: Path, pending: seq<string>, left: nat,
                                          follow: bool)
    requires WellFormed(t) && current in t && root <= current
    ensures match Walk(t, root, current, pending, left, follow)
            case Failed(_) => true
            case Found(path, unused) => path in t && root <= path && unused <= left
    decreases left, |pending|
  {
    hide WellFormed, Advance;
    if pending != [] {
      AdvanceStays(t, root, current, pending, left, follow);
      var move := Advance(t, root, current, pending, left, follow);
      if move.To? {
        WalkIsConfined(t, root, move.current, move.pending, move.left, follow);
      }
    }
  }

  /** Only directories lie above a node. */
  lemma {:induction false} AncestorsAreDirectories(t: Tree, path: Path, n: nat)
    requires WellFormed(t) && path in t && n < |path|
    ensures IsDirectory(t, path[..n])
    decreases |path|
  {
    assert InDirectory(t, path);
    if n < |path| - 1 {
      assert Parent(path)[..n] == path[..n];
      AncestorsAreDirectories(t, Parent(path), n);
    }
  }

  lemma AdvanceOffLinks(t: Tree, root: Path, current: Path, pending: seq<string>, left: nat)
    requires WellFormed(t) && current in t && !t[current].Link? && pending != []
    ensures match Advance(t, root, current, pending, left, true)
            case Stop(_) => true
            case To(current', _, _) => current' in t && !t[current'].Link?
  {
    assert InDirectory(t, current);
  }

  /** Following never ends on a link. */
  lemma {:induction false} FollowingEndsOffLinks(t: Tree, root: Path, current: Path, pending: seq<string>, left: nat)
    requires WellFormed(t) && current in t && !t[current].Link?
    ensures match Walk(t, root, current, pending, left, true)
            case Failed(_) => true
            case Found(path, _) => path in t && !t[path].Link?
    decreases left, |pending|
  {
    hide WellFormed, Advance;
    if pending != [] {
      AdvanceOffLinks(t, root, current, pending, left);
      var move := Advance(t, root, current, pending, left, true);
      if move.To? {
        FollowingEndsOffLinks(t, root, move.current, move.pending, move.left);
      }
    }
  }

  /** The path below `current` that a name spells passes only nodes that are not links. */
  ghost predicate PassesNoLink(t: Tree, current: Path, name: seq<string>) {
    forall i :: 0 < i <= |name| ==> PassesAt(t, current, name, i)
  }

  ghost predicate PassesAt(t: Tree, current: Path, name: seq<string>, i: int)
    requires 0 < i <= |name|
  {
    Plain(name[i - 1]) && current + name[..i] in t && !t[current + name[..i]].Link?
  }

  lemma PassesNext(t: Tree, current: Path, name: seq<string>, left: nat, root: Path, follow: bool)
    requires WellFormed(t) && name != [] && PassesNoLink(t, current, name)
    ensures Advance(t, root, current, name, left, follow) == To(current + [name[0]], name[1..], left)
    ensures PassesNoLink(t, current + [name[0]], name[1..]) && current + [name[0]] + name[1..] == current + name
  {
    hide WellFormed;
    var next := current + [name[0]];
    assert name[..1] == [name[0]];
    assert PassesAt(t, current, name, 1);
    assert current + name[..1] == next && next + name[1..] == current + name;
    AncestorsAreDirectories(t, next, |current|);
    assert next[..|current|] == current;
    forall i | 0 < i <= |name[1..]| ensures PassesAt(t, next, name[1..], i) {
      assert PassesAt(t, current, name, i + 1);
      assert next + name[1..][..i] == current + name[..i + 1];
    }
  }

  /** A name that passes no link resolves to itself. */
  lemma {:induction false} PlainNamesResolveToThemselves(t: Tree, root: Path, current: Path, name: seq<string>,
                                                         left: nat, follow: bool)
    requires WellFormed(t) && PassesNoLink(t, current, name)
    ensures Walk(t, root, current, name, left, follow) == Found(current + name, left)
    decreases |name|
  {
    hide WellFormed, PassesNoLink, Advance;
    if name == [] {
      assert current + name == current;
    } else {
      PassesNext(t, current, name, left, root, follow);
      PlainNamesResolveToThemselves(t, root, current + [name[0]], name[1..], left, follow);
    }
  }

  // ----- Sub -----

  /** Sub narrows the view to a directory it found without following a final link. */
  function Sub(t: Tree, root: Path, name: seq<string>): Result<Path, LookupError> {
    match Resolve(t, root, name, false)
    case Failed(error) => Failure(error)
    case Found(path, _) => if IsDirectory(t, path) then Success(path) else Failure(Invalid)
  }

  /** path.Join of two valid names. */
  function JoinNames(d: seq<string>, x: seq<string>): seq<string> {
    if d == ["."] then x else if x == ["."] then d else d + x
  }

  ghost predicate FindsDirectory(t: Tree, root: Path, current: Path, pending: seq<string>, left: nat) {
    var found := Walk(t, root, current, pending, left, false);
    found.Found? && found.left <= left && IsDirectory(t, found.path)
  }

  /** The same iteration with more components behind it, or with another budget. */
  lemma AdvanceWithMore(t: Tree, root: Path, current: Path, pending: seq<string>, left: nat,
                        more: seq<string>, budget: nat, follow: bool)
    requires pending != []
    requires var move := Advance(t, root, current, pending, left, false);
             move.To? && !(move.pending == [] && move.current in t && t[move.current].Link?)
    ensures var move := Advance(t, root, current, pending, left, false);
            && move.left <= left <= move.left + 1
            && Advance(t, root, current, pending + more, budget, follow) ==
               if left - move.left <= budget then To(move.current, move.pending + more, budget - (left - move.left))
               else Stop(TooManyLinks)
  {
    var part, rest := pending[0], pending[1..];
    assert (pending + more)[0] == part && (pending + more)[1..] == rest + more;
    if IsDirectory(t, current) && Plain(part) {
      var next := current + [part];
      if next in t && t[next].Link? && rest != [] {
        assert t[next].target + (rest + more) == t[next].target + rest + more;
      }
    }
  }

  /** A walk that found a directory can be resumed there with more components. */
  lemma {:induction false} WalkResumes(t: Tree, root: Path, current: Path, pending: seq<string>, left: nat,
                                       more: seq<string>, budget: nat, follow: bool)
    requires FindsDirectory(t, root, current, pending, left)
    ensures var found := Walk(t, root, current, pending, left, false);
            Walk(t, root, current, pending + more, budget, follow) ==
            if left - found.left <= budget then Walk(t, root, found.path, more, budget - (left - found.left), follow)
            else Failed(TooManyLinks)
    decreases left, |pending|
  {
    hide Advance;
    if pending == [] {
      assert pending + more == more;
    } else {
      var move := Advance(t, root, current, pending, left, false);
      WalkShrinks(t, root, move.current, move.pending, move.left, false);
      AdvanceWithMore(t, root, current, pending, left, more, budget, follow);
      WalkResumes(t, root, move.current, move.pending, move.left, more,
        if left - move.left <= budget then budget - (left - move.left) else 0, follow);
    }
  }

  lemma {:induction false} WalkShrinks(t: Tree, root: Path, current: Path, pending: seq<string>, left: nat,
                                       follow: bool)
    ensures var found := Walk(t, root, current, pending, left, follow); found.Found? ==> found.left <= left
    decreases left, |pending|
  {
    if pending != [] {
      var move := Advance(t, root, current, pending, left, follow);
      if move.To? {
        WalkShrinks(t, root, move.current, move.pending, move.left, follow);
      }
    }
  }

  lemma AdvanceElsewhere(t: Tree, root: Path, narrow: Path, current: Path, pending: seq<string>, left: nat,
                         budget: nat, follow: bool)
    requires pending != [] && root <= narrow <= current && Advance(t, narrow, current, pending, left, follow).To?
    ensures var move := Advance(t, narrow, current, pending, left, follow);
            && move.left <= left <= move.left + 1 && narrow <= move.current
            && Advance(t, root, current, pending, budget, follow) ==
               if left - move.left <= budget then To(move.current, move.pending, budget - (left - move.left))
               else Stop(TooManyLinks)
  {
    if pending[0] == ".." && current != narrow {
      assert Parent(current)[..|narrow|] == narrow;
    }
  }

  /** What a narrower root finds, a wider one finds too, as long as its budget suffices. */
  lemma {:induction false} WalkElsewhere(t: Tree, root: Path, narrow: Path, current: Path, pending: seq<string>,
                                         left: nat, budget: nat, follow: bool)
    requires root <= narrow <= current && Walk(t, narrow, current, pending, left, follow).Found?
    ensures var found := Walk(t, narrow, current, pending, left, follow);
            && found.left <= left
            && Walk(t, root, current, pending, budget, follow) ==
               if left - found.left <= budget then Found(found.path, budget - (left - found.left))
                 else Failed(TooManyLinks)
    decreases left, |pending|
  {
    hide Advance;
    if pending != [] {
      AdvanceElsewhere(t, root, narrow, current, pending, left, budget, follow);
      var move := Advance(t, narrow, current, pending, left, follow);
      WalkElsewhere(t, root, narrow, move.current, move.pending, move.left,
        if left - move.left <= budget then budget - (left - move.left) else 0, follow);
    }
  }

  /** A name found through Sub(d) is the node that d/x names in the parent, exactly as
      long as the links of both lookups together fit the budget. */
  lemma SubAgreesWithParent(t: Tree, root: Path, d: seq<string>, x: seq<string>, follow: bool)
    requires WellFormed(t) && root in t && Sub(t, root, d).Success?
    requires Resolve(t, Sub(t, root, d).value, x, follow).Found?
    ensures var first := Resolve(t, root, d, false);
            var second := Resolve(t, Sub(t, root, d).value, x, follow);
            Resolve(t, root, JoinNames(d, x), follow) ==
              if first.left + second.left >= LINKS then Found(second.path, first.left + second.left - LINKS)
              else Failed(TooManyLinks)
  {
    hide Advance, WellFormed;
    var first := Resolve(t, root, d, false);
    var narrow := first.path;
    WalkIsConfined(t, root, root, d, LINKS, false);
    WalkElsewhere(t, root, narrow, narrow, x, LINKS, first.left, follow);
    WalkResumes(t, root, root, d, LINKS, x, LINKS, follow);
    if d == ["."] {
      DotStays(t, root, root, LINKS, false);
    } else if x == ["."] {
      DotStays(t, narrow, narrow, LINKS, follow);
      WalkResumes(t, root, root, d, LINKS, [], LINKS, follow);
      assert d + [] == d;
    } else {
      assert ValidPath(d + x);
    }
  }

  lemma DotStays(t: Tree, root: Path, current: Path, left: nat, follow: bool)
    requires Walk(t, root, current, ["."], left, follow).Found?
    ensures Walk(t, root, current, ["."], left, follow) == Found(current, left)
  {
    assert ["."][1..] == [];
  }
}
