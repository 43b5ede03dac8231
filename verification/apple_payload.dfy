/**
 Application facts of a package payload (internal/apple/payload.go, readCPIO): Info.plists
 and executables may come in any order in the stream. Parsing a property list, naming
 architectures and resolving an executable's name are arbitrary functions.
 */
module ApplePayload {
  import opened Wrappers
  import opened AppleCpio
  import Pairs

  const MaxMetadata: nat := 4 * 0x10_0000
  const HeaderSize: nat := 1032

  datatype Facts = Facts(executable: Bytes, details: Bytes)

  datatype App = App(path: Bytes, facts: Facts, architectures: seq<string>)

  /** root is the application root's name, empty for a payload that is not an application. */
  datatype Rules = Rules(parse: Bytes -> Option<Facts>, architectures: Bytes -> seq<string>,
                         resolve: (Bytes, Bytes) -> Option<Bytes>, root: Bytes)

  // ----- Paths -----

  /** .app/Contents/ */
  const AppContents: Bytes := [46, 97, 112, 112, 47, 67, 111, 110, 116, 101, 110, 116, 115, 47]
  /** Contents */
  const Contents: Bytes := [67, 111, 110, 116, 101, 110, 116, 115]
  /** MacOS */
  const MacOS: Bytes := [77, 97, 99, 79, 83]
  /** Info.plist */
  const InfoPlist: Bytes := [73, 110, 102, 111, 46, 112, 108, 105, 115, 116]

  function HasSuffix(b: Bytes, suffix: Bytes): bool {
    |suffix| <= |b| && b[|b| - |suffix|..] == suffix
  }

  function Last(name: Bytes): (n: nat)
    requires Slash in name
    ensures n < |name| && name[n] == Slash && Slash !in name[n + 1..]
  {
    if name[|name| - 1] == Slash then |name| - 1
    else
      assert name == name[..|name| - 1] + [name[|name| - 1]];
      assert name[Last(name[..|name| - 1]) + 1..]
             == name[..|name| - 1][Last(name[..|name| - 1]) + 1..] + [name[|name| - 1]];
      Last(name[..|name| - 1])
  }

  function Dir(name: Bytes): Bytes {
    if Slash in name then name[..Last(name)] else [Dot]
  }

  function Base(name: Bytes): Bytes {
    if Slash in name then name[Last(name) + 1..] else name
  }

  function Join(path: Bytes, name: Bytes): Bytes {
    if path == [Dot] then name else path + ([Slash] + name)
  }

  predicate IsMetadata(r: Rules, name: Bytes) {
    HasSuffix(name, AppContents + InfoPlist) || (r.root != [] && name == Contents + ([Slash] + InfoPlist))
  }

  predicate InMacOS(r: Rules, name: Bytes) {
    HasSuffix(Dir(name), AppContents + MacOS) || (r.root != [] && Dir(name) == Contents + ([Slash] + MacOS))
  }

  predicate IsExecutable(r: Rules, it: Item) {
    KindOf(it.mode) == Regular && InMacOS(r, it.name)
  }

  function AppPath(name: Bytes): Bytes {
    var suffix := [Slash] + (Contents + ([Slash] + InfoPlist));
    if name == Contents + ([Slash] + InfoPlist) then [Dot]
    else if HasSuffix(name, suffix) then name[..|name| - |suffix|] else name
  }

  lemma PathsAreWritten()
    ensures IsText(AppContents, ".app/Contents/") && IsText(Contents, "Contents") && IsText(MacOS, "MacOS")
    ensures IsText(InfoPlist, "Info.plist") && IsText([Dot], ".") && IsText([Slash], "/")
  {}

  /** The Info.plist of an application names the directory that holds its Contents. */
  lemma AppHoldsContents(path: Bytes, name: Bytes)
    ensures IsText(name, "/Contents/Info.plist") ==> AppPath(path + name) == path
    ensures IsText(name, "Contents/Info.plist") ==> IsText(AppPath(name), ".")
  {
    if IsText(name, "/Contents/Info.plist") {
      assert name == [Slash] + (Contents + ([Slash] + InfoPlist));
      assert |path + name| == 20 + |path| && (path + name)[|path|..] == name;
    }
    if IsText(name, "Contents/Info.plist") {
      assert name == Contents + ([Slash] + InfoPlist);
    }
  }

  /** And its Info.plist is found below it again. */
  lemma MetadataLiesInItsApp(r: Rules, name: Bytes, contents: Bytes)
    requires IsMetadata(r, name) && IsText(contents, "Contents/Info.plist")
    ensures Join(AppPath(name), contents) == name
  {
    ContentsAreWritten(contents);
    hide IsText;
    if name != contents {
      SuffixSplits(name, [46, 97, 112, 112], [Slash] + contents);
      assert |AppPath(name)| >= 4;
      assert name == AppPath(name) + ([Slash] + contents);
    }
  }

  lemma ContentsAreWritten(contents: Bytes)
    requires IsText(contents, "Contents/Info.plist")
    ensures contents == Contents + ([Slash] + InfoPlist)
    ensures AppContents + InfoPlist == [46, 97, 112, 112] + ([Slash] + contents)
  {}

  lemma SuffixSplits(b: Bytes, first: Bytes, second: Bytes)
    requires HasSuffix(b, first + second)
    ensures HasSuffix(b, second) && |b| - |second| >= |first| && b == b[..|b| - |second|] + second
  {
    var tail := b[|b| - |first + second|..];
    assert tail[|first|..] == second;
    assert b[|b| - |second|..] == tail[|first|..];
  }

  /** An executable is a regular file directly in an application's MacOS directory. */
  lemma ExecutablesLieInMacOS(r: Rules, it: Item, dir: Bytes, base: Bytes)
    requires it.name == dir + [Slash] + base && Slash !in base
    ensures IsExecutable(r, it) <==>
            && it.mode % 0x1_0000 - it.mode % 0x1000 == 32768
            && ((|dir| >= 19 && IsText(dir[|dir| - 19..], ".app/Contents/MacOS"))
                || (r.root != [] && IsText(dir, "Contents/MacOS")))
  {
    KindIsTheFileType(it.mode);
    assert it.name[|dir| + 1..] == base && it.name[|dir|] == Slash;
    LastIs(it.name, |dir|);
    assert Dir(it.name) == dir;
    MacOSIsWritten();
    hide KindOf, IsText, Dir;
    if |dir| >= 19 {
      SameText(AppContents + MacOS, dir[|dir| - 19..], ".app/Contents/MacOS");
    }
    SameText(Contents + ([Slash] + MacOS), dir, "Contents/MacOS");
  }

  lemma MacOSIsWritten()
    ensures IsText(AppContents + MacOS, ".app/Contents/MacOS") && IsText(Contents + ([Slash] + MacOS), "Contents/MacOS")
  {}

  lemma SameText(a: Bytes, b: Bytes, text: string)
    requires IsText(a, text)
    ensures IsText(b, text) <==> a == b
  {}

  /** The path and the directories above it. */
  function Ancestors(path: Bytes): seq<Bytes>
    decreases |path|
  {
    if path == [Dot] then [] else if Slash !in path then [path] else [path] + Ancestors(path[..Last(path)])
  }

  /** No entry is both, so reading an executable's header leaves metadata whole. */
  lemma MetadataIsNotExecutable(r: Rules, name: Bytes)
    requires IsMetadata(r, name)
    ensures !InMacOS(r, name)
  {
    var at := |name| - 11;
    assert |name| >= 12 && name[at - 1] == 115 && name[at] == Slash && name[at + 1..] == InfoPlist by {
      if HasSuffix(name, AppContents + InfoPlist) {
        var suffix := name[|name| - 24..];
        assert suffix[12] == 115 && suffix[13] == Slash && suffix[14..] == InfoPlist;
        assert suffix[14..] == name[at + 1..];
      } else {
        assert name[8 + 1..] == InfoPlist;
      }
    }
    LastIs(name, at);
    assert Dir(name)[|Dir(name)| - 1] == 115;
    assert (AppContents + MacOS)[|AppContents + MacOS| - 1] == 83;
    assert (Contents + ([Slash] + MacOS))[|Contents + ([Slash] + MacOS)| - 1] == 83;
  }

  lemma {:induction false} LastIs(name: Bytes, at: nat)
    requires at < |name| && name[at] == Slash && Slash !in name[at + 1..]
    ensures Slash in name && Last(name) == at
  {
    var n := |name| - 1;
    if at < n {
      assert name[n] == name[at + 1..][n - at - 1];
      assert name[..n][at + 1..] == name[at + 1..][..n - at - 1];
      LastIs(name[..n], at);
    }
  }

  // ----- One entry after another -----

  datatype Found = Found(apps: seq<App>, executables: map<Bytes, seq<string>>, metadata: int)

  function HeaderOf(it: Item): Bytes {
    if |it.content| <= HeaderSize then it.content else it.content[..HeaderSize]
  }

  function Executables(r: Rules, known: map<Bytes, seq<string>>, it: Item, duplicate: bool): map<Bytes, seq<string>> {
    if !IsExecutable(r, it) then known
    else known[it.name := if duplicate || it.links > 1 then [] else r.architectures(HeaderOf(it))]
  }

  predicate MetadataFits(r: Rules, it: Item) {
    KindOf(it.mode) == Regular && it.links <= 1 && |it.content| <= MaxMetadata && r.parse(it.content).Some?
  }

  function Visit(r: Rules, found: Found, it: Item, duplicate: bool): Option<Found> {
    var executables := Executables(r, found.executables, it, duplicate);
    if !IsMetadata(r, it.name) then Some(found.(executables := executables))
    else if duplicate || !MetadataFits(r, it) || |it.content| > found.metadata then None
    else Some(Found(found.apps + [App(AppPath(it.name), r.parse(it.content).value, [])], executables,
      found.metadata - |it.content|))
  }

  predicate Named(items: seq<Item>, name: Bytes) {
    exists it <- items :: it.name == name
  }

  function VisitAll(r: Rules, budget: nat, items: seq<Item>): Option<Found>
    decreases |items|
  {
    if items == [] then Some(Found([], map[], budget))
    else
      var before, last := items[..|items| - 1], items[|items| - 1];
      match VisitAll(r, budget, before)
      case None => None
      case Some(found) => Visit(r, found, last, Named(before, last.name))
  }

  function Kinds(items: seq<Item>): map<Bytes, Kind> {
    if items == [] then map[]
      else Kinds(items[..|items| - 1])[items[|items| - 1].name := KindOf(items[|items| - 1].mode)]
  }

  // ----- Completing the applications -----

  function Lookup(executables: map<Bytes, seq<string>>, name: Bytes): seq<string> {
    if name in executables then executables[name] else []
  }

  predicate AncestorsAre(kinds: map<Bytes, Kind>, path: Bytes) {
    forall p <- Ancestors(Join(path, Contents)) :: p in kinds ==> kinds[p] == Directory
  }

  function Completed(r: Rules, app: App, kinds: map<Bytes, Kind>, executables: map<Bytes, seq<string>>): App {
    match r.resolve(app.facts.executable, if app.path == [Dot] then r.root else Base(app.path))
    case None => app
    case Some(name) =>
      var dir := Join(app.path, Contents + ([Slash] + MacOS));
      if dir in kinds && kinds[dir] != Directory then app
      else app.(architectures := Lookup(executables, Join(dir, name)))
  }

  function Finish(r: Rules, found: Found, kinds: map<Bytes, Kind>): Option<seq<App>> {
    if exists app <- found.apps :: !AncestorsAre(kinds, app.path) then None
    else Some(seq(|found.apps|, i requires 0 <= i < |found.apps| =>
                    Completed(r, found.apps[i], kinds, found.executables)))
  }

  /** What a decoded payload says. */
  function Apps(r: Rules, budget: nat, items: seq<Item>): Option<seq<App>> {
    match VisitAll(r, budget, items)
    case None => None
    case Some(found) => Finish(r, found, Kinds(items))
  }

  // ----- readCPIO -----

  function Followed(done: seq<Item>, rest: Option<seq<Item>>): Option<seq<Item>> {
    match rest
    case None => None
    case Some(more) => Some(done + more)
  }

  /** Reads entries and facts in one pass: as much as decoding the stream first. */
  method ReadCPIO(r: Rules, c: Reader, budget: nat) returns (apps: Option<seq<App>>)
    requires c.seen == map[]
    ensures apps == ReadAll(r, c, budget)
  {
    hide Decode, Visit, VisitAll, Kinds, Followed, Finish, IsExecutable, IsMetadata, MetadataFits, KindOf;
    var entries := new CpioReader(c);
    var found := Found([], map[], budget);
    ghost var done: seq<Item> := [];
    FollowedTwice([], [], Decode(c));
    NothingVisited(r, budget);
    while true
      invariant fresh(entries)
      invariant Decode(c) == Followed(done, Decode(entries.Now()))
      invariant VisitAll(r, budget, done) == Some(found) && entries.seen == Kinds(done)
      decreases |entries.rest|
    {
      ghost var before := entries.Now();
      NextConsumes(before);
      KindsAreNames(done);
      FollowedByNothing(done);
      var next := entries.Advance();
      if next.Bad? {
        return None;
      }
      if next.End? {
        break;
      }
      var head := next.head;
      EntryIsSeen(before);
      if head.size > |entries.rest| {
        return None;
      }
      var content := entries.Take(head.size);
      var it := Item(head.name, head.mode, head.links, content);
      FollowedTwice(done, [it], Decode(entries.Now()));
      FollowedByOne(it, Decode(entries.Now()));
      VisitNext(r, budget, done, it);
      var visited := VisitItem(r, found, it, head.duplicate);
      if visited.None? {
        FailureIsFinal(r, budget, done + [it], Decode(entries.Now()));
        return None;
      }
      found, done := visited.value, done + [it];
    }
    apps := FinishApps(r, found, entries.seen);
  }

  lemma NothingVisited(r: Rules, budget: nat)
    ensures VisitAll(r, budget, []) == Some(Found([], map[], budget)) && Kinds([]) == map[]
  {}

  lemma FollowedByNothing(done: seq<Item>)
    ensures Followed(done, Some([])) == Some(done) && Followed(done, None) == None
  {
    assert done + [] == done;
  }

  lemma FollowedByOne(it: Item, rest: Option<seq<Item>>)
    ensures Followed([it], rest) == match rest case None => None case Some(more) => Some([it] + more)
  {}

  lemma VisitNext(r: Rules, budget: nat, done: seq<Item>, it: Item)
    ensures VisitAll(r, budget, done + [it])
         == match VisitAll(r, budget, done)
            case None => None
            case Some(found) => Visit(r, found, it, Named(done, it.name))
    ensures Kinds(done + [it]) == Kinds(done)[it.name := KindOf(it.mode)]
  {
    hide Visit;
    assert (done + [it])[..|done|] == done;
  }

  lemma FailureIsFinal(r: Rules, budget: nat, done: seq<Item>, rest: Option<seq<Item>>)
    requires VisitAll(r, budget, done).None?
    ensures Followed(done, rest).Some? ==> VisitAll(r, budget, Followed(done, rest).value).None?
  {
    hide VisitAll;
    if rest.Some? {
      VisitStaysFailed(r, budget, done, rest.value);
    }
  }

  lemma FollowedTwice(x: seq<Item>, y: seq<Item>, rest: Option<seq<Item>>)
    ensures Followed(x, Followed(y, rest)) == Followed(x + y, rest) && Followed([], rest) == rest
  {
    if rest.Some? {
      assert x + (y + rest.value) == (x + y) + rest.value;
      assert [] + rest.value == rest.value;
    }
  }

  lemma EntryIsSeen(c: Reader)
    requires ReadNext(c).Entry?
    ensures var head, after := ReadNext(c).head, ReadNext(c).after;
            && head.duplicate == (head.name in c.seen)
            && after.seen == c.seen[head.name := KindOf(head.mode)]
  {
    hide ParseFields, SafeName, Padding;
  }

  lemma {:induction false} KindsAreNames(items: seq<Item>)
    ensures forall name :: name in Kinds(items) <==> Named(items, name)
  {
    if items != [] {
      var before, last := items[..|items| - 1], items[|items| - 1];
      assert items == before + [last];
      KindsAreNames(before);
    }
  }

  lemma {:induction false} VisitStaysFailed(r: Rules, budget: nat, items: seq<Item>, more: seq<Item>)
    requires VisitAll(r, budget, items).None?
    ensures VisitAll(r, budget, items + more).None?
    decreases |more|
  {
    hide Visit;
    if more == [] {
      assert items + more == items;
    } else {
      var n := |more| - 1;
      assert (items + more)[..|items + more| - 1] == items + more[..n];
      VisitStaysFailed(r, budget, items, more[..n]);
    }
  }

  /** The loop body after the header: an executable's first bytes, then metadata. */
  method VisitItem(r: Rules, found: Found, it: Item, duplicate: bool) returns (next: Option<Found>)
    ensures next == Visit(r, found, it, duplicate)
  {
    hide HasSuffix, Dir, KindOf;
    var executables, content := found.executables, it.content;
    if IsExecutable(r, it) {
      var header := HeaderOf(it);
      executables := executables[it.name := r.architectures(header)];
      if duplicate || it.links > 1 {
        executables := executables[it.name := []];
      }
      content := content[|header|..];
    }
    assert executables == Executables(r, found.executables, it, duplicate);
    if !IsMetadata(r, it.name) {
      return Some(found.(executables := executables));
    }
    MetadataIsNotExecutable(r, it.name);
    if duplicate || KindOf(it.mode) != Regular || it.links > 1 || |content| > MaxMetadata
      || |content| > found.metadata {
      return None;
    }
    var facts := r.parse(content);
    if facts.None? {
      return None;
    }
    return Some(Found(found.apps + [App(AppPath(it.name), facts.value, [])], executables, found.metadata - |content|));
  }

  method FinishApps(r: Rules, found: Found, kinds: map<Bytes, Kind>) returns (apps: Option<seq<App>>)
    ensures apps == Finish(r, found, kinds)
  {
    hide AncestorsAre, Completed;
    var all: seq<App> := [];
    for i := 0 to |found.apps|
      invariant |all| == i && forall k :: 0 <= k < i ==> AncestorsAre(kinds, found.apps[k].path)
      invariant forall k :: 0 <= k < i ==> all[k] == Completed(r, found.apps[k], kinds, found.executables)
    {
      if !AncestorsAre(kinds, found.apps[i].path) {
        return None;
      }
      all := all + [Completed(r, found.apps[i], kinds, found.executables)];
    }
    assert forall app <- found.apps :: AncestorsAre(kinds, app.path);
    assert all == seq(|found.apps|, i requires 0 <= i < |found.apps| =>
                        Completed(r, found.apps[i], kinds, found.executables));
    return Some(all);
  }

  // ----- Order -----

  /** The one entry of its name, however often the stream could have held it. */
  ghost predicate Solo(items: seq<Item>, it: Item) {
    multiset(items)[it] == 1 && forall o <- items :: o.name == it.name ==> o == it
  }

  ghost predicate SoleExecutable(r: Rules, items: seq<Item>, it: Item) {
    Solo(items, it) && IsExecutable(r, it) && it.links <= 1
  }

  /** The architectures at a path: those of its only entry, none if it repeats or is linked. */
  ghost predicate HasArchitectures(r: Rules, items: seq<Item>, name: Bytes, architectures: seq<string>) {
    && (forall it <- items :: it.name == name && SoleExecutable(r, items, it) ==>
          architectures == r.architectures(HeaderOf(it)))
    && ((forall it <- items :: it.name == name ==> !SoleExecutable(r, items, it)) ==> architectures == [])
  }

  lemma ArchitecturesAreUnique(r: Rules, items: seq<Item>, name: Bytes, x: seq<string>, y: seq<string>)
    requires HasArchitectures(r, items, name, x) && HasArchitectures(r, items, name, y)
    ensures x == y
  {}

  lemma SoloAppends(items: seq<Item>, e: Item, it: Item)
    ensures it in items + [e] && it.name != e.name ==> (Solo(items + [e], it) <==> Solo(items, it))
    ensures it in items + [e] && it.name == e.name ==> (Solo(items + [e], it) <==> !Named(items, e.name) && it == e)
  {
    var all := items + [e];
    assert multiset(all) == multiset(items) + multiset{e};
    assert forall o :: o in all <==> o in items || o == e;
    assert forall o <- items :: multiset(items)[o] >= 1;
  }

  lemma {:induction false} ExecutablesAreSole(r: Rules, budget: nat, items: seq<Item>, name: Bytes)
    requires Pairs.Pairwise(items, KindsAgree()) && VisitAll(r, budget, items).Some?
    ensures HasArchitectures(r, items, name, Lookup(VisitAll(r, budget, items).value.executables, name))
    decreases |items|
  {
    if items != [] {
      var before, last := items[..|items| - 1], items[|items| - 1];
      assert items == before + [last];
      hide Visit, Executables, HasArchitectures, KindsAgree;
      Pairs.PairwiseLast(before, last, KindsAgree());
      ExecutablesAreSole(r, budget, before, name);
      var known := VisitAll(r, budget, before).value;
      VisitKeepsExecutables(r, known, last, Named(before, last.name));
      NextExecutable(r, before, last, known.executables, name);
    }
  }

  lemma VisitKeepsExecutables(r: Rules, found: Found, it: Item, duplicate: bool)
    ensures Visit(r, found, it, duplicate).Some? ==>
              Visit(r, found, it, duplicate).value.executables == Executables(r, found.executables, it, duplicate)
  {}

  lemma NextExecutable(r: Rules, before: seq<Item>, last: Item, known: map<Bytes, seq<string>>, name: Bytes)
    requires HasArchitectures(r, before, name, Lookup(known, name))
    requires forall o <- before :: KindsAgree()(o, last)
    ensures HasArchitectures(r, before + [last], name,
            Lookup(Executables(r, known, last, Named(before, last.name)), name))
  {
    hide IsExecutable, Solo;
    var items := before + [last];
    assert forall o :: o in items <==> o in before || o == last;
    forall it <- items {
      SoloAppends(before, last, it);
    }
    if last.name == name && !IsExecutable(r, last) {
      forall it <- before | it.name == name ensures !IsExecutable(r, it) {
        assert KindsAgree()(it, last);
        SameKindSameUse(r, it, last);
      }
    }
  }

  lemma SameKindSameUse(r: Rules, a: Item, b: Item)
    requires a.name == b.name && KindOf(a.mode) == KindOf(b.mode)
    ensures IsExecutable(r, a) == IsExecutable(r, b)
  {}

  function Unrepeated(r: Rules): (Item, Item) -> bool {
    (a: Item, b: Item) => a.name == b.name ==> !IsMetadata(r, a.name)
  }

  function MetadataSize(r: Rules): Item -> int {
    (it: Item) => if IsMetadata(r, it.name) then |it.content| else 0
  }

  /** What the pass over the entries demands, whatever their order. */
  ghost predicate Visitable(r: Rules, budget: nat, items: seq<Item>) {
    && (forall it <- items :: IsMetadata(r, it.name) ==> MetadataFits(r, it))
    && Pairs.Pairwise(items, Unrepeated(r))
    && Pairs.Sum(items, MetadataSize(r)) <= budget
  }

  predicate Declares(r: Rules, items: seq<Item>, app: App) {
    exists it <- items :: IsMetadata(r, it.name) && MetadataFits(r, it)
      && app == App(AppPath(it.name), r.parse(it.content).value, [])
  }

  lemma {:induction false} SizesAddUp(r: Rules, items: seq<Item>)
    ensures Pairs.Sum(items, MetadataSize(r)) >= 0
    ensures (forall it <- items :: !IsMetadata(r, it.name)) ==> Pairs.Sum(items, MetadataSize(r)) == 0
  {
    if items != [] {
      var before, last := items[..|items| - 1], items[|items| - 1];
      assert items == before + [last];
      SizesAddUp(r, before);
    }
  }

  lemma {:induction false} VisitDecides(r: Rules, budget: nat, items: seq<Item>)
    ensures VisitAll(r, budget, items).Some? <==> Visitable(r, budget, items)
    ensures VisitAll(r, budget, items).Some? ==>
              var found := VisitAll(r, budget, items).value;
              && found.metadata == budget - Pairs.Sum(items, MetadataSize(r))
              && forall app :: app in found.apps <==> Declares(r, items, app)
    decreases |items|
  {
    if items != [] {
      hide IsMetadata, MetadataFits, Pairs.Pairwise;
      var before, last := items[..|items| - 1], items[|items| - 1];
      assert items == before + [last];
      assert forall o :: o in items <==> o in before || o == last;
      Pairs.PairwiseLast(before, last, Unrepeated(r));
      SizesAddUp(r, before);
      SizesAddUp(r, items);
      VisitDecides(r, budget, before);
      assert (forall o <- before :: Unrepeated(r)(o, last)) <==>
             (IsMetadata(r, last.name) ==> !Named(before, last.name));
    }
  }

  /** An application as the entries give it, in no particular order. */
  ghost predicate Describes(r: Rules, items: seq<Item>, it: Item, app: App) {
    && IsMetadata(r, it.name) && app.path == AppPath(it.name) && r.parse(it.content) == Some(app.facts)
    && match r.resolve(app.facts.executable, if app.path == [Dot] then r.root else Base(app.path))
       case None => app.architectures == []
       case Some(name) =>
         var dir := Join(app.path, Contents + ([Slash] + MacOS));
         if OtherThanDirectory(items, dir) then app.architectures == []
         else HasArchitectures(r, items, Join(dir, name), app.architectures)
  }

  predicate OtherThanDirectory(items: seq<Item>, path: Bytes) {
    exists o <- items :: o.name == path && KindOf(o.mode) != Directory
  }

  predicate HasAncestors(items: seq<Item>, path: Bytes) {
    forall p <- Ancestors(Join(path, Contents)) :: !OtherThanDirectory(items, p)
  }

  /** Application paths lead through directories only. */
  predicate Ancestry(r: Rules, items: seq<Item>) {
    forall it <- items :: IsMetadata(r, it.name) ==> HasAncestors(items, AppPath(it.name))
  }

  ghost predicate Lists(r: Rules, items: seq<Item>, apps: seq<App>) {
    forall app :: app in apps <==> exists it <- items :: Describes(r, items, it, app)
  }

  lemma {:induction false} KindsAreTheEntries(items: seq<Item>, path: Bytes)
    requires Pairs.Pairwise(items, KindsAgree())
    ensures (path in Kinds(items) && Kinds(items)[path] != Directory) <==> OtherThanDirectory(items, path)
  {
    if items != [] {
      var before, last := items[..|items| - 1], items[|items| - 1];
      assert items == before + [last];
      hide KindOf;
      Pairs.PairwiseLast(before, last, KindsAgree());
      KindsAreTheEntries(before, path);
      assert forall o <- before :: KindsAgree()(o, last);
      assert forall o :: o in items <==> o in before || o == last;
    }
  }

  lemma AncestorsAreTheEntries(items: seq<Item>, path: Bytes)
    requires Pairs.Pairwise(items, KindsAgree())
    ensures AncestorsAre(Kinds(items), path) <==> HasAncestors(items, path)
  {
    hide Kinds, Ancestors, OtherThanDirectory, Pairs.Pairwise;
    forall p {
      KindsAreTheEntries(items, p);
    }
  }

  lemma CompletedIsDescribed(r: Rules, budget: nat, items: seq<Item>, it: Item, app: App)
    requires Pairs.Pairwise(items, KindsAgree()) && VisitAll(r, budget, items).Some?
    requires IsMetadata(r, it.name) && r.parse(it.content).Some?
    ensures Describes(r, items, it, app) <==>
              app == Completed(r, App(AppPath(it.name), r.parse(it.content).value, []), Kinds(items),
                               VisitAll(r, budget, items).value.executables)
  {
    hide Kinds, VisitAll, IsMetadata, AppPath, OtherThanDirectory, HasArchitectures, Pairs.Pairwise, Base, Join, Lookup;
    var path, facts := AppPath(it.name), r.parse(it.content).value;
    var dir := Join(path, Contents + ([Slash] + MacOS));
    KindsAreTheEntries(items, dir);
    var resolved := r.resolve(facts.executable, if path == [Dot] then r.root else Base(path));
    if resolved.Some? {
      var name := Join(dir, resolved.value);
      var known := Lookup(VisitAll(r, budget, items).value.executables, name);
      ExecutablesAreSole(r, budget, items, name);
      if HasArchitectures(r, items, name, app.architectures) {
        ArchitecturesAreUnique(r, items, name, known, app.architectures);
      }
    }
  }

  /** A payload has application facts exactly under these conditions, and exactly these. */
  lemma AppsAreTheEntries(r: Rules, budget: nat, items: seq<Item>)
    requires Pairs.Pairwise(items, KindsAgree())
    ensures Apps(r, budget, items).Some? <==> Visitable(r, budget, items) && Ancestry(r, items)
    ensures Apps(r, budget, items).Some? ==> Lists(r, items, Apps(r, budget, items).value)
  {
    hide VisitAll, Kinds, IsMetadata, MetadataFits, AncestorsAre, HasAncestors, Completed, Describes, Pairs.Pairwise;
    hide AppPath, Visitable;
    VisitDecides(r, budget, items);
    if VisitAll(r, budget, items).Some? {
      var found := VisitAll(r, budget, items).value;
      VisitableFits(r, budget, items);
      forall it <- items {
        AncestorsAreTheEntries(items, AppPath(it.name));
      }
      DeclaredAncestors(r, items, found.apps);
      if Apps(r, budget, items).Some? {
        CompletedAreListed(r, budget, items, Apps(r, budget, items).value);
      }
    }
  }

  lemma VisitableFits(r: Rules, budget: nat, items: seq<Item>)
    requires Visitable(r, budget, items)
    ensures forall it <- items :: IsMetadata(r, it.name) ==> MetadataFits(r, it) && r.parse(it.content).Some?
  {
    hide IsMetadata;
  }

  lemma DeclaredAncestors(r: Rules, items: seq<Item>, apps: seq<App>)
    requires forall app :: app in apps <==> Declares(r, items, app)
    requires forall it <- items :: IsMetadata(r, it.name) ==> MetadataFits(r, it)
    requires forall it <- items :: AncestorsAre(Kinds(items), AppPath(it.name)) <==>
             HasAncestors(items, AppPath(it.name))
    ensures (exists app <- apps :: !AncestorsAre(Kinds(items), app.path)) <==> !Ancestry(r, items)
  {
    hide Kinds, IsMetadata, AncestorsAre, HasAncestors, AppPath;
    if !Ancestry(r, items) {
      var it :| it in items && IsMetadata(r, it.name) && !HasAncestors(items, AppPath(it.name));
      assert Declares(r, items, App(AppPath(it.name), r.parse(it.content).value, []));
    }
  }

  lemma CompletedAreListed(r: Rules, budget: nat, items: seq<Item>, apps: seq<App>)
    requires Pairs.Pairwise(items, KindsAgree()) && VisitAll(r, budget, items).Some?
    requires forall app :: app in VisitAll(r, budget, items).value.apps <==> Declares(r, items, app)
    requires forall it <- items :: IsMetadata(r, it.name) ==> MetadataFits(r, it) && r.parse(it.content).Some?
    requires Finish(r, VisitAll(r, budget, items).value, Kinds(items)) == Some(apps)
    ensures Lists(r, items, apps)
  {
    hide VisitAll, Kinds, IsMetadata, MetadataFits, AncestorsAre, Completed, Pairs.Pairwise, AppPath, Describes;
    var found := VisitAll(r, budget, items).value;
    forall app ensures app in apps <==> exists it <- items :: Describes(r, items, it, app) {
      if app in apps {
        var i :| 0 <= i < |apps| && apps[i] == app;
        assert Declares(r, items, found.apps[i]);
        var it :| it in items && IsMetadata(r, it.name) && MetadataFits(r, it)
                  && found.apps[i] == App(AppPath(it.name), r.parse(it.content).value, []);
        CompletedIsDescribed(r, budget, items, it, app);
      }
      if it :| it in items && Describes(r, items, it, app) {
        DescribesMetadata(r, items, it, app);
        CompletedIsDescribed(r, budget, items, it, app);
        var declared := App(AppPath(it.name), r.parse(it.content).value, []);
        assert Declares(r, items, declared);
        var i :| 0 <= i < |found.apps| && found.apps[i] == declared;
        assert apps[i] == app;
      }
    }
  }

  lemma DescribesMetadata(r: Rules, items: seq<Item>, it: Item, app: App)
    requires Describes(r, items, it, app)
    ensures IsMetadata(r, it.name)
  {}

  lemma ConditionsIgnoreOrder(r: Rules, budget: nat, a: seq<Item>, b: seq<Item>)
    requires multiset(a) == multiset(b)
    ensures Visitable(r, budget, a) == Visitable(r, budget, b) && Ancestry(r, a) == Ancestry(r, b)
    ensures forall it, app :: Describes(r, a, it, app) == Describes(r, b, it, app)
  {
    hide IsMetadata, MetadataFits, KindOf, AppPath, IsExecutable, Base, Join, Ancestors;
    Pairs.SameElements(a, b);
    Pairs.SumIgnoresOrder(a, b, MetadataSize(r));
    Pairs.PairwiseIgnoresOrder(a, b, Unrepeated(r));
    forall path ensures OtherThanDirectory(a, path) == OtherThanDirectory(b, path) {}
    forall path ensures HasAncestors(a, path) == HasAncestors(b, path) {}
    hide OtherThanDirectory, HasAncestors;
    forall it ensures Solo(a, it) == Solo(b, it) {}
    hide Solo;
    forall name, archs ensures HasArchitectures(r, a, name, archs) == HasArchitectures(r, b, name, archs) {}
  }

  /** Everything readCPIO makes of a stream. */
  function ReadAll(r: Rules, c: Reader, budget: nat): Option<seq<App>> {
    match Decode(c)
    case None => None
    case Some(items) => Apps(r, budget, items)
  }

  function Declared(r: Rules): Item -> seq<App> {
    (it: Item) =>
      if IsMetadata(r, it.name) && r.parse(it.content).Some?
      then [App(AppPath(it.name), r.parse(it.content).value, [])] else []
  }

  /** The application an entry stands for, among all entries. */
  function Final(r: Rules, kinds: map<Bytes, Kind>, executables: map<Bytes, seq<string>>): Item -> seq<App> {
    (it: Item) =>
      if IsMetadata(r, it.name) && r.parse(it.content).Some?
      then [Completed(r, App(AppPath(it.name), r.parse(it.content).value, []), kinds, executables)] else []
  }

  lemma {:induction false} FoundIsDeclared(r: Rules, budget: nat, items: seq<Item>)
    requires VisitAll(r, budget, items).Some?
    ensures VisitAll(r, budget, items).value.apps == Pairs.Collect(items, Declared(r))
    decreases |items|
  {
    if items != [] {
      hide IsMetadata, AppPath;
      FoundIsDeclared(r, budget, items[..|items| - 1]);
    }
  }

  lemma {:induction false} CompletedIsFinal(r: Rules, items: seq<Item>, kinds: map<Bytes, Kind>,
                                            executables: map<Bytes, seq<string>>)
    ensures var found := Pairs.Collect(items, Declared(r));
            Pairs.Collect(items, Final(r, kinds, executables))
            == seq(|found|, i requires 0 <= i < |found| => Completed(r, found[i], kinds, executables))
    decreases |items|
  {
    hide IsMetadata, AppPath, Completed;
    if items != [] {
      CompletedIsFinal(r, items[..|items| - 1], kinds, executables);
    }
  }

  lemma AppsAreFinal(r: Rules, budget: nat, items: seq<Item>)
    requires Apps(r, budget, items).Some?
    ensures VisitAll(r, budget, items).Some?
    ensures Apps(r, budget, items).value
         == Pairs.Collect(items, Final(r, Kinds(items), VisitAll(r, budget, items).value.executables))
  {
    hide VisitAll, Kinds, AncestorsAre, Completed;
    FoundIsDeclared(r, budget, items);
    CompletedIsFinal(r, items, Kinds(items), VisitAll(r, budget, items).value.executables);
  }

  /** The lists of applications are permutations of each other, as the entries are. */
  lemma AppsArePermuted(r: Rules, budget: nat, a: seq<Item>, b: seq<Item>)
    requires multiset(a) == multiset(b) && Pairs.Pairwise(a, KindsAgree())
    requires Apps(r, budget, a).Some? && Apps(r, budget, b).Some?
    ensures multiset(Apps(r, budget, a).value) == multiset(Apps(r, budget, b).value)
  {
    hide Apps, VisitAll, Kinds, Describes, Completed, IsMetadata, AppPath, Visitable, Ancestry, Pairs.Pairwise;
    AppsAreFinal(r, budget, a);
    AppsAreFinal(r, budget, b);
    Pairs.PairwiseIgnoresOrder(a, b, KindsAgree());
    ConditionsIgnoreOrder(r, budget, a, b);
    var f := Final(r, Kinds(a), VisitAll(r, budget, a).value.executables);
    var g := Final(r, Kinds(b), VisitAll(r, budget, b).value.executables);
    forall it <- a ensures f(it) == g(it) {
      if IsMetadata(r, it.name) && r.parse(it.content).Some? {
        CompletedIsDescribed(r, budget, a, it, f(it)[0]);
        CompletedIsDescribed(r, budget, b, it, f(it)[0]);
      }
    }
    Pairs.CollectAlike(a, f, g);
    Pairs.CollectIgnoresOrder(a, b, g);
  }

  /** One set of entries, encoded in two orders, styles and paddings: both streams are
      accepted or neither, and then they give the same applications, permuted. */
  lemma OrderDoesNotMatter(r: Rules, budget: nat, c: Reader, d: Reader, a: seq<Item>, b: seq<Item>,
                           stylesA: seq<Style>, stylesB: seq<Style>, tailA: Tail, tailB: Tail)
    requires multiset(a) == multiset(b) && c.pathBytes <= MaxPathBytes && d == c.(rest := d.rest)
    requires AllEncodable(a, stylesA) && TailFits(tailA) && c.rest == Encode(a, stylesA, tailA)
    requires AllEncodable(b, stylesB) && TailFits(tailB) && d.rest == Encode(b, stylesB, tailB)
    ensures ReadAll(r, c, budget).Some? <==> ReadAll(r, d, budget).Some?
    ensures ReadAll(r, c, budget).Some? ==>
            multiset(ReadAll(r, c, budget).value) == multiset(ReadAll(r, d, budget).value)
  {
    hide Decode, Encode, AllEncodable, TailFits, Apps, Visitable, Ancestry, Describes, Pairs.Pairwise;
    Pairs.SameElements(a, b);
    DecodeInvertsEncode(c, a, stylesA, tailA);
    DecodeInvertsEncode(d, b, stylesB, tailB);
    AdmissionIgnoresOrder(c, a, b);
    AdmitsAnyRest(c, d, b);
    if Admits(c, a) {
      AppsAreTheEntries(r, budget, a);
      AppsAreTheEntries(r, budget, b);
      ConditionsIgnoreOrder(r, budget, a, b);
      if Apps(r, budget, a).Some? {
        AppsArePermuted(r, budget, a, b);
      }
    }
  }
}
