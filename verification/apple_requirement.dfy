/**
 The Developer ID form of a code requirement (internal/apple/requirement.go): clauses
 joined by and, each of five kinds once.
 */
module AppleRequirement {
  import opened Wrappers
  import opened AppleTokens

  datatype Requirement = Requirement(identifier: string, team: string)

  datatype Kind = Identifier | Anchor | Intermediate | Application | Team

  datatype Clause = Clause(kind: Kind, value: string)

  /** The Developer ID fields, field.1.2.840.113635.100.6 and what follows. */
  const FieldPrefix := "field.1.2.840"
  const FieldArc := ".113635.100.6"
  const IntermediateField := FieldPrefix + (FieldArc + ".2.6")
  const ApplicationField := FieldPrefix + (FieldArc + ".1.13")

  /** A quoted string is never a keyword. */
  predicate Is(t: Token, s: string) {
    !t.Quoted? && t.text == s
  }

  predicate Reserved(s: string) {
    s in {"certificate", "always", "host", "guest", "cdhash", "entitlement",
          "library", "timestamp", "legacy", "never", "cert", "plugin", "absent",
          "or", "leaf", "info", "designated", "apple", "trusted", "true", "notarized",
          "and", "root", "platform", "anchor", "false", "generic", "identifier", "exists"}
  }

  lemma KeywordsAreReserved(s: string)
    ensures Reserved(s) <==> s in [
              "absent", "always", "anchor", "and", "apple", "cdhash", "cert", "certificate", "designated",
              "entitlement", "exists", "false", "generic", "guest", "host", "identifier", "info", "leaf", "legacy",
              "library", "never", "notarized", "or", "platform", "plugin", "root", "timestamp", "true", "trusted"]
  {}

  predicate IsValue(t: Token) {
    match t
    case Quoted(_) => true
    case Symbol(_) => false
    case Bare(text) =>
      && text != "" && IsLetter(text[0])
      && (forall i :: 0 <= i < |text| ==> IsLetter(text[i]) || IsDigit(text[i]))
      && !Reserved(text)
  }

  /** The kind of a clause, with its value if it has one. */
  function ClauseOf(clause: seq<Token>): Option<Clause> {
    if |clause| == 2 && Is(clause[0], "identifier") && IsValue(clause[1]) then Some(Clause(Identifier, clause[1].text))
    else if |clause| == 3 && Is(clause[0], "identifier") && Is(clause[1], "=") && IsValue(clause[2]) then
      Some(Clause(Identifier, clause[2].text))
    else if |clause| == 3 && Is(clause[0], "anchor") && Is(clause[1], "apple") && Is(clause[2], "generic") then
      Some(Clause(Anchor, ""))
    else if |clause| < 5 || (!Is(clause[0], "certificate") && !Is(clause[0], "cert")) || !Is(clause[2], "[")
      || !Is(clause[4], "]") then
      None
    else CertificateClause(clause[1], clause[3], clause[5..])
  }

  function CertificateClause(position: Token, key: Token, operator: seq<Token>): Option<Clause> {
    var leaf := Is(position, "leaf") || Is(position, "0");
    var present := |operator| == 0 || (|operator| == 1 && Is(operator[0], "exists"));
    if Is(position, "1") && Is(key, IntermediateField) && present then Some(Clause(Intermediate, ""))
    else if leaf && Is(key, ApplicationField) && present then Some(Clause(Application, ""))
    else if leaf && Is(key, "subject.OU") && |operator| == 2 && Is(operator[0], "=") && IsValue(operator[1]) then
      Some(Clause(Team, operator[1].text))
    else None
  }

  // ----- The written forms -----

  lemma FieldsAreWritten()
    ensures IntermediateField == "field.1.2.840.113635.100.6.2.6"
    ensures ApplicationField == "field.1.2.840.113635.100.6.1.13"
  {}

  /** certificate position[key], with cert for certificate. */
  predicate ReadsCertificate(clause: seq<Token>, position: string, key: string) {
    && |clause| >= 5 && (Is(clause[0], "certificate") || Is(clause[0], "cert")) && Is(clause[1], position)
    && Is(clause[2], "[") && Is(clause[3], key) && Is(clause[4], "]")
  }

  predicate ReadsPresent(clause: seq<Token>, position: string, key: string) {
    ReadsCertificate(clause, position, key) && (|clause| == 5 || (|clause| == 6 && Is(clause[5], "exists")))
  }

  /** How a clause of each kind is written: codesign's forms, cert for certificate, 0 for leaf,
      exists spelled out or not, and an equals sign or none after identifier. */
  predicate Spells(clause: seq<Token>, kind: Kind, value: string) {
    match kind
    case Identifier =>
      && |clause| in {2, 3} && Is(clause[0], "identifier") && (|clause| == 3 ==> Is(clause[1], "="))
      && IsValue(clause[|clause| - 1]) && clause[|clause| - 1].text == value
    case Anchor =>
      |clause| == 3 && Is(clause[0], "anchor") && Is(clause[1], "apple") && Is(clause[2], "generic") && value == ""
    case Intermediate => ReadsPresent(clause, "1", "field.1.2.840.113635.100.6.2.6") && value == ""
    case Application =>
      && (ReadsPresent(clause, "leaf", "field.1.2.840.113635.100.6.1.13")
          || ReadsPresent(clause, "0", "field.1.2.840.113635.100.6.1.13"))
      && value == ""
    case Team =>
      && |clause| == 7 && Is(clause[5], "=") && IsValue(clause[6]) && clause[6].text == value
      && (ReadsCertificate(clause, "leaf", "subject.OU") || ReadsCertificate(clause, "0", "subject.OU"))
  }

  /** Two texts that differ are not read from one token. */
  lemma OneText(t: Token, a: string, b: string)
    requires a != b && Is(t, a)
    ensures !Is(t, b)
  {}

  lemma Differ()
    ensures "identifier" != "anchor" && "identifier" != "certificate" && "identifier" != "cert"
    ensures "anchor" != "certificate" && "anchor" != "cert" && "1" != "leaf" && "1" != "0"
    ensures "=" != "apple" && "=" != "exists"
    ensures IntermediateField != ApplicationField && IntermediateField != "subject.OU"
    ensures ApplicationField != "subject.OU"
  {
    assert "identifier"[0] == 'i' && "anchor"[0] == 'a' && "certificate"[0] == "cert"[0] == 'c';
    assert IntermediateField[0] == ApplicationField[0] == 'f' && "="[0] == '=' && "apple"[0] == 'a';
    assert "exists"[0] == 'e' && "subject.OU"[0] == 's';
    assert |IntermediateField| == 30 && |ApplicationField| == 31;
  }

  /** A clause is read as what its written form says, and no other form is read. */
  lemma ClausesAreWritten(clause: seq<Token>, kind: Kind, value: string)
    ensures ClauseOf(clause) == Some(Clause(kind, value)) <==> Spells(clause, kind, value)
  {
    FieldsAreWritten();
    Differ();
    hide IsValue, IntermediateField, ApplicationField, Is;
    forall i, a, b | 0 <= i < |clause| && a != b && Is(clause[i], a) ensures !Is(clause[i], b) {
      OneText(clause[i], a, b);
    }
  }

  // ----- Splitting on and -----

  const And := Bare("and")

  function Clauses(tokens: seq<Token>): (clauses: seq<seq<Token>>)
    ensures clauses != []
  {
    if tokens == [] then [[]]
    else
      var before, last := Clauses(tokens[..|tokens| - 1]), tokens[|tokens| - 1];
      if Is(last, "and") then before + [[]] else Extend(before, last)
  }

  function Extend(clauses: seq<seq<Token>>, token: Token): (r: seq<seq<Token>>)
    requires clauses != []
    ensures |r| == |clauses|
  {
    clauses[..|clauses| - 1] + [clauses[|clauses| - 1] + [token]]
  }

  function Join(clauses: seq<seq<Token>>): seq<Token>
    requires clauses != []
  {
    var last := clauses[|clauses| - 1];
    if |clauses| == 1 then last else Join(clauses[..|clauses| - 1]) + ([And] + last)
  }

  predicate NoAnd(clauses: seq<seq<Token>>) {
    forall i, j :: 0 <= i < |clauses| && 0 <= j < |clauses[i]| ==> !Is(clauses[i][j], "and")
  }

  lemma SplitOne(tokens: seq<Token>, token: Token)
    ensures Clauses(tokens + [token]) == if Is(token, "and") then Clauses(tokens) + [[]]
            else Extend(Clauses(tokens), token)
  {
    assert (tokens + [token])[..|tokens|] == tokens;
  }

  lemma JoinOne(before: seq<seq<Token>>, last: seq<Token>, token: Token)
    ensures Join(before + [last + [token]]) == Join(before + [last]) + [token]
  {
    assert (before + [last + [token]])[..|before|] == before;
    assert (before + [last])[..|before|] == before;
  }

  lemma JoinEmpty(before: seq<seq<Token>>)
    requires before != []
    ensures Join(before + [[]]) == Join(before) + [And]
  {
    assert (before + [[]])[..|before|] == before;
  }

  /** Splitting inverts joining. */
  lemma {:induction false} SplitInvertsJoin(clauses: seq<seq<Token>>)
    requires clauses != [] && NoAnd(clauses)
    ensures Clauses(Join(clauses)) == clauses
    decreases |clauses|, |clauses[|clauses| - 1]|
  {
    hide Clauses, Join, NoAnd;
    var n := |clauses| - 1;
    var before, last := clauses[..n], clauses[n];
    assert clauses == before + [last];
    if last != [] {
      var shorter, token := last[..|last| - 1], last[|last| - 1];
      assert last == shorter + [token];
      ShorterHasNoAnd(before, shorter, token);
      SplitInvertsJoin(before + [shorter]);
      JoinOne(before, shorter, token);
      SplitOne(Join(before + [shorter]), token);
      assert (before + [shorter])[..n] == before;
    } else if n > 0 {
      ShorterHasNoAnd(before, [], And);
      SplitInvertsJoin(before);
      JoinEmpty(before);
      SplitOne(Join(before), And);
    } else {
      assert clauses == [[]];
      SplitNothing();
    }
  }

  lemma SplitNothing()
    ensures Join([[]]) == [] && Clauses([]) == [[]]
  {}

  lemma ShorterHasNoAnd(before: seq<seq<Token>>, shorter: seq<Token>, token: Token)
    ensures NoAnd(before + [shorter + [token]]) <==> NoAnd(before + [shorter]) && !Is(token, "and")
    ensures NoAnd(before + [[]]) <==> NoAnd(before)
  {
    var all, less := before + [shorter + [token]], before + [shorter];
    if NoAnd(all) {
      assert all[|before|][|shorter|] == token;
      forall i, j | 0 <= i < |less| && 0 <= j < |less[i]| ensures !Is(less[i][j], "and") {
        assert less[i][j] == all[i][j];
      }
    }
    if NoAnd(less) && !Is(token, "and") {
      forall i, j | 0 <= i < |all| && 0 <= j < |all[i]| ensures !Is(all[i][j], "and") {
        assert (i < |before| || j < |shorter|) ==> less[i][j] == all[i][j];
      }
    }
    assert NoAnd(before + [[]]) ==> NoAnd(before) by {
      if NoAnd(before + [[]]) {
        assert forall i, j :: 0 <= i < |before| && 0 <= j < |before[i]| ==> before[i][j] == (before + [[]])[i][j];
      }
    }
  }

  /** And joining inverts splitting, for tokens as they are read: and is a bare word. */
  lemma {:induction false} JoinInvertsSplit(tokens: seq<Token>)
    requires forall i :: 0 <= i < |tokens| && tokens[i].Symbol? ==> |tokens[i].text| == 1
    ensures Join(Clauses(tokens)) == tokens && NoAnd(Clauses(tokens))
  {
    if tokens != [] {
      var rest, last := tokens[..|tokens| - 1], tokens[|tokens| - 1];
      JoinInvertsSplit(rest);
      hide Clauses, Join, NoAnd;
      assert tokens == rest + [last];
      SplitOne(rest, last);
      var before := Clauses(rest);
      var n := |before| - 1;
      assert before == before[..n] + [before[n]];
      if Is(last, "and") {
        assert last == And;
        JoinEmpty(before);
        ShorterHasNoAnd(before, [], And);
      } else {
        JoinOne(before[..n], before[n], last);
        ShorterHasNoAnd(before[..n], before[n], last);
      }
    }
  }

  method SplitClauses(tokens: seq<Token>) returns (clauses: seq<seq<Token>>)
    ensures clauses == Clauses(tokens)
  {
    clauses := [[]];
    for i := 0 to |tokens|
      invariant clauses == Clauses(tokens[..i])
    {
      assert tokens[..i + 1][..i] == tokens[..i];
      if Is(tokens[i], "and") {
        clauses := clauses + [[]];
      } else {
        clauses := Extend(clauses, tokens[i]);
      }
    }
    assert tokens[..|tokens|] == tokens;
  }

  // ----- The Developer ID form -----

  predicate HasKind(clauses: seq<seq<Token>>, i: int, kind: Kind) {
    0 <= i < |clauses| && ClauseOf(clauses[i]).Some? && ClauseOf(clauses[i]).value.kind == kind
  }

  ghost predicate SaysKind(clauses: seq<seq<Token>>, kind: Kind) {
    exists i :: HasKind(clauses, i, kind)
  }

  predicate Recognized(clauses: seq<seq<Token>>) {
    forall i :: 0 <= i < |clauses| ==> ClauseOf(clauses[i]).Some?
  }

  ghost predicate Unrepeated(clauses: seq<seq<Token>>) {
    forall i, j, kind :: HasKind(clauses, i, kind) && HasKind(clauses, j, kind) ==> i == j
  }

  /** Every clause is of one of the kinds, and every kind occurs exactly once. */
  ghost predicate Conjunction(clauses: seq<seq<Token>>) {
    && Recognized(clauses) && Unrepeated(clauses)
    && SaysKind(clauses, Identifier) && SaysKind(clauses, Anchor) && SaysKind(clauses, Intermediate)
    && SaysKind(clauses, Application) && SaysKind(clauses, Team)
  }

  ghost predicate Names(clauses: seq<seq<Token>>, r: Requirement) {
    && (forall i :: HasKind(clauses, i, Identifier) ==> ClauseOf(clauses[i]).value.value == r.identifier)
    && (forall i :: HasKind(clauses, i, Team) ==> ClauseOf(clauses[i]).value.value == r.team)
  }

  /** The text is a Developer ID requirement, and means r. */
  ghost predicate Means(text: string, r: Requirement) {
    && Tokens(text).Some?
    && Conjunction(Clauses(Tokens(text).value))
    && Names(Clauses(Tokens(text).value), r)
  }

  method ParseRequirement(text: string) returns (r: Option<Requirement>)
    ensures r.Some? ==> Means(text, r.value)
    ensures r.None? ==> forall q :: !Means(text, q)
  {
    hide Tokens, Conjunction, Names, Clauses;
    var tokens := RequirementTokens(text);
    if tokens.None? {
      return None;
    }
    var clauses := SplitClauses(tokens.value);
    r := ReadClauses(clauses);
  }

  method ReadClauses(clauses: seq<seq<Token>>) returns (r: Option<Requirement>)
    ensures r.Some? ==> Conjunction(clauses) && Names(clauses, r.value)
    ensures r.None? ==> !Conjunction(clauses)
  {
    hide ClauseOf;
    var parsed := Requirement("", "");
    var seen: set<Kind> := {};
    for i := 0 to |clauses|
      invariant forall k :: 0 <= k < i ==> ClauseOf(clauses[k]).Some?
      invariant forall k, kind :: HasKind(clauses, k, kind) && k < i ==> kind in seen
      invariant forall kind :: kind in seen ==> exists k :: k < i && HasKind(clauses, k, kind)
      invariant forall j, k, kind :: j < i && k < i && HasKind(clauses, j, kind) && HasKind(clauses, k, kind) ==> j == k
      invariant forall k :: k < i && HasKind(clauses, k, Identifier) ==>
                ClauseOf(clauses[k]).value.value == parsed.identifier
      invariant forall k :: k < i && HasKind(clauses, k, Team) ==> ClauseOf(clauses[k]).value.value == parsed.team
    {
      var clause := ClauseOf(clauses[i]);
      if clause.None? {
        return None;
      }
      var kind := clause.value.kind;
      assert HasKind(clauses, i, kind);
      if kind in seen {
        var k :| k < i && HasKind(clauses, k, kind);
        return None;
      }
      seen := seen + {kind};
      if kind == Identifier {
        parsed := parsed.(identifier := clause.value.value);
      } else if kind == Team {
        parsed := parsed.(team := clause.value.value);
      }
    }
    assert forall kind :: kind in seen <==> SaysKind(clauses, kind);
    if !({Identifier, Anchor, Intermediate, Application, Team} <= seen) {
      return None;
    }
    return Some(parsed);
  }

  /** So there are exactly five clauses. */
  lemma ConjunctionHasFive(clauses: seq<seq<Token>>)
    requires Conjunction(clauses)
    ensures |clauses| == 5
  {
    hide ClauseOf;
    var all := {Identifier, Anchor, Intermediate, Application, Team};
    CountKinds(clauses, |clauses|);
    var kinds := set i | 0 <= i < |clauses| :: ClauseOf(clauses[i]).value.kind;
    assert forall kind :: kind in all ==> SaysKind(clauses, kind);
    forall kind: Kind ensures kind in kinds && kind in all {
      assert kind == Identifier || kind == Anchor || kind == Intermediate || kind == Application || kind == Team;
      assert SaysKind(clauses, kind);
      var i :| HasKind(clauses, i, kind);
    }
    assert kinds == all;
  }

  lemma {:induction false} CountKinds(clauses: seq<seq<Token>>, n: nat)
    requires Recognized(clauses) && Unrepeated(clauses) && n <= |clauses|
    ensures |set i | 0 <= i < n :: ClauseOf(clauses[i]).value.kind| == n
  {
    hide ClauseOf;
    var kinds := set i | 0 <= i < n :: ClauseOf(clauses[i]).value.kind;
    if n == 0 {
      assert kinds == {};
    } else {
      CountKinds(clauses, n - 1);
      var fewer := set i | 0 <= i < n - 1 :: ClauseOf(clauses[i]).value.kind;
      var last := ClauseOf(clauses[n - 1]).value.kind;
      assert HasKind(clauses, n - 1, last);
      assert last !in fewer by {
        assert forall i :: 0 <= i < n - 1 ==> HasKind(clauses, i, ClauseOf(clauses[i]).value.kind);
      }
      assert kinds == fewer + {last};
    }
  }

  /** A text means at most one requirement. */
  lemma MeaningIsUnique(text: string, p: Requirement, q: Requirement)
    requires Means(text, p) && Means(text, q)
    ensures p == q
  {
    hide Tokens, Clauses, ClauseOf;
    var clauses := Clauses(Tokens(text).value);
    var i :| HasKind(clauses, i, Identifier);
    var j :| HasKind(clauses, j, Team);
  }

  // ----- Printing and parsing -----

  function Express(r: Requirement, kind: Kind): seq<Token> {
    match kind
    case Identifier => [Bare("identifier"), Quoted(r.identifier)]
    case Anchor => [Bare("anchor"), Bare("apple"), Bare("generic")]
    case Intermediate => [Bare("certificate"), Bare("1"), Symbol("["), Bare(IntermediateField), Symbol("]")]
    case Application => [Bare("certificate"), Bare("leaf"), Symbol("["), Bare(ApplicationField), Symbol("]")]
    case Team => [Bare("certificate"), Bare("leaf"), Symbol("["), Bare("subject.OU"), Symbol("]"), Symbol("="),
      Quoted(r.team)]
  }

  function ExpressAll(r: Requirement, order: seq<Kind>): (clauses: seq<seq<Token>>)
    ensures |clauses| == |order|
  {
    seq(|order|, i requires 0 <= i < |order| => Express(r, order[i]))
  }

  /** Each of the five kinds once, in any order. */
  predicate Complete(order: seq<Kind>) {
    && (forall i, j :: 0 <= i < j < |order| ==> order[i] != order[j])
    && Identifier in order && Anchor in order && Intermediate in order && Application in order && Team in order
  }

  function ValueOf(r: Requirement, kind: Kind): string {
    match kind
    case Identifier => r.identifier
    case Team => r.team
    case _ => ""
  }

  lemma ExpressIsRead(r: Requirement, kind: Kind)
    ensures ClauseOf(Express(r, kind)) == Some(Clause(kind, ValueOf(r, kind)))
  {
    hide Reserved;
    if kind == Intermediate || kind == Application || kind == Team {
      var clause := Express(r, kind);
      assert clause[5..] == if kind == Team then [Symbol("="), Quoted(r.team)] else [];
    }
  }

  /** An accepted clause holds no and: none of its fixed words is, and a bare value may not be. */
  lemma ClausesHaveNoAnd(clauses: seq<seq<Token>>)
    requires Recognized(clauses)
    ensures NoAnd(clauses)
  {
    hide ClauseOf;
    forall i, j | 0 <= i < |clauses| && 0 <= j < |clauses[i]| ensures !Is(clauses[i][j], "and") {
      ClauseHasNoAnd(clauses[i]);
    }
  }

  lemma ClauseHasNoAnd(clause: seq<Token>)
    requires ClauseOf(clause).Some?
    ensures forall j :: 0 <= j < |clause| ==> !Is(clause[j], "and")
  {
    forall t | Is(t, "and") ensures !IsValue(t) {
      AndIsReserved();
    }
    hide Reserved, IsValue;
    if |clause| >= 5 {
      assert forall k :: 5 <= k < |clause| ==> clause[k] == clause[5..][k - 5];
    }
  }

  lemma AndIsReserved()
    ensures Reserved("and")
  {}

  /** A text means a requirement if and only if it is a printing of clauses that say it, in
      any order and any accepted spelling (quoted or bare values, either word for a
      certificate, with or without exists), with any blanks and comments between. */
  lemma MeaningIsExactlyPrinted(text: string, r: Requirement)
    ensures Means(text, r) <==>
            exists clauses: seq<seq<Token>>, pieces ::
              && clauses != [] && Conjunction(clauses) && Names(clauses, r)
              && Writable(pieces) && TokensOf(pieces) == Join(clauses) && Print(pieces) == text
  {
    hide Tokens, Conjunction, Names, Clauses, Join, Writable, TokensOf, Print;
    if Means(text, r) {
      var tokens := Tokens(text).value;
      TokensAreExactlyPrinted(text, tokens);
      var pieces :| Writable(pieces) && Print(pieces) == text && TokensOf(pieces) == tokens;
      SymbolsAreSingle(text);
      JoinInvertsSplit(tokens);
      assert Join(Clauses(tokens)) == tokens;
    }
    forall clauses: seq<seq<Token>>, pieces |
      && clauses != [] && Conjunction(clauses) && Names(clauses, r)
      && Writable(pieces) && TokensOf(pieces) == Join(clauses) && Print(pieces) == text
      ensures Means(text, r)
    {
      PrintedReadsBack(r, clauses, pieces);
    }
  }

  lemma SymbolsAreSingle(text: string)
    requires Tokens(text).Some?
    ensures forall i :: 0 <= i < |Tokens(text).value| && Tokens(text).value[i].Symbol? ==>
            |Tokens(text).value[i].text| == 1
  {
    TokensAreWellFormed(text);
    hide Tokens;
  }

  lemma PrintedReadsBack(r: Requirement, clauses: seq<seq<Token>>, pieces: seq<Piece>)
    requires clauses != [] && Conjunction(clauses) && Names(clauses, r)
    requires Writable(pieces) && TokensOf(pieces) == Join(clauses)
    ensures Means(Print(pieces), r)
  {
    hide Clauses, Join, TokensOf, Print, Writable, ClauseOf;
    TokensAreExactlyPrinted(Print(pieces), Join(clauses));
    ClausesHaveNoAnd(clauses);
    SplitInvertsJoin(clauses);
  }

  /** The clauses as codesign writes them are among them. */
  lemma ExpressedIsConjunction(r: Requirement, order: seq<Kind>)
    requires Complete(order)
    ensures Conjunction(ExpressAll(r, order)) && Names(ExpressAll(r, order), r) && order != []
  {
    hide ClauseOf, Express;
    var clauses := ExpressAll(r, order);
    forall i | 0 <= i < |clauses| ensures ClauseOf(clauses[i]) == Some(Clause(order[i], ValueOf(r, order[i]))) {
      ExpressIsRead(r, order[i]);
    }
    assert forall kind :: kind in order ==>
           exists i :: 0 <= i < |order| && order[i] == kind && HasKind(clauses, i, kind);
  }

  /** Tokens set apart by single spaces. */
  function Spaced(tokens: seq<Token>): seq<Piece> {
    if tokens == [] then [] else [Word(tokens[0]), Blank(' ')] + Spaced(tokens[1..])
  }

  lemma {:induction false} SpacedIsWritable(tokens: seq<Token>)
    requires forall i :: 0 <= i < |tokens| ==> WellFormed(Word(tokens[i]))
    ensures Writable(Spaced(tokens)) && TokensOf(Spaced(tokens)) == tokens
  {
    if tokens != [] {
      SpacedIsWritable(tokens[1..]);
      hide WellFormed, Print, Spell;
      var rest, all := Spaced(tokens[1..]), Spaced(tokens);
      assert all[1..][1..] == rest;
      assert all[1..][0] == Blank(' ');
      assert WellFormed(Blank(' ')) by { BlankIsWellFormed(); }
      forall i | 0 <= i < |all| ensures WellFormed(all[i]) && !(BareAt(all, i) && BareAt(all, i + 1)) {
        assert i >= 2 ==> all[i] == rest[i - 2] && BareAt(all, i) == BareAt(rest, i - 2);
        assert i >= 1 ==> BareAt(all, i + 1) == BareAt(rest, i - 1);
        assert !BareAt(all, 1);
      }
      assert TokensOf(all[1..]) == TokensOf(rest);
    }
  }

  lemma BlankIsWellFormed()
    ensures WellFormed(Blank(' '))
  {}

  lemma ExpressIsWellFormed(r: Requirement, kind: Kind)
    requires '\\' !in r.identifier && '\\' !in r.team
    ensures forall i :: 0 <= i < |Express(r, kind)| ==> WellFormed(Word(Express(r, kind)[i]))
  {
    FieldsAreBare();
    hide IsBare;
    WordsAreBare();
  }

  lemma FieldsAreBare()
    ensures WellFormed(Word(Bare(IntermediateField))) && WellFormed(Word(Bare(ApplicationField)))
  {
    assert WellFormed(Word(Bare(FieldPrefix)));
    assert WellFormed(Word(Bare(FieldArc)));
    assert WellFormed(Word(Bare(".2.6"))) && WellFormed(Word(Bare(".1.13")));
    hide IsBare;
    BareJoins(FieldArc, ".2.6");
    BareJoins(FieldArc, ".1.13");
    BareJoins(FieldPrefix, FieldArc + ".2.6");
    BareJoins(FieldPrefix, FieldArc + ".1.13");
  }

  lemma BareJoins(a: string, b: string)
    requires WellFormed(Word(Bare(a))) && WellFormed(Word(Bare(b)))
    ensures WellFormed(Word(Bare(a + b)))
  {
    hide IsBare;
  }

  lemma WordsAreBare()
    ensures WellFormed(Word(Bare("identifier"))) && WellFormed(Word(Bare("anchor"))) && WellFormed(Word(Bare("apple")))
    ensures WellFormed(Word(Bare("generic"))) && WellFormed(Word(Bare("certificate"))) && WellFormed(Word(Bare("leaf")))
    ensures WellFormed(Word(Bare("1"))) && WellFormed(Word(Bare("subject.OU")))
  {}

  lemma {:induction false} JoinIsWellFormed(clauses: seq<seq<Token>>)
    requires clauses != []
    requires forall i, j :: 0 <= i < |clauses| && 0 <= j < |clauses[i]| ==> WellFormed(Word(clauses[i][j]))
    ensures forall i :: 0 <= i < |Join(clauses)| ==> WellFormed(Word(Join(clauses)[i]))
  {
    AndIsWellFormed();
    hide WellFormed;
    if |clauses| > 1 {
      JoinIsWellFormed(clauses[..|clauses| - 1]);
    }
  }

  lemma AndIsWellFormed()
    ensures WellFormed(Word(And))
  {}

  /** Exactly the requirements without backslashes can be written, in any clause order. */
  lemma WritableWithoutBackslash(r: Requirement)
    ensures (exists text :: Means(text, r)) <==> '\\' !in r.identifier && '\\' !in r.team
    ensures forall order :: '\\' !in r.identifier && '\\' !in r.team && Complete(order) ==>
              exists pieces ::
                Writable(pieces) && TokensOf(pieces) == Join(ExpressAll(r, order)) && Means(Print(pieces), r)
  {
    hide Means, Writable, TokensOf, Print, Join, Express, WellFormed;
    forall text | Means(text, r) ensures '\\' !in r.identifier && '\\' !in r.team {
      MeaningHasNoBackslash(text, r);
    }
    if '\\' !in r.identifier && '\\' !in r.team {
      forall order | Complete(order)
        ensures exists pieces ::
                  Writable(pieces) && TokensOf(pieces) == Join(ExpressAll(r, order)) && Means(Print(pieces), r)
      {
        PrintableIn(r, order);
      }
      var order := [Identifier, Anchor, Intermediate, Application, Team];
      assert Complete(order);
    }
  }

  lemma PrintableIn(r: Requirement, order: seq<Kind>)
    requires Complete(order) && '\\' !in r.identifier && '\\' !in r.team
    ensures exists pieces ::
              Writable(pieces) && TokensOf(pieces) == Join(ExpressAll(r, order)) && Means(Print(pieces), r)
  {
    hide Means, Writable, TokensOf, Print, Join, Express, WellFormed;
    var clauses := ExpressAll(r, order);
    forall i | 0 <= i < |clauses| ensures forall j :: 0 <= j < |clauses[i]| ==> WellFormed(Word(clauses[i][j])) {
      ExpressIsWellFormed(r, order[i]);
    }
    JoinIsWellFormed(clauses);
    var pieces := Spaced(Join(clauses));
    SpacedIsWritable(Join(clauses));
    ExpressedIsConjunction(r, order);
    PrintedReadsBack(r, clauses, pieces);
    assert Writable(pieces) && TokensOf(pieces) == Join(ExpressAll(r, order)) && Means(Print(pieces), r);
  }

  lemma MeaningHasNoBackslash(text: string, r: Requirement)
    requires Means(text, r)
    ensures '\\' !in r.identifier && '\\' !in r.team
  {
    hide Clauses, ClauseOf;
    var tokens := Tokens(text).value;
    var clauses := Clauses(tokens);
    TokensAreWellFormed(text);
    ClausesKeepTokens(tokens);
    var i :| HasKind(clauses, i, Identifier);
    ValueHasNoBackslash(clauses[i]);
    var j :| HasKind(clauses, j, Team);
    ValueHasNoBackslash(clauses[j]);
  }

  lemma TokensAreWellFormed(text: string)
    requires Tokens(text).Some?
    ensures forall i :: 0 <= i < |Tokens(text).value| ==> WellFormed(Word(Tokens(text).value[i]))
  {
    PiecesPrint(text);
    TokensOfWritable(Pieces(text).value);
  }

  lemma {:induction false} TokensOfWritable(pieces: seq<Piece>)
    requires forall i :: 0 <= i < |pieces| ==> WellFormed(pieces[i])
    ensures forall i :: 0 <= i < |TokensOf(pieces)| ==> WellFormed(Word(TokensOf(pieces)[i]))
  {
    hide WellFormed;
    if pieces != [] {
      TokensOfWritable(pieces[1..]);
    }
  }

  lemma {:induction false} ClausesKeepTokens(tokens: seq<Token>)
    ensures forall i, j :: 0 <= i < |Clauses(tokens)| && 0 <= j < |Clauses(tokens)[i]| ==>
            Clauses(tokens)[i][j] in tokens
  {
    if tokens != [] {
      ClausesKeepTokens(tokens[..|tokens| - 1]);
    }
  }

  lemma ValueHasNoBackslash(clause: seq<Token>)
    requires forall i :: 0 <= i < |clause| ==> WellFormed(Word(clause[i]))
    requires ClauseOf(clause).Some?
    ensures '\\' !in ClauseOf(clause).value.value
  {
    hide Reserved, Is;
    assert forall i :: 0 <= i < |clause| && IsValue(clause[i]) ==> '\\' !in clause[i].text;
    if |clause| >= 5 {
      assert |clause| > 6 ==> clause[5..][1] == clause[6];
    }
  }
}
