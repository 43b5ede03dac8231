/**
 Tokens of code requirement text (internal/apple/requirement.go, requirementTokens), and
 the exact language they are read from.
 */
module AppleTokens {
  import opened Wrappers

  datatype Token = Quoted(text: string) | Symbol(text: string) | Bare(text: string)

  /** What a text is made of: tokens, single blanks and comments. */
  datatype Piece = Word(token: Token) | Blank(c: char) | Comment(body: string)

  predicate IsBlank(c: char) {
    c == ' ' || c == '\t' || c == '\r' || c == '\n'
  }

  predicate IsSymbol(c: char) {
    c in "[]=<>!()"
  }

  predicate IsLetter(c: char) {
    'a' <= c <= 'z' || 'A' <= c <= 'Z'
  }

  predicate IsDigit(c: char) {
    '0' <= c <= '9'
  }

  predicate IsBare(c: char) {
    IsLetter(c) || IsDigit(c) || c == '.' || c == '_' || c == '-'
  }

  lemma CharactersAreAscii(c: char)
    ensures IsLetter(c) <==> 65 <= c as int <= 90 || 97 <= c as int <= 122
    ensures IsDigit(c) <==> 48 <= c as int <= 57
    ensures IsBlank(c) <==> c as int in {32, 9, 13, 10}
  {}

  // ----- Writing -----

  function Escape(value: string): string {
    if value == "" then "" else (if value[0] == '"' then "\\\"" else [value[0]]) + Escape(value[1..])
  }

  function Spell(piece: Piece): string {
    match piece
    case Word(Quoted(value)) => "\"" + (Escape(value) + "\"")
    case Word(token) => token.text
    case Blank(c) => [c]
    case Comment(body) => "/*" + (body + "*/")
  }

  function Print(pieces: seq<Piece>): string {
    if pieces == [] then "" else Spell(pieces[0]) + Print(pieces[1..])
  }

  function TokensOf(pieces: seq<Piece>): seq<Token> {
    if pieces == [] then []
    else (if pieces[0].Word? then [pieces[0].token] else []) + TokensOf(pieces[1..])
  }

  predicate WellFormed(piece: Piece) {
    match piece
    case Word(Quoted(value)) => '\\' !in value
    case Word(Symbol(text)) => |text| == 1 && IsSymbol(text[0])
    case Word(Bare(text)) => text != "" && forall i :: 0 <= i < |text| ==> IsBare(text[i])
    case Blank(c) => IsBlank(c)
    case Comment(body) => CommentEnd(body).None?
  }

  predicate BareAt(pieces: seq<Piece>, i: nat) {
    i < |pieces| && pieces[i].Word? && pieces[i].token.Bare?
  }

  /** Well-formed pieces, with no two bare words in a row. */
  predicate Writable(pieces: seq<Piece>) {
    forall i :: 0 <= i < |pieces| ==> WellFormed(pieces[i]) && !(BareAt(pieces, i) && BareAt(pieces, i + 1))
  }

  // ----- Reading -----

  function CommentEnd(text: string): (r: Option<nat>)
    ensures r.Some? ==> r.value + 2 <= |text| && text[r.value] == '*' && text[r.value + 1] == '/'
  {
    if |text| < 2 then None
    else if text[0] == '*' && text[1] == '/' then Some(0)
    else match CommentEnd(text[1..])
      case None => None
      case Some(n) => Some(n + 1)
  }

  /** A string's value and its length with the closing quote. Only quotes are escaped. */
  function Unquote(text: string): Option<(string, nat)> {
    if text == "" then None
    else if text[0] == '"' then Some(("", 1))
    else if text[0] == '\\' then
      if |text| < 2 || text[1] != '"' then None
      else match Unquote(text[2..])
        case None => None
        case Some((value, n)) => Some(("\"" + value, n + 2))
    else match Unquote(text[1..])
      case None => None
      case Some((value, n)) => Some(([text[0]] + value, n + 1))
  }

  function BareRun(text: string): (n: nat)
    ensures n <= |text| && (forall i :: 0 <= i < n ==> IsBare(text[i])) && (n < |text| ==> !IsBare(text[n]))
  {
    if text == "" || !IsBare(text[0]) then 0 else 1 + BareRun(text[1..])
  }

  predicate OpensComment(text: string) {
    2 <= |text| && text[0] == '/' && text[1] == '*'
  }

  /** The first piece of a text. */
  function Front(text: string): Option<Piece>
    requires text != ""
  {
    if IsBlank(text[0]) then Some(Blank(text[0]))
    else if OpensComment(text) then
      match CommentEnd(text[2..])
      case None => None
      case Some(n) => Some(Comment(text[2..][..n]))
    else if text[0] == '"' then
      match Unquote(text[1..])
      case None => None
      case Some((value, _)) => Some(Word(Quoted(value)))
    else if IsSymbol(text[0]) then Some(Word(Symbol(text[..1])))
    else if IsBare(text[0]) then Some(Word(Bare(text[..BareRun(text)])))
    else None
  }

  lemma {:induction false} UnquoteReads(text: string)
    ensures match Unquote(text)
            case None => true
            case Some((value, n)) => 0 < n <= |text| && '\\' !in value && text[..n] == Escape(value) + "\""
  {
    if text != "" && text[0] != '"' {
      if text[0] == '\\' {
        if |text| >= 2 && text[1] == '"' {
          UnquoteReads(text[2..]);
          if Unquote(text[2..]).Some? {
            var (value, n) := Unquote(text[2..]).value;
            assert text[..n + 2] == "\\\"" + text[2..][..n];
            assert ("\"" + value)[1..] == value;
            assert "\\\"" + (Escape(value) + "\"") == ("\\\"" + Escape(value)) + "\"";
          }
        }
      } else {
        UnquoteReads(text[1..]);
        if Unquote(text[1..]).Some? {
          var (value, n) := Unquote(text[1..]).value;
          assert text[..n + 1] == [text[0]] + text[1..][..n];
          assert ([text[0]] + value)[1..] == value;
          assert [text[0]] + (Escape(value) + "\"") == ([text[0]] + Escape(value)) + "\"";
        }
      }
    }
  }

  lemma {:induction false} UnquoteInverts(value: string, rest: string)
    requires '\\' !in value
    ensures Unquote(Escape(value) + ("\"" + rest)) == Some((value, |Escape(value)| + 1))
  {
    var text := Escape(value) + ("\"" + rest);
    if value == "" {
      assert text[0] == '"';
    } else {
      UnquoteInverts(value[1..], rest);
      var tail := Escape(value[1..]) + ("\"" + rest);
      assert [value[0]] + value[1..] == value;
      if value[0] == '"' {
        assert text == "\\\"" + tail;
        assert text[2..] == tail;
      } else {
        assert text == [value[0]] + tail;
        assert text[1..] == tail;
      }
    }
  }

  lemma {:induction false} CommentEndIsFirst(text: string)
    ensures CommentEnd(text).Some? ==> CommentEnd(text[..CommentEnd(text).value]).None?
  {
    if |text| >= 2 && !(text[0] == '*' && text[1] == '/') && CommentEnd(text).Some? {
      CommentEndIsFirst(text[1..]);
      var n := CommentEnd(text[1..]).value;
      assert text[..n + 1][1..] == text[1..][..n];
    }
  }

  lemma {:induction false} CommentEndInverts(body: string, rest: string)
    requires CommentEnd(body).None?
    ensures CommentEnd(body + ("*/" + rest)) == Some(|body|)
  {
    var text := body + ("*/" + rest);
    if body == "" {
      assert text[0] == '*' && text[1] == '/';
    } else {
      assert text[1..] == body[1..] + ("*/" + rest);
      assert |body| == 1 ==> CommentEnd(body[1..]).None?;
      assert |body| >= 2 ==> text[1] == body[1];
      CommentEndInverts(body[1..], rest);
    }
  }

  lemma BareRunInverts(text: string, rest: string)
    requires forall i :: 0 <= i < |text| ==> IsBare(text[i])
    requires rest != "" ==> !IsBare(rest[0])
    ensures BareRun(text + rest) == |text|
  {
    var n := BareRun(text + rest);
    assert forall k :: 0 <= k < |text| ==> IsBare((text + rest)[k]);
    assert rest != "" ==> !IsBare((text + rest)[|text|]);
  }

  /** What the reader takes off a text is a well-formed piece at its front; a bare word is
      never cut short. */
  lemma FrontSpells(text: string)
    requires text != "" && Front(text).Some?
    ensures var piece := Front(text).value; var n := |Spell(piece)|;
            && WellFormed(piece) && 0 < n <= |text| && text[..n] == Spell(piece)
            && (piece.Word? && piece.token.Bare? && n < |text| ==> !IsBare(text[n]))
  {
    if IsBlank(text[0]) {
    } else if OpensComment(text) {
      CommentEndIsFirst(text[2..]);
      var n := CommentEnd(text[2..]).value;
      assert text[..n + 4] == "/*" + (text[2..][..n] + "*/");
    } else if text[0] == '"' {
      UnquoteReads(text[1..]);
      var (value, n) := Unquote(text[1..]).value;
      assert text[..n + 1] == "\"" + text[1..][..n];
    }
  }

  /** And every well-formed piece is taken off again, whatever follows it. */
  lemma FrontInverts(piece: Piece, rest: string)
    requires WellFormed(piece)
    requires piece.Word? && piece.token.Bare? && rest != "" ==> !IsBare(rest[0])
    ensures Spell(piece) + rest != "" && Front(Spell(piece) + rest) == Some(piece)
  {
    match piece {
      case Word(Quoted(value)) => QuotedInverts(value, rest);
      case Word(Symbol(symbol)) => SymbolInverts(symbol, rest);
      case Word(Bare(bare)) => BareInverts(bare, rest);
      case Blank(c) => assert (Spell(piece) + rest)[0] == c;
      case Comment(body) => CommentInverts(body, rest);
    }
  }

  lemma SymbolInverts(symbol: string, rest: string)
    requires |symbol| == 1 && IsSymbol(symbol[0])
    ensures Front(symbol + rest) == Some(Word(Symbol(symbol)))
  {
    hide Unquote, CommentEnd, BareRun;
    assert (symbol + rest)[..1] == symbol;
  }

  lemma BareInverts(bare: string, rest: string)
    requires bare != "" && forall i :: 0 <= i < |bare| ==> IsBare(bare[i])
    requires rest != "" ==> !IsBare(rest[0])
    ensures Front(bare + rest) == Some(Word(Bare(bare)))
  {
    hide Unquote, CommentEnd, BareRun;
    var text := bare + rest;
    BareRunInverts(bare, rest);
    assert text[..|bare|] == bare;
    assert text[0] == bare[0];
  }

  lemma FrontOfString(text: string)
    requires text != "" && text[0] == '"'
    ensures Front(text) == match Unquote(text[1..])
                           case None => None
                           case Some((value, _)) => Some(Word(Quoted(value)))
  {
    hide Unquote, IsSymbol, IsBare;
  }

  lemma FrontOfComment(text: string)
    requires OpensComment(text)
    ensures Front(text) == match CommentEnd(text[2..])
                           case None => None
                           case Some(n) => Some(Comment(text[2..][..n]))
  {
    hide CommentEnd, IsSymbol, IsBare;
  }

  lemma QuotedInverts(value: string, rest: string)
    requires '\\' !in value
    ensures Spell(Word(Quoted(value))) + rest != ""
    ensures Front(Spell(Word(Quoted(value))) + rest) == Some(Word(Quoted(value)))
  {
    hide Unquote, Escape, Front;
    var text := Spell(Word(Quoted(value))) + rest;
    UnquoteInverts(value, rest);
    assert text[1..] == Escape(value) + ("\"" + rest);
    assert text[0] == '"';
    FrontOfString(text);
  }

  lemma CommentInverts(body: string, rest: string)
    requires CommentEnd(body).None?
    ensures Spell(Comment(body)) + rest != "" && Front(Spell(Comment(body)) + rest) == Some(Comment(body))
  {
    hide CommentEnd, Front;
    var text := Spell(Comment(body)) + rest;
    CommentEndInverts(body, rest);
    assert text[0] == '/' && text[1] == '*';
    assert text[2..] == body + ("*/" + rest);
    assert text[2..][..|body|] == body;
    FrontOfComment(text);
  }

  /** The pieces of a text, front to back. */
  function Pieces(text: string): Option<seq<Piece>>
    decreases |text|
  {
    if text == "" then Some([])
    else match Front(text)
      case None => None
      case Some(piece) =>
        FrontSpells(text);
        match Pieces(text[|Spell(piece)|..])
        case None => None
        case Some(rest) => Some([piece] + rest)
  }

  lemma {:induction false} PiecesPrint(text: string)
    requires Pieces(text).Some?
    ensures Writable(Pieces(text).value) && Print(Pieces(text).value) == text
    decreases |text|
  {
    hide Front, Spell, WellFormed, Print, Writable, IsBare;
    if text == "" {
      NothingPrints();
    } else {
      FrontSpells(text);
      var piece := Front(text).value;
      var n := |Spell(piece)|;
      PiecesPrint(text[n..]);
      assert text == text[..n] + text[n..];
      PieceBefore(piece, Pieces(text[n..]).value);
    }
  }

  lemma NothingPrints()
    ensures Writable([]) && Print([]) == ""
  {}

  lemma PieceBefore(piece: Piece, rest: seq<Piece>)
    requires WellFormed(piece) && Writable(rest)
    requires piece.Word? && piece.token.Bare? && Print(rest) != "" ==> !IsBare(Print(rest)[0])
    ensures Writable([piece] + rest) && Print([piece] + rest) == Spell(piece) + Print(rest)
  {
    if rest != [] {
      BareStarts(rest);
    }
    hide Spell, WellFormed, IsBare, Print;
    PrintFirst(piece, rest);
    var all := [piece] + rest;
    forall i | 0 <= i < |all| ensures WellFormed(all[i]) && !(BareAt(all, i) && BareAt(all, i + 1)) {
      assert i > 0 ==> all[i] == rest[i - 1] && BareAt(all, i) == BareAt(rest, i - 1);
      assert BareAt(all, i + 1) == BareAt(rest, i);
    }
  }

  lemma PrintFirst(piece: Piece, rest: seq<Piece>)
    ensures Print([piece] + rest) == Spell(piece) + Print(rest)
  {
    assert ([piece] + rest)[1..] == rest;
  }

  lemma BareStarts(pieces: seq<Piece>)
    requires pieces != [] && WellFormed(pieces[0])
    ensures Print(pieces) != ""
    ensures BareAt(pieces, 0) <==> IsBare(Print(pieces)[0])
  {}

  lemma {:induction false} PrintPieces(pieces: seq<Piece>)
    requires Writable(pieces)
    ensures Pieces(Print(pieces)) == Some(pieces)
  {
    if pieces != [] {
      var rest := pieces[1..];
      assert forall i :: 0 <= i < |rest| ==> rest[i] == pieces[i + 1];
      assert forall i :: 0 <= i < |rest| ==> BareAt(rest, i) == BareAt(pieces, i + 1);
      PrintPieces(rest);
      if rest != [] {
        BareStarts(rest);
        assert !(BareAt(pieces, 0) && BareAt(pieces, 1));
      }
      FrontInverts(pieces[0], Print(rest));
      var n := |Spell(pieces[0])|;
      hide Front, Spell, WellFormed;
      assert Print(pieces)[n..] == Print(rest);
      assert pieces == [pieces[0]] + rest;
    }
  }

  function Tokens(text: string): Option<seq<Token>> {
    match Pieces(text)
    case None => None
    case Some(pieces) => Some(TokensOf(pieces))
  }

  /** Text has tokens exactly when it is a print of them: quotes escaped, any blanks and
      comments between, at least one where two bare words meet. */
  lemma TokensAreExactlyPrinted(text: string, tokens: seq<Token>)
    ensures Tokens(text) == Some(tokens) <==>
            exists pieces :: Writable(pieces) && Print(pieces) == text && TokensOf(pieces) == tokens
  {
    hide Writable, TokensOf, Print, Pieces;
    if Tokens(text) == Some(tokens) {
      PiecesPrint(text);
    }
    forall pieces | Writable(pieces) && Print(pieces) == text && TokensOf(pieces) == tokens
      ensures Tokens(text) == Some(tokens)
    {
      PrintPieces(pieces);
    }
  }

  // ----- The reading loop -----

  function Prepend(tokens: seq<Token>, rest: Option<seq<Token>>): Option<seq<Token>> {
    match rest
    case None => None
    case Some(more) => Some(tokens + more)
  }

  lemma TokensStep(text: string)
    requires text != ""
    ensures Front(text).None? ==> Tokens(text).None?
    ensures Front(text).Some? ==>
              var piece := Front(text).value;
              && 0 < |Spell(piece)| <= |text|
              && Tokens(text) == Prepend(if piece.Word? then [piece.token] else [], Tokens(text[|Spell(piece)|..]))
  {
    if Front(text).Some? {
      FrontSpells(text);
      var piece := Front(text).value;
      var rest := Pieces(text[|Spell(piece)|..]);
      if rest.Some? {
        assert ([piece] + rest.value)[1..] == rest.value;
      }
    }
  }

  lemma PrependTwice(tokens: seq<Token>, more: seq<Token>, rest: Option<seq<Token>>)
    ensures Prepend(tokens, Prepend(more, rest)) == Prepend(tokens + more, rest)
  {
    if rest.Some? {
      assert tokens + (more + rest.value) == (tokens + more) + rest.value;
    }
  }

  function Shift(value: string, k: nat, r: Option<(string, nat)>): Option<(string, nat)> {
    match r
    case None => None
    case Some((rest, n)) => Some((value + rest, n + k))
  }

  lemma UnquoteStep(text: string)
    requires text != "" && text[0] != '"'
    ensures text[0] != '\\' ==> Unquote(text) == Shift([text[0]], 1, Unquote(text[1..]))
    ensures text[0] == '\\' && (|text| < 2 || text[1] != '"') ==> Unquote(text).None?
    ensures text[0] == '\\' && |text| >= 2 && text[1] == '"' ==> Unquote(text) == Shift("\"", 2, Unquote(text[2..]))
  {}

  lemma ShiftTwice(a: string, j: nat, b: string, k: nat, r: Option<(string, nat)>)
    ensures Shift(a, j, Shift(b, k, r)) == Shift(a + b, j + k, r)
    ensures Shift("", 0, r) == r
  {
    if r.Some? {
      assert a + (b + r.value.0) == (a + b) + r.value.0;
      assert "" + r.value.0 == r.value.0;
    }
  }

  /** The string after an opening quote: its value and where reading goes on. */
  method ReadQuoted(text: string, start: nat) returns (r: Option<string>, next: nat)
    requires start <= |text|
    ensures r.None? <==> Unquote(text[start..]).None?
    ensures r.Some? ==> start < next <= |text| && Unquote(text[start..]) == Some((r.value, next - start))
  {
    hide Unquote, Shift;
    var i, value := start, "";
    ShiftTwice("", 0, "", 0, Unquote(text[start..]));
    while i < |text| && text[i] != '"'
      invariant start <= i <= |text|
      invariant Unquote(text[start..]) == Shift(value, i - start, Unquote(text[i..]))
    {
      UnquoteStep(text[i..]);
      ghost var at := i;
      if text[i] == '\\' {
        i := i + 1;
        if i >= |text| || text[i] != '"' {
          ShiftNone(value, at - start);
          return None, i;
        }
      }
      assert text[at..][i + 1 - at..] == text[i + 1..];
      ShiftTwice(value, at - start, [text[i]], i + 1 - at, Unquote(text[i + 1..]));
      value := value + [text[i]];
      i := i + 1;
    }
    UnquoteEnds(text[i..], value, i - start);
    if i >= |text| {
      return None, i;
    }
    return Some(value), i + 1;
  }

  lemma UnquoteEnds(text: string, value: string, k: nat)
    ensures text == "" ==> Shift(value, k, Unquote(text)) == Unquote(text) == None
    ensures text != "" && text[0] == '"' ==> Shift(value, k, Unquote(text)) == Some((value, k + 1))
  {
    assert value + "" == value;
  }

  lemma ShiftNone(value: string, k: nat)
    ensures Shift(value, k, None).None?
  {}

  method RequirementTokens(text: string) returns (r: Option<seq<Token>>)
    ensures r == Tokens(text)
  {
    hide Tokens, Spell, IsBare, IsSymbol, IsBlank;
    var tokens: seq<Token> := [];
    var i := 0;
    assert text[0..] == text;
    NothingPrepended(Tokens(text));
    while i < |text|
      invariant i <= |text|
      invariant Tokens(text) == Prepend(tokens, Tokens(text[i..]))
    {
      TokensStep(text[i..]);
      var front, length := ReadFront(text, i);
      if front.None? {
        return None;
      }
      var word := if front.value.Word? then [front.value.token] else [];
      assert text[i..][length..] == text[i + length..];
      PrependTwice(tokens, word, Tokens(text[i + length..]));
      tokens := tokens + word;
      i := i + length;
    }
    NothingLeft();
    assert text[i..] == "" && tokens + [] == tokens;
    return Some(tokens);
  }

  lemma NothingPrepended(rest: Option<seq<Token>>)
    ensures Prepend([], rest) == rest
  {
    if rest.Some? {
      assert [] + rest.value == rest.value;
    }
  }

  lemma NothingLeft()
    ensures Tokens("") == Some([])
  {}

  /** One turn of the loop: the case split on the next character. */
  method ReadFront(text: string, i: nat) returns (r: Option<Piece>, length: nat)
    requires i < |text|
    ensures r == Front(text[i..])
    ensures r.Some? ==> length == |Spell(r.value)|
  {
    hide Unquote, CommentEnd, Escape, IsBare, IsSymbol, IsBlank, BareRun;
    var c := text[i];
    assert text[i..][0] == c;
    if IsBlank(c) {
      return Some(Blank(c)), 1;
    } else if OpensComment(text[i..]) {
      var end := CommentEnd(text[i + 2..]);
      assert text[i..][2..] == text[i + 2..];
      if end.None? {
        return None, 0;
      }
      assert text[i + 2..][..end.value] == text[i + 2..i + 2 + end.value];
      return Some(Comment(text[i + 2..i + 2 + end.value])), end.value + 4;
    } else if c == '"' {
      var value, next := ReadQuoted(text, i + 1);
      assert text[i..][1..] == text[i + 1..];
      if value.None? {
        return None, 0;
      }
      UnquoteReads(text[i + 1..]);
      return Some(Word(Quoted(value.value))), next - i;
    } else if IsSymbol(c) {
      assert text[i..][..1] == text[i..i + 1];
      return Some(Word(Symbol(text[i..i + 1]))), 1;
    } else if IsBare(c) {
      var end := ReadBare(text, i);
      return Some(Word(Bare(text[i..end]))), end - i;
    }
    return None, 0;
  }

  method ReadBare(text: string, i: nat) returns (end: nat)
    requires i < |text|
    ensures i <= end <= |text| && text[i..][..BareRun(text[i..])] == text[i..end]
  {
    hide IsBare;
    end := i;
    while end < |text| && IsBare(text[end])
      invariant i <= end <= |text|
      invariant forall k :: i <= k < end ==> IsBare(text[k])
    {
      end := end + 1;
    }
    assert text[i..] == text[i..end] + text[end..];
    BareRunInverts(text[i..end], text[end..]);
  }
}
