/**
 The publication marker that Stemma keeps in an Intune app's notes
 (internal/intune/intune.go). Graph exposes no plaintext digest, so this line of
 text is the only record of the payload a content version holds.
 */
module IntuneMarker {
  import opened Wrappers

  datatype Publication = Publication(identity: string, payload: string, content: string)

  predicate IsHex(c: char) {
    '0' <= c <= '9' || 'a' <= c <= 'f'
  }

  predicate IsContentByte(c: char) {
    'A' <= c <= 'Z' || 'a' <= c <= 'z' || '0' <= c <= '9' || c == '-'
  }

  lemma CharactersAreAscii(c: char)
    ensures IsHex(c) <==> 48 <= c as int <= 57 || 97 <= c as int <= 102
    ensures IsContentByte(c) <==>
            c as int == 45 || 48 <= c as int <= 57 || 65 <= c as int <= 90 || 97 <= c as int <= 122
  {}

  predicate Every(s: string, p: char -> bool) {
    forall i :: 0 <= i < |s| ==> p(s[i])
  }

  // ----- One marker line -----

  /** What the marker pattern's three character classes accept. */
  predicate WellFormed(p: Publication) {
    && |p.identity| == 64 && Every(p.identity, IsHex)
    && Every(p.payload, IsHex)
    && Every(p.content, IsContentByte)
  }

  function RunLength(s: string, p: char -> bool): (n: nat)
    ensures n <= |s|
  {
    if s == "" || !p(s[0]) then 0 else 1 + RunLength(s[1..], p)
  }

  /** Matches a literal and then the longest run of a character class. */
  function Field(s: string, open: string, p: char -> bool): Option<(string, string)> {
    if open <= s then
      var rest := s[|open|..];
      var n := RunLength(rest, p);
      Some((rest[..n], rest[n..]))
    else None
  }

  /** The literals around the three captured runs of the marker pattern. */
  datatype Frame = Frame(id: string, payload: string, content: string, close: string)

  const MARKER := Frame("[stemma:v1 id=", " payload=", " content=", "]")

  function Format(p: Publication, f: Frame): string {
    f.id + (p.identity + FormatPayload(p, f))
  }

  function FormatPayload(p: Publication, f: Frame): string {
    f.payload + (p.payload + FormatContent(p, f))
  }

  function FormatContent(p: Publication, f: Frame): string {
    f.content + (p.content + f.close)
  }

  function Match(line: string, f: Frame): Option<Publication> {
    match Field(line, f.id, IsHex)
    case None => None
    case Some((identity, afterId)) =>
      if |identity| != 64 then None else
      match Field(afterId, f.payload, IsHex)
      case None => None
      case Some((payload, afterPayload)) =>
        match Field(afterPayload, f.content, IsContentByte)
        case None => None
        case Some((content, afterContent)) =>
          if afterContent == f.close then Some(Publication(identity, payload, content)) else None
  }

  function Print(p: Publication): string {
    Format(p, MARKER)
  }

  /** Matches one whole line against the marker pattern. */
  function MarkerOf(line: string): Option<Publication> {
    Match(line, MARKER)
  }

  lemma {:induction false} RunLengthSplits(s: string, p: char -> bool)
    ensures Every(s[..RunLength(s, p)], p)
    ensures RunLength(s, p) == |s| || !p(s[RunLength(s, p)])
  {
    if s != "" && p(s[0]) {
      RunLengthSplits(s[1..], p);
      var n := RunLength(s[1..], p);
      assert s[..n + 1] == [s[0]] + s[1..][..n];
    }
  }

  lemma {:induction false} RunLengthOf(a: string, b: string, p: char -> bool)
    requires Every(a, p) && (b == "" || !p(b[0]))
    ensures RunLength(a + b, p) == |a|
  {
    if a == "" {
      assert a + b == b;
    } else {
      assert (a + b)[1..] == a[1..] + b;
      RunLengthOf(a[1..], b, p);
    }
  }

  lemma FieldMatches(s: string, open: string, p: char -> bool)
    ensures match Field(s, open, p)
            case Some((value, rest)) => s == open + (value + rest) && Every(value, p) && (rest == "" || !p(rest[0]))
            case None => !(open <= s)
  {
    if open <= s {
      RunLengthSplits(s[|open|..], p);
    }
  }

  lemma FieldFinds(open: string, value: string, rest: string, p: char -> bool)
    requires Every(value, p) && (rest == "" || !p(rest[0]))
    ensures Field(open + (value + rest), open, p) == Some((value, rest))
  {
    var s := open + (value + rest);
    assert s[|open|..] == value + rest;
    RunLengthOf(value, rest, p);
  }

  /** A literal that a run cannot swallow: it starts outside the run's class. */
  predicate Stops(literal: string, p: char -> bool) {
    literal != "" && !p(literal[0])
  }

  predicate Separating(f: Frame) {
    Stops(f.payload, IsHex) && Stops(f.content, IsHex) && Stops(f.close, IsContentByte)
  }

  lemma MatchParsesFormat(p: Publication, f: Frame)
    requires Separating(f) && WellFormed(p)
    ensures Match(Format(p, f), f) == Some(p)
  {
    FieldFinds(f.id, p.identity, FormatPayload(p, f), IsHex);
    FieldFinds(f.payload, p.payload, FormatContent(p, f), IsHex);
    FieldFinds(f.content, p.content, f.close, IsContentByte);
  }

  lemma MatchOnlyFormat(line: string, f: Frame)
    requires Match(line, f).Some?
    ensures WellFormed(Match(line, f).value) && line == Format(Match(line, f).value, f)
  {
    FieldMatches(line, f.id, IsHex);
    var afterId := Field(line, f.id, IsHex).value.1;
    FieldMatches(afterId, f.payload, IsHex);
    var afterPayload := Field(afterId, f.payload, IsHex).value.1;
    FieldMatches(afterPayload, f.content, IsContentByte);
    var p := Match(line, f).value;
    assert afterPayload == FormatContent(p, f);
    assert afterId == FormatPayload(p, f);
  }

  /** The matcher recognizes exactly the printed form of a well-formed publication. */
  lemma MarkerOfIsPrint(line: string, p: Publication)
    ensures MarkerOf(line) == Some(p) <==> WellFormed(p) && line == Print(p)
  {
    if MarkerOf(line).Some? {
      MatchOnlyFormat(line, MARKER);
    }
    if WellFormed(p) {
      MatchParsesFormat(p, MARKER);
    }
  }

  // ----- Lines of the notes -----

  function Lines(text: string): (lines: seq<string>)
    ensures |lines| >= 1
    ensures forall i :: 0 <= i < |lines| ==> '\n' !in lines[i]
  {
    if text == "" then [""]
    else
      var rest := Lines(text[1..]);
      if text[0] == '\n' then [""] + rest
      else [[text[0]] + rest[0]] + rest[1..]
  }

  function Join(lines: seq<string>): string
    requires |lines| >= 1
  {
    if |lines| == 1 then lines[0] else lines[0] + "\n" + Join(lines[1..])
  }

  lemma {:induction false} JoinLines(text: string)
    ensures Join(Lines(text)) == text
  {
    if text != "" {
      JoinLines(text[1..]);
    }
  }

  lemma {:induction false} LinesAppend(a: string, b: string)
    ensures Lines(a + "\n" + b) == Lines(a) + Lines(b)
  {
    var whole := a + "\n" + b;
    if a == "" {
      assert whole[1..] == b;
    } else {
      assert whole[1..] == a[1..] + "\n" + b;
      LinesAppend(a[1..], b);
    }
  }

  lemma {:induction false} LinesOfLine(line: string)
    requires '\n' !in line
    ensures Lines(line) == [line]
  {
    if line != "" {
      assert line[0] in line && forall c :: c in line[1..] ==> c in line;
      LinesOfLine(line[1..]);
      assert [line[0]] + line[1..] == line;
    }
  }

  lemma {:induction false} LinesJoin(lines: seq<string>)
    requires |lines| >= 1 && forall i :: 0 <= i < |lines| ==> '\n' !in lines[i]
    ensures Lines(Join(lines)) == lines
  {
    LinesOfLine(lines[0]);
    if |lines| > 1 {
      LinesJoin(lines[1..]);
      LinesAppend(lines[0], Join(lines[1..]));
    }
  }

  lemma {:induction false} JoinLast(lines: seq<string>, last: string)
    requires |lines| >= 1
    ensures Join(lines + [last]) == Join(lines) + "\n" + last
  {
    var whole := lines + [last];
    if |lines| == 1 {
      assert whole[1..] == [last];
    } else {
      assert whole[1..] == lines[1..] + [last];
      JoinLast(lines[1..], last);
    }
  }

  // ----- Reading and writing the notes -----

  datatype NotesError = ForeignIdentity

  /** Folds the matches of the marker pattern in order: the last own match wins. */
  function RecoverLines(lines: seq<string>, found: Publication): Result<Publication, NotesError> {
    if lines == [] then Success(found)
    else
      match MarkerOf(lines[0])
      case None => RecoverLines(lines[1..], found)
      case Some(p) =>
        if p.identity != found.identity then Failure(ForeignIdentity)
        else RecoverLines(lines[1..], p)
  }

  function RecoverMarker(notes: string, identity: string): Result<Publication, NotesError> {
    RecoverLines(Lines(notes), Publication(identity, "", ""))
  }

  function BlankMarkers(lines: seq<string>): (blank: seq<string>)
    ensures |blank| == |lines|
    ensures forall i :: 0 <= i < |lines| ==> blank[i] == if MarkerOf(lines[i]).Some? then "" else lines[i]
  {
    if lines == [] then []
    else [if MarkerOf(lines[0]).Some? then "" else lines[0]] + BlankMarkers(lines[1..])
  }

  function TrimNewline(text: string): string {
    if text != "" && text[|text| - 1] == '\n' then text[..|text| - 1] else text
  }

  /** The notes without Stemma's marker; declared notes replace what is there. */
  function NoteText(current: string, declared: Option<string>): string {
    match declared
    case Some(notes) => notes
    case None => TrimNewline(Join(BlankMarkers(Lines(current))))
  }

  function WithMarker(notes: string, p: Publication): string {
    if notes == "" then Print(p) else notes + "\n" + Print(p)
  }

  predicate HasMarker(notes: string) {
    exists i :: 0 <= i < |Lines(notes)| && MarkerOf(Lines(notes)[i]).Some?
  }

  /** No line of the notes is the marker of another identity. */
  predicate OnlyOwnMarkers(notes: string, identity: string) {
    OwnLines(Lines(notes), identity)
  }

  predicate OwnLines(lines: seq<string>, identity: string) {
    forall i :: 0 <= i < |lines| && MarkerOf(lines[i]).Some? ==> MarkerOf(lines[i]).value.identity == identity
  }

  lemma OwnLinesCons(lines: seq<string>, identity: string)
    requires lines != []
    ensures OwnLines(lines, identity) <==>
            (MarkerOf(lines[0]).Some? ==> MarkerOf(lines[0]).value.identity == identity)
              && OwnLines(lines[1..], identity)
  {
    var tail := lines[1..];
    if OwnLines(tail, identity) {
      assert forall i :: 1 <= i < |lines| ==> lines[i] == tail[i - 1];
    }
  }

  lemma {:induction false} RecoverLinesThenMarker(lines: seq<string>, last: string, found: Publication, p: Publication)
    requires MarkerOf(last) == Some(p) && found.identity == p.identity
    ensures RecoverLines(lines + [last], found) ==
            if OwnLines(lines, p.identity) then Success(p) else Failure(ForeignIdentity)
  {
    var whole := lines + [last];
    if lines == [] {
      assert whole[1..] == [];
      assert RecoverLines(whole[1..], p) == Success(p);
    } else {
      assert whole[1..] == lines[1..] + [last] && whole[0] == lines[0];
      var first := MarkerOf(lines[0]);
      var found' := if first.Some? then first.value else found;
      OwnLinesCons(lines, p.identity);
      if found'.identity == p.identity {
        RecoverLinesThenMarker(lines[1..], last, found', p);
      }
    }
  }

  lemma PrintIsOneLine(p: Publication)
    requires WellFormed(p)
    ensures '\n' !in Print(p)
  {
    assert '\n' !in p.identity && '\n' !in p.payload && '\n' !in p.content;
  }

  lemma WithMarkerLines(notes: string, p: Publication)
    requires WellFormed(p)
    ensures Lines(WithMarker(notes, p)) == (if notes == "" then [] else Lines(notes)) + [Print(p)]
  {
    PrintIsOneLine(p);
    LinesOfLine(Print(p));
    LinesAppend(notes, Print(p));
  }

  /** Reading back what was written succeeds exactly when the surrounding notes
      carry no marker of another identity. */
  lemma RecoverInvertsWithMarker(notes: string, p: Publication)
    requires WellFormed(p)
    ensures RecoverMarker(WithMarker(notes, p), p.identity) ==
            if OnlyOwnMarkers(notes, p.identity) then Success(p) else Failure(ForeignIdentity)
  {
    WithMarkerLines(notes, p);
    MarkerOfIsPrint(Print(p), p);
    var before := if notes == "" then [] else Lines(notes);
    RecoverLinesThenMarker(before, Print(p), Publication(p.identity, "", ""), p);
  }

  lemma {:induction false} RecoveredIsWellFormed(lines: seq<string>, found: Publication)
    requires RecoverLines(lines, found).Success?
    ensures var p := RecoverLines(lines, found).value;
            p.identity == found.identity && (p == found || WellFormed(p))
  {
    if lines != [] {
      match MarkerOf(lines[0])
      case None => RecoveredIsWellFormed(lines[1..], found);
      case Some(p) =>
        MarkerOfIsPrint(lines[0], p);
        RecoveredIsWellFormed(lines[1..], p);
    }
  }

  lemma LastChar(before: string, line: string)
    requires '\n' !in line
    ensures line != "" ==> TrimNewline(before + line) == before + line
  {
    if line != "" {
      assert (before + line)[|before + line| - 1] == line[|line| - 1];
      assert line[|line| - 1] in line;
    }
  }

  lemma TrimsFinalNewline(text: string)
    ensures TrimNewline(text + "\n") == text
  {}

  lemma JoinEnds(lines: seq<string>) returns (before: string)
    requires |lines| >= 1
    ensures Join(lines) == before + lines[|lines| - 1]
    ensures |lines| > 1 ==> before == Join(lines[..|lines| - 1]) + "\n"
  {
    if |lines| == 1 {
      before := "";
      assert Join(lines) == before + lines[0];
    } else {
      var init, last := lines[..|lines| - 1], lines[|lines| - 1];
      assert lines == init + [last];
      JoinLast(init, last);
      before := Join(init) + "\n";
    }
  }

  predicate EndsBlank(lines: seq<string>) {
    |lines| > 1 && lines[|lines| - 1] == ""
  }

  lemma TrimmedLines(lines: seq<string>)
    requires |lines| >= 1 && forall i :: 0 <= i < |lines| ==> '\n' !in lines[i]
    ensures Lines(TrimNewline(Join(lines))) == if EndsBlank(lines) then lines[..|lines| - 1] else lines
  {
    var before := JoinEnds(lines);
    var text, last := Join(lines), lines[|lines| - 1];
    if EndsBlank(lines) {
      var init := lines[..|lines| - 1];
      assert text == Join(init) + "\n";
      TrimsFinalNewline(Join(init));
      LinesJoin(init);
    } else {
      LinesJoin(lines);
      LastChar(before, last);
      assert TrimNewline(text) == text;
    }
  }

  lemma BlankIsNoMarker()
    ensures MarkerOf("").None?
  {
    assert !(MARKER.id <= "");
  }

  /** Stripping removes every marker, whichever identity wrote it. */
  lemma StrippedNotesHaveNoMarker(notes: string)
    ensures !HasMarker(NoteText(notes, None))
  {
    var blank := BlankMarkers(Lines(notes));
    BlankIsNoMarker();
    TrimmedLines(blank);
    var kept := Lines(NoteText(notes, None));
    forall i | 0 <= i < |kept|
      ensures MarkerOf(kept[i]).None?
    {
      assert kept[i] == blank[i];
    }
  }

  /** Stripping undoes the append exactly for notes that carry no marker line. */
  lemma NoteTextInvertsWithMarker(notes: string, p: Publication)
    requires WellFormed(p)
    ensures NoteText(WithMarker(notes, p), None) == notes <==> !HasMarker(notes)
  {
    hide MarkerOf, Print, WellFormed;
    var written := WithMarker(notes, p);
    StrippedNotesHaveNoMarker(written);
    if !HasMarker(notes) {
      WithMarkerLines(notes, p);
      MarkerOfIsPrint(Print(p), p);
      var blank := BlankMarkers(Lines(written));
      if notes == "" {
        assert blank == [""];
      } else {
        assert blank == Lines(notes) + [""];
        JoinLast(Lines(notes), "");
        JoinLines(notes);
      }
    }
  }

  /** The rewrite of notes that a run did not declare always reads back. */
  lemma RewrittenNotesRecover(current: string, p: Publication)
    requires WellFormed(p)
    ensures RecoverMarker(WithMarker(NoteText(current, None), p), p.identity) == Success(p)
    ensures NoteText(WithMarker(NoteText(current, None), p), None) == NoteText(current, None)
  {
    StrippedNotesHaveNoMarker(current);
    RecoverInvertsWithMarker(NoteText(current, None), p);
    NoteTextInvertsWithMarker(NoteText(current, None), p);
  }
}
