/**
 ODC CPIO streams (internal/apple/payload.go, cpioReader): the reader over a byte stream,
 and the encoding of IEEE Std 1003.1, pax, "cpio Interchange Format", that it inverts.
 */
module AppleCpio {
  import opened Wrappers
  import Pairs

  const MaxEntrySize: nat := 16 * 0x4000_0000
  const MaxPadding: nat := 0x10_0000
  const MaxPathBytes: nat := 128 * 0x10_0000

  const Slash: byte := 47
  const Dot: byte := 46
  const Magic: Bytes := [48, 55, 48, 55, 48, 55]
  /** TRAILER!!! */
  const TrailerName: Bytes := [84, 82, 65, 73, 76, 69, 82, 33, 33, 33]

  datatype Kind = Directory | Regular | Symlink | OtherKind(bits: nat)

  /** One entry with its content. */
  datatype Item = Item(name: Bytes, mode: nat, links: nat, content: Bytes)

  function KindOf(mode: nat): Kind {
    var bits := mode / 0x1000 % 16;
    if bits == 4 then Directory else if bits == 8 then Regular else if bits == 10 then Symlink else OtherKind(bits)
  }

  /** The file type is the octal digits 040000, 0100000 or 0120000 above the permissions. */
  lemma KindIsTheFileType(mode: nat)
    ensures KindOf(mode) == Directory <==> mode % 0x1_0000 - mode % 0x1000 == 16384
    ensures KindOf(mode) == Regular <==> mode % 0x1_0000 - mode % 0x1000 == 32768
    ensures KindOf(mode) == Symlink <==> mode % 0x1_0000 - mode % 0x1000 == 40960
  {
    var high := mode / 0x1000;
    assert mode % 0x1_0000 == high % 16 * 0x1000 + mode % 0x1000;
  }

  /** The bytes of an ASCII text. */
  predicate IsText(b: Bytes, text: string) {
    |b| == |text| && forall i :: 0 <= i < |b| ==> b[i] as int == text[i] as int
  }

  // ----- Octal fields -----

  function Power8(n: nat): (p: nat)
    ensures p > 0
  {
    if n == 0 then 1 else 8 * Power8(n - 1)
  }

  function Octal(value: nat, width: nat): (b: Bytes)
    ensures |b| == width
  {
    if width == 0 then [] else Octal(value / 8, width - 1) + [(48 + value % 8) as byte]
  }

  function ParseOctal(b: Bytes): Option<nat> {
    if b == [] then Some(0)
    else
      var last := b[|b| - 1];
      match ParseOctal(b[..|b| - 1])
      case None => None
      case Some(value) => if 48 <= last <= 55 then Some(8 * value + (last as nat - 48)) else None
  }

  lemma {:induction false} ParseInvertsOctal(value: nat, width: nat)
    requires value < Power8(width)
    ensures ParseOctal(Octal(value, width)) == Some(value)
  {
    if width > 0 {
      ParseInvertsOctal(value / 8, width - 1);
      var b := Octal(value, width);
      assert b[..width - 1] == Octal(value / 8, width - 1);
    }
  }

  /** Widths of dev, ino, mode, uid, gid, nlink, rdev, mtime, namesize and filesize. */
  const Widths: seq<nat> := [6, 6, 6, 6, 6, 6, 6, 11, 6, 11]

  function Total(widths: seq<nat>): nat {
    if widths == [] then 0 else widths[0] + Total(widths[1..])
  }

  function Fields(values: seq<nat>, widths: seq<nat>): (b: Bytes)
    requires |values| == |widths|
    ensures |b| == Total(widths)
  {
    if widths == [] then [] else Octal(values[0], widths[0]) + Fields(values[1..], widths[1..])
  }

  function ParseFields(b: Bytes, widths: seq<nat>): Option<seq<nat>>
    requires |b| == Total(widths)
  {
    if widths == [] then Some([])
    else match ParseOctal(b[..widths[0]])
      case None => None
      case Some(value) =>
        match ParseFields(b[widths[0]..], widths[1..])
        case None => None
        case Some(rest) => Some([value] + rest)
  }

  predicate FieldsFit(values: seq<nat>, widths: seq<nat>) {
    |values| == |widths| && forall i :: 0 <= i < |values| ==> values[i] < Power8(widths[i])
  }

  lemma {:induction false} ParseInvertsFields(values: seq<nat>, widths: seq<nat>)
    requires FieldsFit(values, widths)
    ensures ParseFields(Fields(values, widths), widths) == Some(values)
    decreases |widths|
  {
    if widths != [] {
      var b := Fields(values, widths);
      ParseInvertsOctal(values[0], widths[0]);
      ParseInvertsFields(values[1..], widths[1..]);
      assert b[..widths[0]] == Octal(values[0], widths[0]);
      assert b[widths[0]..] == Fields(values[1..], widths[1..]);
      assert [values[0]] + values[1..] == values;
    }
  }

  lemma {:induction false} ParsedFields(b: Bytes, widths: seq<nat>)
    requires |b| == Total(widths)
    ensures ParseFields(b, widths).Some? ==> |ParseFields(b, widths).value| == |widths|
    decreases |widths|
  {
    if widths != [] {
      ParsedFields(b[widths[0]..], widths[1..]);
    }
  }

  // ----- Names -----

  function Components(name: Bytes): seq<Bytes>
    decreases |name|
  {
    if Slash !in name then [name]
    else
      var n := First(name);
      [name[..n]] + Components(name[n + 1..])
  }

  function First(name: Bytes): (n: nat)
    requires Slash in name
    ensures n < |name| && name[n] == Slash && Slash !in name[..n]
  {
    if name[0] == Slash then 0
    else
      assert name == [name[0]] + name[1..];
      assert name[..1 + First(name[1..])] == [name[0]] + name[1..][..First(name[1..])];
      1 + First(name[1..])
  }

  /** A clean relative path that does not climb, or the root. */
  predicate SafeName(name: Bytes) {
    && 0 !in name && 92 !in name
    && (name == [Dot]
        || forall i :: 0 <= i < |Components(name)| ==>
             Components(name)[i] != [] && Components(name)[i] != [Dot] && Components(name)[i] != [Dot, Dot])
  }

  function TrimDot(name: Bytes): Bytes {
    if 2 <= |name| && name[0] == Dot && name[1] == Slash then name[2..] else name
  }

  /** The name an entry gets: without a leading ./, and the root as a dot. */
  function NameOf(raw: Bytes): Bytes {
    if TrimDot(raw) == [] then [Dot] else TrimDot(raw)
  }

  lemma SafeNamesStay(name: Bytes)
    requires SafeName(name)
    ensures name != [] && NameOf(name) == name
    ensures NameOf([Dot, Slash] + name) == name && NameOf([Dot, Slash]) == [Dot]
  {
    assert ([Dot, Slash] + name)[2..] == name;
    FirstComponent(name);
  }

  lemma FirstComponent(name: Bytes)
    ensures Components(name) != []
    ensures name == [] ==> Components(name)[0] == []
    ensures 2 <= |name| && name[0] == Dot && name[1] == Slash ==> Components(name)[0] == [Dot]
  {
    if 2 <= |name| && name[0] == Dot && name[1] == Slash {
      var n := First(name);
      assert forall k :: 0 <= k < n ==> name[..n][k] == name[k];
      assert name[..1] == [Dot];
    }
  }

  // ----- The reader -----

  datatype Reader = Reader(rest: Bytes, entries: int, pathBytes: nat, seen: map<Bytes, Kind>)

  datatype Head = Head(name: Bytes, mode: nat, links: nat, size: nat, duplicate: bool)

  datatype Next = Bad | End | Entry(head: Head, after: Reader)

  /** Zeros to the end of the stream. */
  predicate Padding(b: Bytes) {
    |b| <= MaxPadding && forall i :: 0 <= i < |b| ==> b[i] == 0
  }

  function ReadNext(c: Reader): Next {
    if c.entries <= 0 || |c.rest| < 76 || c.rest[..6] != Magic then Bad
    else
      TotalIs70();
      match ParseFields(c.rest[6..76], Widths)
      case None => Bad
      case Some(fields) =>
        ParsedFields(c.rest[6..76], Widths);
        var nameSize, size := fields[8], fields[9];
        if nameSize < 2 || nameSize > 4096 || size > MaxEntrySize || 76 + nameSize > |c.rest|
          || c.rest[75 + nameSize] != 0 then Bad
        else Named(c, c.rest[76..75 + nameSize], fields[2], fields[5], size, c.rest[76 + nameSize..])
  }

  function Named(c: Reader, raw: Bytes, mode: nat, links: nat, size: nat, rest: Bytes): Next {
    if raw == TrailerName then (if size == 0 && Padding(rest) then End else Bad)
    else
      var name, kind := NameOf(raw), KindOf(mode);
      if !SafeName(name) then Bad
      else if name in c.seen && c.seen[name] != kind then Bad
      else if name == [Dot] && kind != Directory then Bad
      else if c.pathBytes + |name| > MaxPathBytes then Bad
      else Entry(Head(name, mode, links, size, name in c.seen),
                 Reader(rest, c.entries - 1, c.pathBytes + |name|, c.seen[name := kind]))
  }

  lemma TotalIs70()
    ensures Total(Widths) == 70
  {
    assert Widths[1..] == [6, 6, 6, 6, 6, 6, 11, 6, 11];
    assert Widths[1..][1..] == [6, 6, 6, 6, 6, 11, 6, 11];
    assert Widths[1..][1..][1..] == [6, 6, 6, 6, 11, 6, 11];
    assert Total([6, 11]) == 17;
    assert [11, 6, 11][1..] == [6, 11];
    assert Total([11, 6, 11]) == 28;
    assert [6, 6, 6, 6, 11, 6, 11][1..][1..][1..][1..] == [11, 6, 11];
  }

  lemma NextConsumes(c: Reader)
    ensures ReadNext(c).Entry? ==> |ReadNext(c).after.rest| < |c.rest|
  {
    hide SafeName, KindOf, Padding;
  }

  /** The whole stream: every entry with its content, up to the trailer. */
  function Decode(c: Reader): Option<seq<Item>>
    decreases |c.rest|
  {
    match ReadNext(c)
    case Bad => None
    case End => Some([])
    case Entry(head, after) =>
      NextConsumes(c);
      if head.size > |after.rest| then None
      else match Decode(after.(rest := after.rest[head.size..]))
        case None => None
        case Some(items) => Some([Item(head.name, head.mode, head.links, after.rest[..head.size])] + items)
  }

  // ----- The encoding -----

  /** A name bare or behind ./, and the root as ./ alone. */
  datatype Spelling = Bare | Prefixed | PrefixOnly

  /** How a packager spells an entry: the fields nobody reads, and its name. */
  datatype Style = Style(dev: nat, ino: nat, uid: nat, gid: nat, rdev: nat, mtime: nat, spelling: Spelling)

  function RawName(name: Bytes, style: Style): Bytes {
    match style.spelling
    case Bare => name
    case Prefixed => [Dot, Slash] + name
    case PrefixOnly => [Dot, Slash]
  }

  /** The trailer's own header, and what follows it. */
  datatype Tail = Tail(mode: nat, links: nat, style: Style, padding: Bytes)

  /** Behind the trailer come zeros, at most a mebibyte of them. */
  predicate TailFits(t: Tail) {
    && HeadFits(TrailerName, t.mode, t.links, 0, t.style)
    && |t.padding| <= 1048576 && forall b <- t.padding :: b == 0
  }

  function HeaderFields(raw: Bytes, mode: nat, links: nat, size: nat, style: Style): seq<nat> {
    [style.dev, style.ino, mode, style.uid, style.gid, links, style.rdev, style.mtime, |raw| + 1, size]
  }

  function EncodeHead(raw: Bytes, mode: nat, links: nat, size: nat, style: Style): Bytes {
    Magic + (Fields(HeaderFields(raw, mode, links, size, style), Widths) + (raw + [0]))
  }

  function Encode(items: seq<Item>, styles: seq<Style>, tail: Tail): Bytes
    requires |styles| == |items|
  {
    if items == [] then EncodeHead(TrailerName, tail.mode, tail.links, 0, tail.style) + tail.padding
    else
      var it := items[0];
      EncodeHead(RawName(it.name, styles[0]), it.mode, it.links, |it.content|, styles[0])
      + (it.content + Encode(items[1..], styles[1..], tail))
  }

  predicate HeadFits(raw: Bytes, mode: nat, links: nat, size: nat, style: Style) {
    1 <= |raw| <= 4095 && FieldsFit(HeaderFields(raw, mode, links, size, style), Widths)
  }

  /** An entry the format can hold under a safe name; only ./ tells one named as the
      trailer from the trailer. */
  predicate Encodable(it: Item, style: Style) {
    && SafeName(it.name) && HeadFits(RawName(it.name, style), it.mode, it.links, |it.content|, style)
    && RawName(it.name, style) != TrailerName && (style.spelling.PrefixOnly? ==> it.name == [Dot])
  }

  predicate AllEncodable(items: seq<Item>, styles: seq<Style>) {
    |styles| == |items| && forall i :: 0 <= i < |items| ==> Encodable(items[i], styles[i])
  }

  function NameLength(it: Item): int {
    |it.name|
  }

  function KindsAgree(): (Item, Item) -> bool {
    (a: Item, b: Item) => a.name == b.name ==> KindOf(a.mode) == KindOf(b.mode)
  }

  /** What a reader admits: within its budgets, no path changes type, the root is a
      directory. */
  ghost predicate Admits(c: Reader, items: seq<Item>) {
    && |items| < c.entries && c.pathBytes + Pairs.Sum(items, NameLength) <= MaxPathBytes
    && FitsSeen(c.seen, items) && RootsAreDirectories(items)
    && Pairs.Pairwise(items, KindsAgree())
  }

  lemma SizesFit()
    ensures Power8(11) <= MaxEntrySize && Power8(6) == 262144
  {
    assert Power8(5) == 32768;
    assert Power8(6) == 8 * Power8(5);
    assert Power8(11) == 8 * Power8(10) == 8 * (8 * Power8(9)) == 64 * (8 * Power8(8)) == 512 * (8 * Power8(7))
           == 4096 * (8 * Power8(6));
  }

  /** A header is read back, whatever follows it. */
  lemma HeadReadsBack(c: Reader, raw: Bytes, mode: nat, links: nat, size: nat, style: Style, rest: Bytes)
    requires HeadFits(raw, mode, links, size, style)
    requires c.entries > 0 && c.rest == EncodeHead(raw, mode, links, size, style) + rest
    ensures ReadNext(c) == Named(c, raw, mode, links, size, rest)
  {
    hide Named, Padding, MaxEntrySize, Octal, ParseOctal;
    var values := HeaderFields(raw, mode, links, size, style);
    TotalIs70();
    ParseInvertsFields(values, Widths);
    SizesFit();
    var fields := Fields(values, Widths);
    assert c.rest == Magic + (fields + (raw + ([0] + rest)));
    assert c.rest[..6] == Magic;
    assert c.rest[6..76] == fields;
    assert c.rest[76..76 + |raw|] == raw;
    assert c.rest[76 + |raw|] == 0;
    assert c.rest[77 + |raw|..] == rest;
    assert values[9] == size && size < Power8(Widths[9]);
    assert values[8] == |raw| + 1;
  }

  /** What a reader checks of an entry beyond its header. */
  predicate AdmitsNext(c: Reader, it: Item) {
    && (it.name in c.seen ==> c.seen[it.name] == KindOf(it.mode)) && (it.name == [Dot] ==> KindOf(it.mode) == Directory)
    && c.pathBytes + |it.name| <= MaxPathBytes
  }

  /** The reader behind an entry's header. */
  function AfterHead(c: Reader, it: Item, rest: Bytes): Reader {
    Reader(rest, c.entries - 1, c.pathBytes + |it.name|, c.seen[it.name := KindOf(it.mode)])
  }

  lemma EntryReadsBack(c: Reader, it: Item, style: Style, rest: Bytes)
    requires Encodable(it, style) && c.entries > 0
    requires c.rest == EncodeHead(RawName(it.name, style), it.mode, it.links, |it.content|, style) + (it.content + rest)
    ensures ReadNext(c) == if AdmitsNext(c, it)
              then Entry(Head(it.name, it.mode, it.links, |it.content|, it.name in c.seen),
                         AfterHead(c, it, it.content + rest))
              else Bad
  {
    hide HeadFits, Padding, SafeName, EncodeHead, KindOf;
    EncodableHead(it, style);
    HeadReadsBack(c, RawName(it.name, style), it.mode, it.links, |it.content|, style, it.content + rest);
  }

  /** Decoding goes on behind an entry's content. */
  lemma DecodeBehind(c: Reader, it: Item, rest: Bytes)
    requires ReadNext(c) == Entry(Head(it.name, it.mode, it.links, |it.content|, it.name in c.seen),
                                  AfterHead(c, it, it.content + rest))
    ensures Decode(c) == match Decode(AfterHead(c, it, rest))
                         case None => None
                         case Some(items) => Some([it] + items)
  {
    hide ReadNext, Decode, KindOf;
    DecodeNext(c);
    assert (it.content + rest)[..|it.content|] == it.content && (it.content + rest)[|it.content|..] == rest;
    var after := AfterHead(c, it, it.content + rest);
    assert after.(rest := after.rest[|it.content|..]) == AfterHead(c, it, rest);
  }

  /** Decoding inverts encoding, for every stream the reader admits, and it rejects every
      other: fields in any style, names with or without ./, any permitted padding. */
  lemma {:induction false} DecodeInvertsEncode(c: Reader, items: seq<Item>, styles: seq<Style>, tail: Tail)
    requires AllEncodable(items, styles) && TailFits(tail)
    requires c.rest == Encode(items, styles, tail) && c.pathBytes <= MaxPathBytes
    ensures Decode(c) == if Admits(c, items) then Some(items) else None
    decreases |items|
  {
    hide Decode, Encode, Encodable, AllEncodable, SafeName, EncodeHead, TailFits, ReadNext, AdmitsNext, AfterHead,
      Admits;
    EncodableParts(items, styles);
    if c.entries <= 0 {
      SpentAdmitsNothing(c, items);
      DecodesBad(c);
    } else if items == [] {
      TailReadsBack(c, tail);
    } else {
      var it, rest := items[0], items[1..];
      var more := Encode(rest, styles[1..], tail);
      EncodeParts(items, styles, tail);
      EntryReadsBack(c, it, styles[0], more);
      AdmitsFirst(c, it, rest, more);
      assert items == [it] + rest;
      if AdmitsNext(c, it) {
        DecodeBehind(c, it, more);
        AfterHeadIs(c, it, more);
        DecodeInvertsEncode(AfterHead(c, it, more), rest, styles[1..], tail);
      } else {
        DecodesBad(c);
      }
    }
  }

  lemma SpentAdmitsNothing(c: Reader, items: seq<Item>)
    requires c.entries <= 0
    ensures ReadNext(c).Bad? && !Admits(c, items)
  {}

  lemma EncodeParts(items: seq<Item>, styles: seq<Style>, tail: Tail)
    requires |styles| == |items| > 0
    ensures Encode(items, styles, tail) ==
            EncodeHead(RawName(items[0].name, styles[0]), items[0].mode, items[0].links, |items[0].content|, styles[0])
            + (items[0].content + Encode(items[1..], styles[1..], tail))
  {}

  lemma AfterHeadIs(c: Reader, it: Item, rest: Bytes)
    requires AdmitsNext(c, it)
    ensures AfterHead(c, it, rest).rest == rest && AfterHead(c, it, rest).pathBytes <= MaxPathBytes
  {}

  lemma DecodesBad(c: Reader)
    requires ReadNext(c).Bad?
    ensures Decode(c).None?
  {}

  lemma TailReadsBack(c: Reader, tail: Tail)
    requires TailFits(tail) && c.entries > 0 && c.pathBytes <= MaxPathBytes && c.rest == Encode([], [], tail)
    ensures Decode(c) == Some([]) && Admits(c, [])
  {
    hide HeadFits, Padding, TailFits, EncodeHead;
    TailIsPadding(tail);
    HeadReadsBack(c, TrailerName, tail.mode, tail.links, 0, tail.style, tail.padding);
  }

  lemma EncodableParts(items: seq<Item>, styles: seq<Style>)
    requires AllEncodable(items, styles)
    ensures |styles| == |items|
    ensures items != [] ==> Encodable(items[0], styles[0]) && AllEncodable(items[1..], styles[1..])
  {
    hide Encodable;
  }

  lemma TailIsPadding(tail: Tail)
    requires TailFits(tail)
    ensures HeadFits(TrailerName, tail.mode, tail.links, 0, tail.style) && Padding(tail.padding)
  {
    assert forall i :: 0 <= i < |tail.padding| ==> tail.padding[i] in tail.padding;
  }

  lemma EncodableHead(it: Item, style: Style)
    requires Encodable(it, style)
    ensures HeadFits(RawName(it.name, style), it.mode, it.links, |it.content|, style)
    ensures NameOf(RawName(it.name, style)) == it.name && SafeName(it.name) && RawName(it.name, style) != TrailerName
  {
    SafeNamesStay(it.name);
  }

  lemma AdmitsAnyRest(a: Reader, b: Reader, items: seq<Item>)
    requires a == b.(rest := a.rest)
    ensures Admits(a, items) == Admits(b, items)
  {}

  /** Admission one entry at a time. */
  lemma AdmitsFirst(c: Reader, it: Item, rest: seq<Item>, tail: Bytes)
    requires c.entries > 0
    ensures Admits(c, [it] + rest) <==> AdmitsNext(c, it) && Admits(AfterHead(c, it, tail), rest)
  {
    hide SafeName, KindOf, Pairs.Pairwise, Pairs.Sum;
    var items := [it] + rest;
    Pairs.PairwiseFirst(it, rest, KindsAgree());
    Pairs.SumWithout(items, 0, NameLength);
    assert items[..0] + items[1..] == rest;
    LengthsAddUp(rest);
    KindsFirst(c, it, rest);
    hide KindsAgree, FitsSeen, RootsAreDirectories;
  }

  predicate FitsSeen(seen: map<Bytes, Kind>, items: seq<Item>) {
    forall it <- items :: it.name in seen ==> seen[it.name] == KindOf(it.mode)
  }

  predicate RootsAreDirectories(items: seq<Item>) {
    forall it <- items :: it.name == [Dot] ==> KindOf(it.mode) == Directory
  }

  lemma KindsFirst(c: Reader, it: Item, rest: seq<Item>)
    ensures var kind := KindOf(it.mode);
            (FitsSeen(c.seen, [it] + rest) && forall o <- rest :: KindsAgree()(it, o))
            <==> (it.name in c.seen ==> c.seen[it.name] == kind) && FitsSeen(c.seen[it.name := kind], rest)
    ensures RootsAreDirectories([it] + rest) <==>
            (it.name == [Dot] ==> KindOf(it.mode) == Directory) && RootsAreDirectories(rest)
  {
    hide KindOf;
    var items, kind := [it] + rest, KindOf(it.mode);
    assert forall o :: o in items <==> o == it || o in rest;
  }

  lemma {:induction false} LengthsAddUp(items: seq<Item>)
    ensures Pairs.Sum(items, NameLength) >= 0
  {
    if items != [] {
      LengthsAddUp(items[..|items| - 1]);
    }
  }

  /** The format holds a set of entries in any order, or in none. */
  lemma AdmissionIgnoresOrder(c: Reader, a: seq<Item>, b: seq<Item>)
    requires multiset(a) == multiset(b)
    ensures Admits(c, a) == Admits(c, b)
  {
    hide KindOf;
    Pairs.SumIgnoresOrder(a, b, NameLength);
    Pairs.PairwiseIgnoresOrder(a, b, KindsAgree());
    Pairs.SameElements(a, b);
  }

  // ----- Nothing else decodes -----

  lemma {:induction false} OctalInvertsParse(b: Bytes)
    requires ParseOctal(b).Some?
    ensures b == Octal(ParseOctal(b).value, |b|) && ParseOctal(b).value < Power8(|b|)
  {
    if b != [] {
      var n := |b| - 1;
      OctalInvertsParse(b[..n]);
      assert b == b[..n] + [b[n]];
    }
  }

  lemma {:induction false} FieldsInvertParse(b: Bytes, widths: seq<nat>)
    requires |b| == Total(widths) && ParseFields(b, widths).Some?
    ensures FieldsFit(ParseFields(b, widths).value, widths) && b == Fields(ParseFields(b, widths).value, widths)
    decreases |widths|
  {
    if widths != [] {
      var w := widths[0];
      OctalInvertsParse(b[..w]);
      FieldsInvertParse(b[w..], widths[1..]);
      var rest := ParseFields(b[w..], widths[1..]).value;
      var values := ParseFields(b, widths).value;
      assert values[1..] == rest && b == b[..w] + b[w..];
      forall i | 0 <= i < |values| ensures values[i] < Power8(widths[i]) {
        assert i > 0 ==> values[i] == rest[i - 1] && widths[i] == widths[1..][i - 1];
      }
    }
  }

  function SpellingOf(raw: Bytes): Spelling {
    if raw == [Dot, Slash] then PrefixOnly else if TrimDot(raw) != raw then Prefixed else Bare
  }

  /** A header that is read was written in some style. */
  lemma HeadIsEncoded(c: Reader) returns (raw: Bytes, mode: nat, links: nat, size: nat, style: Style, rest: Bytes)
    requires !ReadNext(c).Bad?
    ensures HeadFits(raw, mode, links, size, style) && c.entries > 0 && |rest| < |c.rest|
    ensures c.rest == EncodeHead(raw, mode, links, size, style) + rest
    ensures ReadNext(c) == Named(c, raw, mode, links, size, rest)
    ensures style.spelling == SpellingOf(raw)
  {
    hide Named, Padding, MaxEntrySize, Octal, ParseOctal, ParseFields, Fields, FieldsFit;
    TotalIs70();
    var fields := ParseFields(c.rest[6..76], Widths).value;
    FieldsInvertParse(c.rest[6..76], Widths);
    ParsedFields(c.rest[6..76], Widths);
    var n := fields[8];
    raw, mode, links, size, rest := c.rest[76..75 + n], fields[2], fields[5], fields[9], c.rest[76 + n..];
    style := Style(fields[0], fields[1], fields[3], fields[4], fields[6], fields[7], SpellingOf(raw));
    assert HeaderFields(raw, mode, links, size, style) == fields;
    HeadCuts(c.rest, n);
  }

  lemma HeadCuts(b: Bytes, n: nat)
    requires 1 <= n && 76 + n <= |b|
    ensures b == b[..6] + (b[6..76] + (b[76..75 + n] + [b[75 + n]])) + b[76 + n..]
  {}

  /** The name read from a raw name spells back to it. */
  lemma RawNameIsSpelled(raw: Bytes, style: Style)
    requires raw != [] && SafeName(NameOf(raw))
    requires style.spelling == SpellingOf(raw)
    ensures RawName(NameOf(raw), style) == raw && (style.spelling.PrefixOnly? ==> NameOf(raw) == [Dot])
  {
    if TrimDot(raw) != raw && raw != [Dot, Slash] {
      assert raw == [Dot, Slash] + raw[2..];
    }
  }

  /** What decodes is an encoding of what it decodes to, in some style, and was admitted. */
  lemma {:induction false} DecodedIsEncoded(c: Reader) returns (styles: seq<Style>, tail: Tail)
    requires Decode(c).Some? && c.pathBytes <= MaxPathBytes
    ensures AllEncodable(Decode(c).value, styles) && TailFits(tail) && c.rest == Encode(Decode(c).value, styles, tail)
    ensures Admits(c, Decode(c).value)
    decreases |c.rest|
  {
    hide ReadNext, SafeName, EncodeHead, HeadFits, Padding, Named, Encode, AllEncodable, Encodable, TailFits, Admits,
      Decode, AfterHead, AdmitsNext, KindOf;
    DecodeNext(c);
    var raw, mode, links, size, style, rest := HeadIsEncoded(c);
    if ReadNext(c).End? {
      tail, styles := Tail(mode, links, style, rest), [];
      EndIsTail(c, raw, mode, links, size, style, rest);
      NothingEncodes(tail);
      AdmitsNothing(c);
    } else {
      NextConsumes(c);
      var it, more := EntryParts(c, raw, mode, links, size, style, rest);
      DecodeBehind(c, it, more);
      AfterHeadIs(c, it, more);
      styles, tail := DecodedIsEncoded(AfterHead(c, it, more));
      var items := Decode(AfterHead(c, it, more)).value;
      AdmitsFirst(c, it, items, more);
      EncodesOneMore(it, items, style, styles, tail);
      styles := [style] + styles;
    }
  }

  lemma EntryParts(c: Reader, raw: Bytes, mode: nat, links: nat, size: nat, style: Style, rest: Bytes)
    returns (it: Item, more: Bytes)
    requires ReadNext(c) == Named(c, raw, mode, links, size, rest) && ReadNext(c).Entry?
    requires Continued(ReadNext(c).head, ReadNext(c).after).Some? && HeadFits(raw, mode, links, size, style)
    requires style.spelling == SpellingOf(raw)
    ensures it.mode == mode && it.links == links && |it.content| == size && rest == it.content + more
    ensures RawName(it.name, style) == raw && Encodable(it, style) && AdmitsNext(c, it)
    ensures ReadNext(c) == Entry(Head(it.name, it.mode, it.links, |it.content|, it.name in c.seen),
                                 AfterHead(c, it, it.content + more))
  {
    hide ReadNext, Named, SafeName, HeadFits, KindOf, Decode, Encodable, AdmitsNext;
    NamedEntry(c, raw, mode, links, size, rest);
    EntryIsSpelled(c, raw, mode, links, size, style, rest);
    it, more := Item(NameOf(raw), mode, links, rest[..size]), rest[size..];
    assert rest == it.content + more;
  }

  lemma NamedEntry(c: Reader, raw: Bytes, mode: nat, links: nat, size: nat, rest: Bytes)
    ensures var next := Named(c, raw, mode, links, size, rest);
            next.Entry? ==> next.head.size == size && next.after.rest == rest
  {
    hide SafeName, Padding, KindOf;
  }

  lemma EndIsTail(c: Reader, raw: Bytes, mode: nat, links: nat, size: nat, style: Style, rest: Bytes)
    requires Named(c, raw, mode, links, size, rest).End? && HeadFits(raw, mode, links, size, style)
    ensures raw == TrailerName && size == 0 && TailFits(Tail(mode, links, style, rest))
  {}

  lemma NothingEncodes(tail: Tail)
    ensures AllEncodable([], [])
    ensures Encode([], [], tail) == EncodeHead(TrailerName, tail.mode, tail.links, 0, tail.style) + tail.padding
  {}

  lemma AdmitsNothing(c: Reader)
    requires c.entries > 0 && c.pathBytes <= MaxPathBytes
    ensures Admits(c, [])
  {}

  lemma EntryIsSpelled(c: Reader, raw: Bytes, mode: nat, links: nat, size: nat, style: Style, rest: Bytes)
    requires Named(c, raw, mode, links, size, rest).Entry? && HeadFits(raw, mode, links, size, style)
    requires style.spelling == SpellingOf(raw)
    ensures forall content: Bytes :: |content| == size ==>
              var it := Item(NameOf(raw), mode, links, content);
              && Encodable(it, style) && AdmitsNext(c, it)
              && Named(c, raw, mode, links, size, rest) ==
                 Entry(Head(it.name, mode, links, size, it.name in c.seen), AfterHead(c, it, rest))
    ensures RawName(NameOf(raw), style) == raw
  {
    RawNameIsSpelled(raw, style);
    hide SafeName, KindOf, Padding;
  }

  lemma EncodesOneMore(it: Item, items: seq<Item>, style: Style, styles: seq<Style>, tail: Tail)
    requires AllEncodable(items, styles) && Encodable(it, style)
    ensures AllEncodable([it] + items, [style] + styles)
    ensures Encode([it] + items, [style] + styles, tail) ==
            EncodeHead(RawName(it.name, style), it.mode, it.links, |it.content|, style)
            + (it.content + Encode(items, styles, tail))
  {
    hide Encodable, EncodeHead;
    assert ([it] + items)[1..] == items && ([style] + styles)[1..] == styles;
  }

  /** A stream decodes to given entries exactly if it is an encoding of them, in any styles,
      that the reader admits. */
  lemma DecodesExactlyEncodings(c: Reader, items: seq<Item>)
    requires c.pathBytes <= MaxPathBytes
    ensures Decode(c) == Some(items) <==>
            && Admits(c, items)
            && exists styles, tail ::
                 AllEncodable(items, styles) && TailFits(tail) && c.rest == Encode(items, styles, tail)
  {
    hide Decode, Encode, Encodable, TailFits, Admits;
    if Decode(c) == Some(items) {
      var styles, tail := DecodedIsEncoded(c);
    }
    if exists styles, tail :: AllEncodable(items, styles) && TailFits(tail) && c.rest == Encode(items, styles, tail) {
      var styles, tail :| AllEncodable(items, styles) && TailFits(tail) && c.rest == Encode(items, styles, tail);
      DecodeInvertsEncode(c, items, styles, tail);
    }
  }

  // ----- Which names are safe -----

  /** A stretch between slashes. */
  predicate Segment(name: Bytes, i: nat, j: nat) {
    && i <= j <= |name| && (i == 0 || name[i - 1] == 47) && (j == |name| || name[j] == 47)
    && forall k :: i <= k < j ==> name[k] != 47
  }

  lemma FirstSegment(name: Bytes)
    requires Slash in name
    ensures Segment(name, 0, First(name)) && name[0..First(name)] == name[..First(name)]
    ensures forall i: nat, j: nat :: Segment(name, i, j) && i <= First(name) ==> i == 0 && j == First(name)
  {
    NoSlashBefore(name);
    hide First;
  }

  lemma NoSlashBefore(name: Bytes)
    requires Slash in name
    ensures name[First(name)] == 47 && forall k :: 0 <= k < First(name) ==> name[k] != 47
  {
    assert forall k :: 0 <= k < First(name) ==> name[..First(name)][k] == name[k];
  }

  lemma LaterSegment(name: Bytes, at: nat, i: nat, j: nat)
    requires at < |name| && name[at] == 47
    ensures Segment(name[at + 1..], i, j) <==> Segment(name, at + 1 + i, at + 1 + j)
    ensures i <= j <= |name| - at - 1 ==> name[at + 1..][i..j] == name[at + 1 + i..at + 1 + j]
  {
    var rest := name[at + 1..];
    assert forall k :: 0 <= k < |rest| ==> rest[k] == name[at + 1 + k];
    if Segment(rest, i, j) {
      forall k | at + 1 + i <= k < at + 1 + j ensures name[k] != 47 {
        assert rest[k - at - 1] != 47;
      }
    }
  }

  lemma ComponentsSplit(name: Bytes)
    ensures Slash !in name ==> Components(name) == [name] && Segment(name, 0, |name|)
    ensures Slash !in name ==> forall i: nat, j: nat :: Segment(name, i, j) ==> i == 0 && j == |name|
    ensures Slash in name ==> Components(name) == [name[..First(name)]] + Components(name[First(name) + 1..])
  {
    if Slash !in name {
      assert forall k :: 0 <= k < |name| ==> name[k] in name;
    }
  }

  lemma {:induction false} ComponentIsSegment(name: Bytes, x: Bytes) returns (i: nat, j: nat)
    requires x in Components(name)
    ensures Segment(name, i, j) && i <= j <= |name| && name[i..j] == x
    decreases |name|
  {
    hide Segment, First, Components;
    ComponentsSplit(name);
    if Slash !in name {
      i, j := 0, |name|;
    } else {
      var n := First(name);
      FirstSegment(name);
      if x == name[..n] {
        i, j := 0, n;
      } else {
        var k, m := ComponentIsSegment(name[n + 1..], x);
        LaterSegment(name, n, k, m);
        i, j := n + 1 + k, n + 1 + m;
      }
    }
  }

  lemma SegmentFits(name: Bytes, i: nat, j: nat)
    requires Segment(name, i, j)
    ensures i <= j <= |name|
  {}

  lemma {:induction false} SegmentIsComponent(name: Bytes, i: nat, j: nat)
    requires Segment(name, i, j)
    ensures i <= j <= |name| && name[i..j] in Components(name)
    decreases |name|
  {
    hide Segment, First, Components;
    ComponentsSplit(name);
    SegmentFits(name, i, j);
    if Slash !in name {
      assert name[i..j] == name;
    } else {
      var n := First(name);
      FirstSegment(name);
      if i > n {
        LaterSegment(name, n, i - n - 1, j - n - 1);
        SegmentIsComponent(name[n + 1..], i - n - 1, j - n - 1);
      }
    }
  }

  /** A name is accepted exactly if it holds neither a zero byte nor a backslash, and is the
      root's dot or has no empty, dot or dot-dot stretch between its slashes. */
  lemma SafeNamesAreClean(name: Bytes)
    ensures SafeName(name) <==>
            && (forall b <- name :: b != 0 && b != 92)
            && (name == [46] || forall i: nat, j: nat :: Segment(name, i, j) ==> Proper(name[i..j]))
  {
    var all := Components(name);
    assert SafeName(name) <==>
           (forall b <- name :: b != 0 && b != 92) && (name == [46] || forall x <- all :: Proper(x)) by {
      assert forall k :: 0 <= k < |all| ==> all[k] in all;
    }
    if forall x <- all :: Proper(x) {
      forall i: nat, j: nat | Segment(name, i, j) ensures i <= j <= |name| && Proper(name[i..j]) {
        SegmentIsComponent(name, i, j);
      }
    }
    if forall i: nat, j: nat :: Segment(name, i, j) ==> Proper(name[i..j]) {
      forall x | x in all ensures Proper(x) {
        var i, j := ComponentIsSegment(name, x);
      }
    }
  }

  predicate Proper(part: Bytes) {
    part != [] && part != [46] && part != [46, 46]
  }

  // ----- cpioReader -----

  class CpioReader {
    var rest: Bytes
    var entries: int
    var pathBytes: nat
    var seen: map<Bytes, Kind>

    constructor (c: Reader)
      ensures Now() == c
    {
      rest, entries, pathBytes, seen := c.rest, c.entries, c.pathBytes, c.seen;
    }

    function Now(): Reader
      reads this
    {
      Reader(rest, entries, pathBytes, seen)
    }

    /** The following header; the stream is left at its content. */
    method Advance() returns (r: Next)
      modifies this
      ensures r.Bad? <==> ReadNext(old(Now())).Bad?
      ensures !r.Bad? ==> r == ReadNext(old(Now()))
      ensures r.Entry? ==> Now() == r.after && Decode(old(Now())) == Continued(r.head, r.after)
      ensures r.End? ==> Decode(old(Now())) == Some([]) && seen == old(seen)
      ensures r.Bad? ==> Decode(old(Now())) == None
    {
      hide SafeName, KindOf, Padding, ParseFields;
      ghost var before := Now();
      if entries <= 0 {
        return Bad;
      }
      entries := entries - 1;
      if |rest| < 76 || rest[..6] != Magic {
        return Bad;
      }
      TotalIs70();
      var fields := ReadFields(rest[6..76]);
      if fields.None? {
        return Bad;
      }
      var nameSize, size := fields.value[8], fields.value[9];
      if nameSize < 2 || nameSize > 4096 || size > MaxEntrySize || 76 + nameSize > |rest| || rest[75 + nameSize] != 0 {
        return Bad;
      }
      var raw := rest[76..75 + nameSize];
      rest := rest[76 + nameSize..];
      hide Named, Decode;
      assert ReadNext(before) == Named(before, raw, fields.value[2], fields.value[5], size, rest);
      DecodeNext(before);
      r := Admit(before, raw, fields.value[2], fields.value[5], size);
    }

    /** The checks of a header's name and kind. */
    method Admit(ghost before: Reader, raw: Bytes, mode: nat, links: nat, size: nat) returns (r: Next)
      requires Now() == before.(rest := rest, entries := before.entries - 1)
      modifies this
      ensures r == Named(before, raw, mode, links, size, old(rest))
      ensures r.Entry? ==> Now() == r.after
      ensures r.End? ==> seen == old(seen)
    {
      hide SafeName, KindOf, Padding;
      if raw == TrailerName {
        return if size == 0 && Padding(rest) then End else Bad;
      }
      var name, kind := NameOf(raw), KindOf(mode);
      if !SafeName(name) || (name in seen && seen[name] != kind) || (name == [Dot] && kind != Directory) {
        return Bad;
      }
      var duplicate := name in seen;
      pathBytes := pathBytes + |name|;
      if pathBytes > MaxPathBytes {
        return Bad;
      }
      seen := seen[name := kind];
      return Entry(Head(name, mode, links, size, duplicate), Now());
    }

    method Take(n: nat) returns (content: Bytes)
      requires n <= |rest|
      modifies this`rest
      ensures content == old(rest)[..n] && rest == old(rest)[n..]
    {
      content, rest := rest[..n], rest[n..];
    }
  }

  lemma DecodeNext(c: Reader)
    ensures ReadNext(c).Bad? ==> Decode(c) == None
    ensures ReadNext(c).End? ==> Decode(c) == Some([])
    ensures ReadNext(c).Entry? ==> Decode(c) == Continued(ReadNext(c).head, ReadNext(c).after)
  {
    hide ReadNext;
  }

  function Continued(head: Head, after: Reader): Option<seq<Item>> {
    if head.size > |after.rest| then None
    else match Decode(after.(rest := after.rest[head.size..]))
      case None => None
      case Some(items) => Some([Item(head.name, head.mode, head.links, after.rest[..head.size])] + items)
  }

  function Prepend(fields: seq<nat>, rest: Option<seq<nat>>): Option<seq<nat>> {
    match rest
    case None => None
    case Some(more) => Some(fields + more)
  }

  lemma FieldsStep(b: Bytes, widths: seq<nat>)
    requires widths != [] && |b| == Total(widths)
    ensures widths[0] <= |b| && |b[widths[0]..]| == Total(widths[1..])
    ensures ParseFields(b, widths)
         == match ParseOctal(b[..widths[0]])
            case None => None
            case Some(value) => Prepend([value], ParseFields(b[widths[0]..], widths[1..]))
  {}

  lemma PrependTwice(x: seq<nat>, y: seq<nat>, rest: Option<seq<nat>>)
    ensures Prepend(x, Prepend(y, rest)) == Prepend(x + y, rest) && Prepend([], rest) == rest
  {
    if rest.Some? {
      assert x + (y + rest.value) == (x + y) + rest.value;
      assert [] + rest.value == rest.value;
    }
  }

  /** The ten fields, one after another. */
  method ReadFields(b: Bytes) returns (r: Option<seq<nat>>)
    requires |b| == Total(Widths)
    ensures r == ParseFields(b, Widths) && (r.Some? ==> |r.value| == 10)
  {
    hide ParseOctal, ParseFields, Total;
    var fields: seq<nat>, offset := [], 0;
    assert b[0..] == b && Widths[0..] == Widths;
    PrependTwice([], [], ParseFields(b, Widths));
    for i := 0 to |Widths|
      invariant |fields| == i && offset <= |b| && |b[offset..]| == Total(Widths[i..])
      invariant ParseFields(b, Widths) == Prepend(fields, ParseFields(b[offset..], Widths[i..]))
    {
      var width := Widths[i];
      FieldsStep(b[offset..], Widths[i..]);
      assert Widths[i..][1..] == Widths[i + 1..] && Widths[i..][0] == width;
      assert b[offset..][..width] == b[offset..offset + width] && b[offset..][width..] == b[offset + width..];
      var value := ParseOctal(b[offset..offset + width]);
      if value.None? {
        return None;
      }
      PrependTwice(fields, [value.value], ParseFields(b[offset + width..], Widths[i + 1..]));
      fields, offset := fields + [value.value], offset + width;
    }
    assert Widths[10..] == [];
    NoFields(b[offset..]);
    assert fields + [] == fields;
    return Some(fields);
  }

  lemma NoFields(b: Bytes)
    requires |b| == Total([])
    ensures ParseFields(b, []) == Some([])
  {}
}
