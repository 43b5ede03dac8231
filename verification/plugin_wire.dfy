/**
 A wire that meets what PluginStream asks of one, with the trait of JSON that matters
 there: a record that ends in a newline, as a JSON log handler writes it, arrives
 without it.
 */
module PluginWire {
  import opened Wrappers
  import opened PluginProtocol
  import opened PluginStream

  const Separator: byte := 44
  const End: byte := 125

  /** Two letters for each byte. */
  function Letters(b: Bytes): Bytes {
    if b == [] then [] else [97 + b[0] / 16, 97 + b[0] % 16] + Letters(b[1..])
  }

  /** A field up to its stop byte, and what follows. */
  function ReadField(text: Bytes, stop: byte): Option<(Bytes, Bytes)>
    decreases |text|
  {
    if text == [] then None
    else if text[0] == stop then Some(([], text[1..]))
    else if |text| < 2 || !(97 <= text[0] < 113) || !(97 <= text[1] < 113) then None
    else match ReadField(text[2..], stop)
      case None => None
      case Some((value, rest)) => Some(([(text[0] - 97) * 16 + (text[1] - 97)] + value, rest))
  }

  function Compact(log: Bytes): Bytes {
    if |log| > 1 && log[|log| - 1] == Newline then log[..|log| - 1] else log
  }

  function Canon(m: Message): Message {
    m.(log := Compact(m.log))
  }

  function Encode(m: Message): Bytes {
    Letters(Compact(m.log))
      + ([Separator] + (Letters(m.response.output) + ([Separator] + (Letters(m.response.error) + [End]))))
  }

  function Decode(line: Bytes): Option<Message> {
    match ReadField(line, Separator)
    case None => None
    case Some((log, afterLog)) =>
      match ReadField(afterLog, Separator)
      case None => None
      case Some((output, afterOutput)) =>
        match ReadField(afterOutput, End)
        case None => None
        case Some((error, rest)) => if rest == [] then Some(Message(log, Response(output, error))) else None
  }

  function OpensObject(log: Bytes): bool {
    log != [] && log[0] == 123
  }

  const Example := Wire(Decoder(line => Decode(line), log => OpensObject(log)), m => Some(Encode(m)), m => Canon(m))

  lemma {:induction false} LettersAreRead(b: Bytes, stop: byte, rest: Bytes)
    requires stop < 97 || stop >= 113
    ensures ReadField(Letters(b) + ([stop] + rest), stop) == Some((b, rest))
  {
    var text := Letters(b) + ([stop] + rest);
    if b == [] {
      assert text == [stop] + rest;
    } else {
      LettersAreRead(b[1..], stop, rest);
      assert text[2..] == Letters(b[1..]) + ([stop] + rest);
      assert [b[0]] + b[1..] == b;
    }
  }

  lemma {:induction false} LettersAreLetters(b: Bytes)
    ensures forall i :: 0 <= i < |Letters(b)| ==> 97 <= Letters(b)[i] < 113
  {
    if b != [] {
      LettersAreLetters(b[1..]);
    }
  }

  lemma {:induction false} FieldNeedsItsStop(text: Bytes, stop: byte)
    requires stop !in text
    ensures ReadField(text, stop).None?
    decreases |text|
  {
    if |text| >= 2 {
      FieldNeedsItsStop(text[2..], stop);
    }
  }

  lemma {:induction false} FieldLeavesASuffix(text: Bytes, stop: byte)
    ensures ReadField(text, stop).Some? ==> forall b :: b in ReadField(text, stop).value.1 ==> b in text
    decreases |text|
  {
    if |text| >= 2 {
      FieldLeavesASuffix(text[2..], stop);
    }
  }

  lemma DecodeNeedsItsEnd(line: Bytes)
    requires End !in line
    ensures Decode(line).None?
  {
    FieldLeavesASuffix(line, Separator);
    if ReadField(line, Separator).Some? {
      var afterLog := ReadField(line, Separator).value.1;
      FieldLeavesASuffix(afterLog, Separator);
      if ReadField(afterLog, Separator).Some? {
        FieldNeedsItsStop(ReadField(afterLog, Separator).value.1, End);
      }
    }
  }

  lemma DecodeInvertsEncode(m: Message)
    ensures Decode(Encode(m)) == Some(Canon(m))
  {
    hide Letters, ReadField;
    var error := Letters(m.response.error) + [End];
    assert error == Letters(m.response.error) + ([End] + []);
    LettersAreRead(m.response.error, End, []);
    var output := Letters(m.response.output) + ([Separator] + error);
    LettersAreRead(m.response.output, Separator, error);
    LettersAreRead(Compact(m.log), Separator, output);
  }

  lemma EncodingEndsOnce(m: Message, n: nat)
    ensures Newline !in Encode(m)
    ensures n < |Encode(m)| ==> End !in Encode(m)[..n]
  {
    hide Letters;
    LettersAreLetters(Compact(m.log));
    LettersAreLetters(m.response.output);
    LettersAreLetters(m.response.error);
    var line := Encode(m);
    forall i | 0 <= i < |line| ensures line[i] != Newline && (i < |line| - 1 ==> line[i] != End) {
      var a, b := |Letters(Compact(m.log))|, |Letters(m.response.output)|;
      assert i < a || i == a || a < i <= a + b || i == a + b + 1 || i > a + b + 1;
    }
  }

  /** The hypotheses of the stream theorems can be met, by a wire that does rewrite logs. */
  lemma ExampleIsAWire(record: Bytes)
    ensures Decodes(Example) && KeepsKinds(Example)
    ensures record != [] ==> Example.canon(Record(record + [Newline])) == Record(record)
  {
    hide Encode, Decode;
    forall m
      ensures Decode(Encode(m)) == Some(Canon(m))
      ensures Encode(m) != [] && Newline !in Encode(m)
      ensures forall n :: 0 <= n < |Encode(m)| ==> Decode(Encode(m)[..n]) == None
    {
      DecodeInvertsEncode(m);
      EncodingIsNotEmpty(m);
      forall n | 0 <= n < |Encode(m)| ensures Decode(Encode(m)[..n]) == None {
        EncodingEndsOnce(m, n);
        DecodeNeedsItsEnd(Encode(m)[..n]);
      }
      EncodingEndsOnce(m, 0);
    }
    assert (record + [Newline])[..|record|] == record;
  }

  lemma EncodingIsNotEmpty(m: Message)
    ensures Encode(m) != []
  {}
}
