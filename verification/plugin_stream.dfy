/**
 The plugin's side of the framing (plugin/protocol.go, responseStream), and both sides
 together. An encoder may rewrite what it is given, as JSON does: it compacts a raw log
 record and replaces invalid text. What arrives is the canonical form.
 */
module PluginStream {
  import opened Wrappers
  import opened PluginProtocol

  type Encoder = Message -> Option<Bytes>

  /** Both sides' JSON: `canon` is what a message is after a round trip. */
  datatype Wire = Wire(decoder: Decoder, encode: Encoder, canon: Message -> Message)

  function Record(log: Bytes): Message {
    Message(log, NoResponse)
  }

  function Answer(response: Response): Message {
    Message([], response)
  }

  /** Decoding gives the canonical message; encodings have no newline; nothing short of a
      whole encoding decodes. */
  ghost predicate Decodes(w: Wire) {
    forall m :: w.encode(m).Some? ==>
      && w.decoder.decode(w.encode(m).value) == Some(w.canon(m))
      && w.encode(m).value != [] && Newline !in w.encode(m).value
      && forall n :: 0 <= n < |w.encode(m).value| ==> w.decoder.decode(w.encode(m).value[..n]) == None
  }

  /** The canonical form of a log record is a log record, with time and text if and only if
      the original has them; that of an answer is an answer. */
  ghost predicate KeepsKinds(w: Wire) {
    && (forall log :: log != [] && w.encode(Record(log)).Some? ==>
          && w.canon(Record(log)).log != [] && w.canon(Record(log)).response == NoResponse
          && (w.decoder.loggable(w.canon(Record(log)).log) <==> w.decoder.loggable(log)))
    && (forall response :: w.encode(Answer(response)).Some? ==> w.canon(Answer(response)).log == [])
  }

  predicate Sendable(encode: Encoder, m: Message) {
    encode(m).Some? && |encode(m).value| <= Limit
  }

  datatype Stream = Stream(out: Bytes, broken: bool)

  /** One send. A failing write leaves a proper prefix of the line, and the stream broken;
      a rejected message leaves no trace. */
  function Send(encode: Encoder, s: Stream, m: Message, fault: Option<nat>): Stream {
    if s.broken || !Sendable(encode, m) then s
    else
      var line := encode(m).value + [Newline];
      if fault.Some? && fault.value < |line| then Stream(s.out + line[..fault.value], true)
      else Stream(s.out + line, false)
  }

  class ResponseStream {
    const encode: Encoder
    var out: Bytes
    var broken: bool

    constructor (encode: Encoder)
      ensures this.encode == encode && out == [] && !broken
    {
      this.encode := encode;
      out, broken := [], false;
    }

    method SendMessage(m: Message, fault: Option<nat>) returns (ok: bool)
      modifies this
      ensures Stream(out, broken) == Send(encode, Stream(old(out), old(broken)), m, fault)
      ensures ok <==> !broken && Sendable(encode, m)
    {
      if broken {
        return false;
      }
      var data := encode(m);
      if data.None? || |data.value| > Limit {
        return false;
      }
      var line := data.value + [Newline];
      if fault.Some? && fault.value < |line| {
        out, broken := out + line[..fault.value], true;
        return false;
      }
      out := out + line;
      return true;
    }
  }

  function SendAll(encode: Encoder, messages: seq<Message>): Bytes {
    if messages == [] then []
    else
      var last := messages[|messages| - 1];
      Send(encode, Stream(SendAll(encode, messages[..|messages| - 1]), false), last, None).out
  }

  /** What the host hears of the messages sent: rejected ones are skipped. */
  function Heard(w: Wire, messages: seq<Message>): State {
    if messages == [] then Start
    else
      var s, last := Heard(w, messages[..|messages| - 1]), messages[|messages| - 1];
      if s.err.Some? || !Sendable(w.encode, last) then s
      else if s.finished then s.(err := Some(AfterResponse))
      else TakeMessage(w.decoder, s, w.canon(last))
  }

  lemma FeedSent(w: Wire, s: State, m: Message)
    requires Decodes(w) && Sendable(w.encode, m) && s.pending == [] && s.err.None?
    ensures Feed(w.decoder, s, w.encode(m).value + [Newline])
         == if s.finished then s.(err := Some(AfterResponse)) else TakeMessage(w.decoder, s, w.canon(m))
  {
    var line := w.encode(m).value;
    FeedAppend(w.decoder, s, line, [Newline]);
    FeedWithinLine(w.decoder, s, line);
    assert [] + line == line;
    var full := s.(pending := line);
    assert Feed(w.decoder, full, [Newline]) == Step(w.decoder, full, Newline);
  }

  /** Whatever is sent, the host reads exactly that, in canonical form. */
  lemma {:induction false} SentIsHeard(w: Wire, messages: seq<Message>)
    requires Decodes(w)
    ensures Feed(w.decoder, Start, SendAll(w.encode, messages)) == Heard(w, messages)
    ensures Heard(w, messages).pending == []
  {
    hide Feed, Decodes, Step;
    if messages == [] {
      FeedNothing(w.decoder, Start);
    } else {
      var before, last := messages[..|messages| - 1], messages[|messages| - 1];
      SentIsHeard(w, before);
      if Sendable(w.encode, last) {
        var line := w.encode(last).value + [Newline];
        FeedAppend(w.decoder, Start, SendAll(w.encode, before), line);
        if Heard(w, before).err.Some? {
          FeedAfterError(w.decoder, Heard(w, before), line);
        } else {
          FeedSent(w, Heard(w, before), last);
        }
      }
    }
  }

  lemma FeedNothing(d: Decoder, s: State)
    ensures Feed(d, s, []) == s
  {}

  /** The logs that were written, in order: rejected ones are skipped. */
  function Passed(encode: Encoder, logs: seq<Bytes>): seq<Bytes> {
    if logs == [] then []
    else
      var last := logs[|logs| - 1];
      Passed(encode, logs[..|logs| - 1]) + if Sendable(encode, Record(last)) then [last] else []
  }

  function Canonical(w: Wire, logs: seq<Bytes>): (r: seq<Bytes>)
    ensures |r| == |logs|
  {
    seq(|logs|, i requires 0 <= i < |logs| => w.canon(Record(logs[i])).log)
  }

  function Records(logs: seq<Bytes>): seq<Message> {
    seq(|logs|, i requires 0 <= i < |logs| => Record(logs[i]))
  }

  predicate AllLoggable(d: Decoder, logs: seq<Bytes>) {
    forall i :: 0 <= i < |logs| ==> d.loggable(logs[i])
  }

  lemma {:induction false} LogsAreHeard(w: Wire, logs: seq<Bytes>)
    requires KeepsKinds(w) && [] !in logs
    ensures AllLoggable(w.decoder, Passed(w.encode, logs)) ==>
              Heard(w, Records(logs)) == Start.(logs := Canonical(w, Passed(w.encode, logs)))
    ensures !AllLoggable(w.decoder, Passed(w.encode, logs)) ==>
              Heard(w, Records(logs)).err == Some(BadRecord) && !Heard(w, Records(logs)).finished
  {
    if logs != [] {
      var before, last := logs[..|logs| - 1], logs[|logs| - 1];
      LogsAreHeard(w, before);
      assert Records(logs)[..|logs| - 1] == Records(before);
      assert last != [];
      var passed := Passed(w.encode, before);
      if Sendable(w.encode, Record(last)) {
        assert (passed + [last])[|passed|] == last;
        assert forall i :: 0 <= i < |passed| ==> (passed + [last])[i] == passed[i];
        assert Canonical(w, passed + [last]) == Canonical(w, passed) + [w.canon(Record(last)).log];
      } else {
        assert passed + [] == passed;
      }
    }
  }

  /** A plugin that logs and then answers is heard however its output is chunked: the host
      gets the answer, and the logs in order, exactly when every log that was written has
      the time and text the host asks for and the answer fits. */
  lemma AnswerIsHeard(w: Wire, logs: seq<Bytes>, answer: Response, chunks: seq<Bytes>)
    requires Decodes(w) && KeepsKinds(w) && [] !in logs
    requires Concat(chunks) == SendAll(w.encode, Records(logs) + [Answer(answer)])
    ensures var heard := OutcomeOf(Finish(w.decoder, WriteAll(w.decoder, Start, chunks)));
            var good := AllLoggable(w.decoder, Passed(w.encode, logs)) && Sendable(w.encode, Answer(answer));
            && (heard.finished && heard.err.None? <==> good)
            && (good ==>
                  heard == Outcome(w.canon(Answer(answer)).response, true, None, Canonical(w, Passed(w.encode, logs))))
            && (!heard.finished ==> heard.response == NoResponse)
  {
    hide Feed, Decodes, WriteAll, SendAll;
    var sent := Records(logs) + [Answer(answer)];
    assert sent[..|sent| - 1] == Records(logs);
    SentIsHeard(w, sent);
    LogsAreHeard(w, logs);
    WritesAreFeed(w.decoder, Start, chunks);
    HeardKeepsResponse(w, Records(logs));
  }

  lemma {:induction false} HeardKeepsResponse(w: Wire, messages: seq<Message>)
    ensures !Heard(w, messages).finished ==> Heard(w, messages).response == NoResponse
  {
    if messages != [] {
      HeardKeepsResponse(w, messages[..|messages| - 1]);
    }
  }

  /** A write cut short adds nothing the plugin did not send: the message counts if only its
      newline is missing, and otherwise any part of it is an error. */
  lemma CutShort(w: Wire, messages: seq<Message>, m: Message, fault: nat)
    requires Decodes(w) && Sendable(w.encode, m) && fault <= |w.encode(m).value|
    ensures var out := Send(w.encode, Stream(SendAll(w.encode, messages), false), m, Some(fault)).out;
            var heard, before := Finish(w.decoder, Feed(w.decoder, Start, out)), Heard(w, messages);
            && (fault == 0 ==> OutcomeOf(heard) == OutcomeOf(before))
            && (fault == |w.encode(m).value| ==> OutcomeOf(heard) == OutcomeOf(Heard(w, messages + [m])))
            && (0 < fault < |w.encode(m).value| ==>
                  heard.err.Some? && heard.response == before.response && heard.finished == before.finished
                    && heard.logs == before.logs)
  {
    hide Feed, Step, Decodes, Take, TakeMessage;
    var d, line := w.decoder, w.encode(m).value;
    var part := (line + [Newline])[..fault];
    assert part == line[..fault];
    assert (messages + [m])[..|messages|] == messages;
    SentIsHeard(w, messages);
    FeedAppend(d, Start, SendAll(w.encode, messages), part);
    var before := Heard(w, messages);
    if before.err.Some? {
      FeedAfterError(d, before, part);
    } else {
      DecodesAt(w, m);
      FeedWithinLine(d, before, part);
      assert [] + part == part;
      FinishPart(d, before, line, w.canon(m), fault);
    }
  }

  lemma DecodesAt(w: Wire, m: Message)
    requires Decodes(w) && w.encode(m).Some?
    ensures var line := w.encode(m).value;
            && w.decoder.decode(line) == Some(w.canon(m)) && line != [] && Newline !in line
            && forall n :: 0 <= n < |line| ==> w.decoder.decode(line[..n]) == None
  {}

  lemma FinishPart(d: Decoder, before: State, line: Bytes, m: Message, fault: nat)
    requires before.err.None? && before.pending == [] && line != [] && fault <= |line|
    requires d.decode(line) == Some(m) && (fault < |line| ==> d.decode(line[..fault]) == None)
    ensures var heard := Finish(d, before.(pending := line[..fault]));
            && (fault == 0 ==> heard == before)
            && (fault == |line| ==>
                  OutcomeOf(heard)
                    == OutcomeOf(if before.finished then before.(err := Some(AfterResponse))
                      else TakeMessage(d, before, m)))
            && (0 < fault < |line| ==> heard.err.Some? && OutcomeOf(heard) == OutcomeOf(before.(err := heard.err)))
  {
    assert line[..|line|] == line;
  }
}
