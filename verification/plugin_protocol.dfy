/**
 Plugin response framing (plugin/protocol.go): the host's responseReader, which receives a
 plugin's standard output in arbitrary chunks. JSON is a parameter: any decoder.
 */
module PluginProtocol {
  import opened Wrappers

  const Limit: nat := 4 * 0x10_0000
  const Newline: byte := 10

  datatype Response = Response(output: Bytes, error: Bytes)

  const NoResponse := Response([], [])

  /** A wire message: a log record, or without one a response. */
  datatype Message = Message(log: Bytes, response: Response)

  datatype Error = TooLong | AfterResponse | Malformed | LogWithResult | BadRecord

  /** decodeMessage, and the check of a log record's time and text. */
  datatype Decoder = Decoder(decode: Bytes -> Option<Message>, loggable: Bytes -> bool)

  datatype State = State(pending: Bytes, response: Response, finished: bool, err: Option<Error>, logs: seq<Bytes>)

  const Start := State([], NoResponse, false, None, [])

  predicate Valid(s: State) {
    |s.pending| <= Limit
  }

  // ----- One message -----

  /** accept on a decoded message. */
  function TakeMessage(d: Decoder, s: State, message: Message): State {
    if message.log == [] then s.(response := message.response, finished := true)
    else if message.response != NoResponse then s.(err := Some(LogWithResult))
    else if !d.loggable(message.log) then s.(err := Some(BadRecord))
    else s.(logs := s.logs + [message.log])
  }

  function Take(d: Decoder, s: State, line: Bytes): State {
    if s.finished then s.(err := Some(AfterResponse))
    else match d.decode(line)
      case None => s.(err := Some(Malformed))
      case Some(message) => TakeMessage(d, s, message)
  }

  // ----- The stream, byte by byte and line by line -----

  function Step(d: Decoder, s: State, b: byte): State {
    if s.err.Some? then s
    else if b == Newline then Take(d, s, s.pending).(pending := [])
    else if |s.pending| + 1 > Limit then s.(err := Some(TooLong))
    else s.(pending := s.pending + [b])
  }

  function Feed(d: Decoder, s: State, data: Bytes): State
    decreases |data|
  {
    if data == [] then s else Feed(d, Step(d, s, data[0]), data[1..])
  }

  function LineEnd(data: Bytes): (n: nat)
    ensures n <= |data| && Newline !in data[..n] && (n < |data| ==> data[n] == Newline)
  {
    if data == [] || data[0] == Newline then 0
    else
      assert data[..1 + LineEnd(data[1..])] == [data[0]] + data[1..][..LineEnd(data[1..])];
      1 + LineEnd(data[1..])
  }

  /** The newline-terminated lines of a stream, and what follows the last of them. */
  function Lines(stream: Bytes): seq<Bytes> {
    var n := LineEnd(stream);
    if n == |stream| then [] else [stream[..n]] + Lines(stream[n + 1..])
  }

  function Rest(stream: Bytes): Bytes {
    var n := LineEnd(stream);
    if n == |stream| then stream else Rest(stream[n + 1..])
  }

  /** accept folded over whole messages, each within the size limit. */
  function Fold(d: Decoder, s: State, lines: seq<Bytes>): State
    decreases |lines|
  {
    if lines == [] || s.err.Some? then s
    else if |lines[0]| > Limit then s.(err := Some(TooLong))
    else Fold(d, Take(d, s, lines[0]), lines[1..])
  }

  /** What reading a stream means, with no chunks: fold its lines and keep the rest. */
  function Read(d: Decoder, stream: Bytes): State {
    var s := Fold(d, Start, Lines(stream));
    if s.err.Some? then s
    else if |Rest(stream)| > Limit then s.(err := Some(TooLong))
    else s.(pending := Rest(stream))
  }

  /** Run's step at the end of the stream: an unterminated message counts. */
  function Finish(d: Decoder, s: State): State {
    if s.pending != [] && s.err.None? then Take(d, s, s.pending) else s
  }

  /** Everything Run reports of a reader. */
  datatype Outcome = Outcome(response: Response, finished: bool, err: Option<Error>, logs: seq<Bytes>)

  function OutcomeOf(s: State): Outcome {
    Outcome(s.response, s.finished, s.err, s.logs)
  }

  /** Equal, but for bytes left pending by an oversized message. */
  predicate Alike(a: State, b: State) {
    OutcomeOf(a) == OutcomeOf(b) && (a.err != Some(TooLong) ==> a.pending == b.pending)
  }

  // ----- responseReader.Write -----

  /** One chunk, line by line as Write takes it. */
  function Chunk(d: Decoder, s: State, data: Bytes): State
    decreases |data|
  {
    if data == [] || s.err.Some? then s
    else
      var n := LineEnd(data);
      if |s.pending| + n > Limit then s.(err := Some(TooLong))
      else if n == |data| then s.(pending := s.pending + data)
      else Chunk(d, Take(d, s, s.pending + data[..n]).(pending := []), data[n + 1..])
  }

  lemma ChunkSteps(d: Decoder, s: State, data: Bytes)
    ensures data == [] || s.err.Some? ==> Chunk(d, s, data) == s
    ensures data != [] && s.err.None? ==>
              var n := LineEnd(data);
              Chunk(d, s, data) == if |s.pending| + n > Limit then s.(err := Some(TooLong))
                                   else if n == |data| then s.(pending := s.pending + data)
                                   else Chunk(d, Take(d, s, s.pending + data[..n]).(pending := []), data[n + 1..])
  {
    hide Take;
  }

  lemma TakeIgnoresPending(d: Decoder, s: State, p: Bytes, line: Bytes)
    ensures Take(d, s.(pending := p), line).(pending := []) == Take(d, s, line).(pending := [])
  {}

  class ResponseReader {
    const decoder: Decoder
    var pending: Bytes
    var response: Response
    var finished: bool
    var err: Option<Error>
    ghost var logs: seq<Bytes>

    constructor (decoder: Decoder)
      ensures this.decoder == decoder && Now() == Start
    {
      this.decoder := decoder;
      pending, response, finished, err, logs := [], NoResponse, false, None, [];
    }

    ghost function Now(): State
      reads this
    {
      State(pending, response, finished, err, logs)
    }

    /** Takes one chunk; an error consumes nothing, then or ever after. */
    method Write(data: Bytes) returns (n: nat)
      requires Valid(Now())
      modifies this
      ensures Now() == Chunk(decoder, old(Now()), data)
      ensures Valid(Now()) && Alike(Now(), Feed(decoder, old(Now()), data))
      ensures n == if err.None? then |data| else 0
      ensures old(err.Some?) ==> Now() == old(Now())
    {
      hide Feed, Chunk, Take, Alike;
      ghost var before := Now();
      ChunkIsFeed(decoder, before, data);
      ChunkSteps(decoder, before, data);
      var rest := data;
      while |rest| > 0 && err.None?
        invariant Valid(Now())
        invariant Chunk(decoder, Now(), rest) == Chunk(decoder, before, data)
        decreases |rest|, err.None?
      {
        var end := LineEnd(rest);
        ChunkSteps(decoder, Now(), rest);
        if |pending| + end > Limit {
          err := Some(TooLong);
          break;
        }
        pending := pending + rest[..end];
        assert end == |rest| ==> rest[..end] == rest;
        if end < |rest| {
          TakeIgnoresPending(decoder, State(pending[..|pending| - end], response, finished, err, logs), pending,
            pending);
          assert pending[..|pending| - end] + rest[..end] == pending;
          Accept(pending);
          pending := [];
          rest := rest[end + 1..];
        } else {
          rest := [];
          ChunkSteps(decoder, Now(), rest);
        }
      }
      ChunkSteps(decoder, Now(), rest);
      n := if err.None? then |data| else 0;
    }

    method Accept(line: Bytes)
      requires err.None?
      modifies this
      ensures Now() == Take(decoder, old(Now()), line)
    {
      if finished {
        err := Some(AfterResponse);
        return;
      }
      var message := decoder.decode(line);
      if message.None? {
        err := Some(Malformed);
      } else if message.value.log == [] {
        response, finished := message.value.response, true;
      } else if message.value.response != NoResponse {
        err := Some(LogWithResult);
      } else if !decoder.loggable(message.value.log) {
        err := Some(BadRecord);
      } else {
        logs := logs + [message.value.log];
      }
    }

    /** Run, once the process has closed its output. */
    method End()
      modifies this
      ensures Now() == Finish(decoder, old(Now()))
    {
      if |pending| > 0 && err.None? {
        Accept(pending);
      }
    }
  }

  // ----- Chunking independence -----

  lemma {:induction false} FeedAppend(d: Decoder, s: State, a: Bytes, b: Bytes)
    ensures Feed(d, s, a + b) == Feed(d, Feed(d, s, a), b)
    decreases |a|
  {
    if a == [] {
      assert a + b == b;
    } else {
      assert (a + b)[1..] == a[1..] + b;
      FeedAppend(d, Step(d, s, a[0]), a[1..], b);
    }
  }

  /** Errors are absorbing. */
  lemma {:induction false} FeedAfterError(d: Decoder, s: State, data: Bytes)
    requires s.err.Some?
    ensures Feed(d, s, data) == s && Chunk(d, s, data) == s
    decreases |data|
  {
    if data != [] {
      FeedAfterError(d, s, data[1..]);
    }
  }

  lemma {:induction false} FeedWithinLine(d: Decoder, s: State, data: Bytes)
    requires Valid(s) && s.err.None? && Newline !in data
    ensures |s.pending| + |data| <= Limit ==> Feed(d, s, data) == s.(pending := s.pending + data)
    ensures |s.pending| + |data| > Limit ==>
              Feed(d, s, data).err == Some(TooLong) && Alike(Feed(d, s, data), s.(err := Some(TooLong)))
    decreases |data|
  {
    if data != [] {
      var next := Step(d, s, data[0]);
      if next.err.Some? {
        FeedAfterError(d, next, data[1..]);
      } else {
        FeedWithinLine(d, next, data[1..]);
        assert (s.pending + [data[0]]) + data[1..] == s.pending + data;
      }
    }
  }

  lemma FeedLine(d: Decoder, s: State, data: Bytes)
    requires Valid(s) && s.err.None? && LineEnd(data) < |data| && |s.pending| + LineEnd(data) <= Limit
    ensures var n := LineEnd(data);
            Feed(d, s, data) == Feed(d, Take(d, s, s.pending + data[..n]).(pending := []), data[n + 1..])
  {
    var n := LineEnd(data);
    assert data == data[..n] + data[n..];
    FeedAppend(d, s, data[..n], data[n..]);
    FeedWithinLine(d, s, data[..n]);
    assert data[n..][1..] == data[n + 1..];
  }

  lemma FeedLongLine(d: Decoder, s: State, data: Bytes)
    requires Valid(s) && s.err.None? && |s.pending| + LineEnd(data) > Limit
    ensures Alike(Feed(d, s, data), s.(err := Some(TooLong)))
  {
    var n := LineEnd(data);
    assert data == data[..n] + data[n..];
    FeedAppend(d, s, data[..n], data[n..]);
    FeedWithinLine(d, s, data[..n]);
    FeedAfterError(d, Feed(d, s, data[..n]), data[n..]);
  }

  lemma {:induction false} ChunkIsFeed(d: Decoder, s: State, data: Bytes)
    requires Valid(s)
    ensures Alike(Chunk(d, s, data), Feed(d, s, data)) && Valid(Chunk(d, s, data))
    decreases |data|
  {
    hide Feed, Take;
    if s.err.Some? {
      FeedAfterError(d, s, data);
    } else {
      var n := LineEnd(data);
      if |s.pending| + n > Limit {
        FeedLongLine(d, s, data);
      } else if n == |data| {
        assert data[..n] == data;
        FeedWithinLine(d, s, data);
      } else {
        FeedLine(d, s, data);
        ChunkIsFeed(d, Take(d, s, s.pending + data[..n]).(pending := []), data[n + 1..]);
      }
    }
  }

  function WriteAll(d: Decoder, s: State, chunks: seq<Bytes>): State
    decreases |chunks|
  {
    if chunks == [] then s else WriteAll(d, Chunk(d, s, chunks[0]), chunks[1..])
  }

  function Concat(chunks: seq<Bytes>): Bytes {
    if chunks == [] then [] else chunks[0] + Concat(chunks[1..])
  }

  lemma {:induction false} WritesAreFeed(d: Decoder, s: State, chunks: seq<Bytes>)
    requires Valid(s)
    ensures Alike(WriteAll(d, s, chunks), Feed(d, s, Concat(chunks)))
    decreases |chunks|
  {
    hide Chunk, Step;
    if chunks != [] {
      var next := Chunk(d, s, chunks[0]);
      ChunkIsFeed(d, s, chunks[0]);
      WritesAreFeed(d, next, chunks[1..]);
      FeedAppend(d, s, chunks[0], Concat(chunks[1..]));
      if next.err.Some? {
        FeedAfterError(d, next, Concat(chunks[1..]));
        FeedAfterError(d, Feed(d, s, chunks[0]), Concat(chunks[1..]));
      }
    }
  }

  lemma {:induction false} FeedIsRead(d: Decoder, s: State, stream: Bytes)
    requires s.pending == []
    ensures var read := Fold(d, s, Lines(stream));
            Alike(Feed(d, s, stream),
                  if read.err.Some? then read
                  else if |Rest(stream)| > Limit then read.(err := Some(TooLong))
                  else read.(pending := Rest(stream)))
    decreases |stream|
  {
    hide Feed, Take;
    if s.err.Some? {
      FeedAfterError(d, s, stream);
    } else {
      var n := LineEnd(stream);
      if n > Limit {
        FeedLongLine(d, s, stream);
      } else if n == |stream| {
        assert stream[..n] == stream;
        FeedWithinLine(d, s, stream);
      } else {
        FeedLine(d, s, stream);
        TakeKeepsPending(d, s, stream[..n]);
        assert [] + stream[..n] == stream[..n];
        assert Lines(stream)[1..] == Lines(stream[n + 1..]);
        FeedIsRead(d, Take(d, s, stream[..n]), stream[n + 1..]);
      }
    }
  }

  lemma TakeKeepsPending(d: Decoder, s: State, line: Bytes)
    ensures Take(d, s, line).pending == s.pending
  {}

  /** For every stream and every split of it into writes, the reader ends as the fold of
      accept over the stream's messages says, up to the pending bytes of an oversized one. */
  lemma ChunksDoNotMatter(d: Decoder, chunks: seq<Bytes>)
    ensures Alike(WriteAll(d, Start, chunks), Read(d, Concat(chunks)))
    ensures OutcomeOf(Finish(d, WriteAll(d, Start, chunks))) == OutcomeOf(Finish(d, Read(d, Concat(chunks))))
  {
    hide Feed, Fold, WriteAll;
    WritesAreFeed(d, Start, chunks);
    FeedIsRead(d, Start, Concat(chunks));
  }

  /** The i-th line of a stream; the last is what follows its newlines. */
  function LineAt(stream: Bytes, i: nat): Bytes
    requires i <= |Lines(stream)|
  {
    if i < |Lines(stream)| then Lines(stream)[i] else Rest(stream)
  }

  /** A line of the stream is over the limit, and every line before it is a message that the
      reader accepts. */
  predicate Overruns(d: Decoder, stream: Bytes) {
    exists i :: 0 <= i <= |Lines(stream)| && |LineAt(stream, i)| > Limit && Fold(d, Start, Lines(stream)[..i]).err.None?
  }

  lemma TakeIsNotTooLong(d: Decoder, s: State, line: Bytes)
    requires s.err.None?
    ensures Take(d, s, line).err != Some(TooLong)
  {}

  /** Folding ends in the size error exactly at a line that is too long. */
  lemma {:induction false} FoldTooLong(d: Decoder, s: State, lines: seq<Bytes>)
    requires s.err.None?
    ensures Fold(d, s, lines).err == Some(TooLong) <==>
            exists i :: 0 <= i < |lines| && |lines[i]| > Limit && Fold(d, s, lines[..i]).err.None?
    decreases |lines|
  {
    hide Take;
    if lines != [] {
      var line, rest := lines[0], lines[1..];
      if |line| > Limit {
        assert Fold(d, s, lines[..0]) == s;
      } else {
        var next := Take(d, s, line);
        TakeIsNotTooLong(d, s, line);
        forall i | 0 < i <= |lines| ensures Fold(d, s, lines[..i]) == Fold(d, next, rest[..i - 1]) {
          assert lines[..i][0] == line && lines[..i][1..] == rest[..i - 1];
        }
        if next.err.None? {
          FoldTooLong(d, next, rest);
          forall i | 0 <= i < |rest| && |rest[i]| > Limit && Fold(d, next, rest[..i]).err.None?
            ensures |lines[i + 1]| > Limit && Fold(d, s, lines[..i + 1]).err.None?
          {}
          forall i | 0 <= i < |lines| && |lines[i]| > Limit && Fold(d, s, lines[..i]).err.None?
            ensures |rest[i - 1]| > Limit && Fold(d, next, rest[..i - 1]).err.None?
          {}
        } else {
          forall i | 0 < i < |lines| ensures Fold(d, s, lines[..i]).err.Some? {}
        }
      }
    }
  }

  lemma ReadTooLong(d: Decoder, stream: Bytes)
    ensures Read(d, stream).err == Some(TooLong) <==> Overruns(d, stream)
  {
    hide Fold, Lines, Rest;
    var lines := Lines(stream);
    FoldTooLong(d, Start, lines);
    assert lines[..|lines|] == lines;
    if Overruns(d, stream) {
      var i :| 0 <= i <= |lines| && |LineAt(stream, i)| > Limit && Fold(d, Start, lines[..i]).err.None?;
      assert i == |lines| ==> Read(d, stream).err == Some(TooLong);
    }
    if Read(d, stream).err == Some(TooLong) && Fold(d, Start, lines).err.None? {
      assert |LineAt(stream, |lines|)| > Limit;
    }
    if Fold(d, Start, lines).err == Some(TooLong) {
      var i :| 0 <= i < |lines| && |lines[i]| > Limit && Fold(d, Start, lines[..i]).err.None?;
      assert |LineAt(stream, i)| > Limit;
    }
  }

  /** Cutting an overrunning stream one byte into its oversized line leaves that byte pending;
      not cutting it leaves nothing. */
  lemma {:induction false} CutInLongLine(d: Decoder, s: State, stream: Bytes) returns (k: nat)
    requires s.pending == [] && s.err.None? && Chunk(d, s, stream).err == Some(TooLong)
    ensures k <= |stream| && Chunk(d, s, stream).pending == []
    ensures Chunk(d, Chunk(d, s, stream[..k]), stream[k..]).pending != []
    decreases |stream|
  {
    hide Take;
    var n := LineEnd(stream);
    ChunkSteps(d, s, stream);
    if n > Limit {
      k := 1;
      CutOneByte(d, s, stream);
    } else {
      var next := Take(d, s, stream[..n]).(pending := []);
      assert s.pending + stream[..n] == stream[..n];
      TakeIsNotTooLong(d, s, stream[..n]);
      var rest := stream[n + 1..];
      var j := CutInLongLine(d, next, rest);
      k := n + 1 + j;
      assert LineEnd(stream[..k]) == n by { SameLineEnd(stream, k); }
      assert stream[..k][..n] == stream[..n] && stream[..k][n + 1..] == rest[..j] && stream[k..] == rest[j..];
      ChunkSteps(d, s, stream[..k]);
    }
  }

  lemma CutOneByte(d: Decoder, s: State, stream: Bytes)
    requires s.pending == [] && s.err.None? && LineEnd(stream) > Limit
    ensures Chunk(d, Chunk(d, s, stream[..1]), stream[1..]).pending == stream[..1]
  {
    hide Take, Chunk;
    assert stream[..1][0] == stream[0] != Newline by { assert stream[..LineEnd(stream)][0] == stream[0]; }
    assert LineEnd(stream[..1]) == 1;
    ChunkSteps(d, s, stream[..1]);
    assert [] + stream[..1] == stream[..1];
    assert LineEnd(stream) == 1 + LineEnd(stream[1..]);
    ChunkSteps(d, s.(pending := stream[..1]), stream[1..]);
  }

  lemma SameLineEnd(stream: Bytes, k: nat)
    requires LineEnd(stream) < k <= |stream|
    ensures LineEnd(stream[..k]) == LineEnd(stream)
  {
    var n, m := LineEnd(stream), LineEnd(stream[..k]);
    assert stream[..k][n] == Newline;
    assert m < k ==> stream[m] == Newline;
    assert forall i :: 0 <= i < m ==> stream[..k][..m][i] == stream[i];
    assert forall i :: 0 <= i < n ==> stream[..n][i] == stream[i];
  }

  predicate SplitsOf(stream: Bytes, a: seq<Bytes>, b: seq<Bytes>) {
    Concat(a) == stream && Concat(b) == stream
  }

  /** For every stream: two splits of it leave different bytes pending if and only if it
      overruns the limit. */
  lemma PendingDependsOnChunks(d: Decoder, stream: Bytes)
    ensures (exists a, b :: SplitsOf(stream, a, b) && WriteAll(d, Start, a).pending != WriteAll(d, Start, b).pending)
       <==> Overruns(d, stream)
  {
    hide Read, Overruns, WriteAll, Concat, Chunk;
    ReadTooLong(d, stream);
    forall a, b | SplitsOf(stream, a, b) && WriteAll(d, Start, a).pending != WriteAll(d, Start, b).pending
      ensures Overruns(d, stream)
    {
      ChunksDoNotMatter(d, a);
      ChunksDoNotMatter(d, b);
    }
    if Overruns(d, stream) {
      ConcatTwo(stream, []);
      assert stream + [] == stream;
      ChunksDoNotMatter(d, [stream]);
      WriteOne(d, Start, stream);
      var k := CutInLongLine(d, Start, stream);
      WriteTwo(d, Start, stream[..k], stream[k..]);
      ConcatTwo(stream[..k], stream[k..]);
      assert stream[..k] + stream[k..] == stream;
      assert SplitsOf(stream, [stream], [stream[..k], stream[k..]]);
    }
  }

  lemma ConcatTwo(a: Bytes, b: Bytes)
    ensures Concat([a, b]) == a + b && Concat([a + b]) == a + b
  {
    assert [a, b][1..] == [b];
    assert Concat([b]) == b + [];
  }

  lemma WriteOne(d: Decoder, s: State, a: Bytes)
    ensures WriteAll(d, s, [a]) == Chunk(d, s, a)
  {
    hide Chunk;
    assert [a][1..] == [];
  }

  lemma WriteTwo(d: Decoder, s: State, a: Bytes, b: Bytes)
    ensures WriteAll(d, s, [a, b]) == Chunk(d, Chunk(d, s, a), b)
  {
    hide Chunk;
    assert [a, b][1..] == [b];
    WriteOne(d, Chunk(d, s, a), b);
  }
}
