/**
 Mach-O tables (internal/apple/macho.go): architecture slices of a universal file, load
 commands of a slice, and the SuperBlob of its signature.
 */
module AppleMachO {
  import opened Wrappers
  import opened AppleSpans
  import opened AppleCodeDirectory

  // ----- Byte orders -----

  datatype Order = Big | Little

  function Read32(order: Order, b: Bytes, at: nat): (v: nat)
    requires at + 4 <= |b|
    ensures v < 0x1_0000_0000
  {
    if order.Big? then U32(b, at)
    else b[at] as nat + b[at + 1] as nat * 0x100 + b[at + 2] as nat * 0x1_0000 + b[at + 3] as nat * 0x100_0000
  }

  datatype Header = Header(order: Order, size: nat)

  function MachoOrder(magic: nat): Option<Header> {
    if magic == 0xfeedface then Some(Header(Big, 28))
    else if magic == 0xfeedfacf then Some(Header(Big, 32))
    else if magic == 0xcefaedfe then Some(Header(Little, 28))
    else if magic == 0xcffaedfe then Some(Header(Little, 32))
    else None
  }

  // ----- Slices -----

  datatype Slice = Slice(start: nat, size: nat, cpu: nat)

  const Fat := 0xcafebabe
  const Fat64 := 0xcafebabf

  function EntrySize(file: Bytes): (n: nat)
    requires 8 <= |file|
    ensures n == 20 || n == 32
  {
    if U32(file, 0) == Fat64 then 32 else 20
  }

  function TableEnd(file: Bytes): nat
    requires 8 <= |file|
  {
    8 + EntrySize(file) * U32(file, 4)
  }

  datatype Entry = Entry(cpu: nat, offset: nat, length: nat, align: nat)

  /** The i-th row of the architecture table; 64-bit tables have wider fields. */
  function EntryAt(file: Bytes, i: nat): (entry: Entry)
    requires 8 <= |file| && 8 + EntrySize(file) * i + EntrySize(file) <= |file|
    ensures entry.offset < 0x1_0000_0000_0000_0000 && entry.length < 0x1_0000_0000_0000_0000
  {
    var at := 8 + EntrySize(file) * i;
    if EntrySize(file) == 32 then Entry(U32(file, at), U64(file, at + 8), U64(file, at + 16), U32(file, at + 24))
    else Entry(U32(file, at), U32(file, at + 8), U32(file, at + 12), U32(file, at + 16))
  }

  predicate EntryFits(file: Bytes, entry: Entry)
    requires 8 <= |file|
  {
    && TableEnd(file) <= entry.offset && 28 <= entry.length && entry.offset + entry.length <= |file|
    && entry.align <= 31 && entry.offset % Power2(entry.align) == 0
    && var order := MachoOrder(U32(file, entry.offset));
       order.Some? && Read32(order.value.order, file, entry.offset + 4) == entry.cpu
  }

  predicate Thin(file: Bytes, slices: seq<Slice>) {
    && 8 <= |file| && U32(file, 0) != Fat && U32(file, 0) != Fat64
    && var order := MachoOrder(U32(file, 0));
       order.Some? && slices == [Slice(0, |file|, Read32(order.value.order, file, 4))]
  }

  predicate Tabled(file: Bytes) {
    && 8 <= |file| && (U32(file, 0) == Fat || U32(file, 0) == Fat64)
    && 1 <= U32(file, 4) <= 32 && TableEnd(file) <= |file|
  }

  lemma EntryLiesInTable(file: Bytes, i: nat)
    requires Tabled(file) && i < U32(file, 4)
    ensures 8 + EntrySize(file) * i + EntrySize(file) <= TableEnd(file)
  {
    hide U32;
    MulMonotone(i + 1, U32(file, 4), EntrySize(file));
    assert EntrySize(file) * (i + 1) == EntrySize(file) * i + EntrySize(file);
  }

  predicate SliceOf(file: Bytes, i: nat, slice: Slice)
    requires Tabled(file) && i < U32(file, 4)
  {
    EntryLiesInTable(file, i);
    var entry := EntryAt(file, i);
    EntryFits(file, entry) && slice == Slice(entry.offset, entry.length, entry.cpu)
  }

  function SpanOf(slice: Slice): Span {
    Span(slice.start, slice.start + slice.size)
  }

  function SpansOf(slices: seq<Slice>): (spans: seq<Span>)
    ensures |spans| == |slices|
  {
    seq(|slices|, i requires 0 <= i < |slices| => SpanOf(slices[i]))
  }

  /** Every row is a slice inside the file, beyond the table, aligned, of the CPU its own
      header names; no two share a byte. */
  predicate Universal(file: Bytes, slices: seq<Slice>) {
    && Tabled(file) && |slices| == U32(file, 4)
    && (forall i :: 0 <= i < |slices| ==> SliceOf(file, i, slices[i]))
    && PairwiseApart(SpansOf(slices))
  }

  /** Offsets and lengths are unsigned 64-bit integers, and their sum may wrap. */
  method MachoSlices(file: Bytes) returns (r: Option<seq<Slice>>)
    requires |file| < 0x8000_0000_0000_0000
    ensures r.Some? ==> Thin(file, r.value) || Universal(file, r.value)
    ensures r.None? ==> forall slices :: !Thin(file, slices) && !Universal(file, slices)
  {
    hide U32, U64, Power2, Read32, EntryAt;
    if |file| < 8 {
      return None;
    }
    var magic := U32(file, 0);
    if magic != Fat && magic != Fat64 {
      var order := MachoOrder(magic);
      if order.None? {
        return None;
      }
      return Some([Slice(0, |file|, Read32(order.value.order, file, 4))]);
    }
    var count := U32(file, 4);
    if count == 0 || count > 32 || TableEnd(file) > |file| {
      return None;
    }
    r := UniversalSlices(file);
  }

  method UniversalSlices(file: Bytes) returns (r: Option<seq<Slice>>)
    requires |file| < 0x8000_0000_0000_0000 && Tabled(file)
    ensures r.Some? ==> Universal(file, r.value)
    ensures r.None? ==> forall slices :: !Universal(file, slices)
  {
    hide U32, EntryAt, EntryFits, Tabled, PairwiseApart;
    var slices: seq<Slice> := [];
    var spans: seq<Span> := [];
    assert 8 <= |file| by { TabledHasHeader(file); }
    var count := U32(file, 4);
    for i := 0 to count
      invariant |slices| == i && |spans| == i
      invariant forall k :: 0 <= k < i ==> SliceOf(file, k, slices[k])
      invariant forall k :: 0 <= k < i ==> spans[k] == SpanOf(slices[k]) && spans[k].start < spans[k].end
    {
      EntryLiesInTable(file, i);
      TabledHasHeader(file);
      var entry := EntryAt(file, i);
      if !EntryInRange(file, entry) || !CpuAgrees(file, entry) {
        FitsIsBoth(file, entry);
        RowRejected(file, i);
        return None;
      }
      FitsIsBoth(file, entry);
      slices := slices + [Slice(entry.offset, entry.length, entry.cpu)];
      spans := spans + [Span(entry.offset, (entry.offset + entry.length) % 0x1_0000_0000_0000_0000)];
    }
    assert spans == SpansOf(slices);
    forall other | Universal(file, other) ensures other == slices {
      assert forall k :: 0 <= k < |other| ==> SliceOf(file, k, other[k]) && SliceOf(file, k, slices[k]);
    }
    var apart := CheckApart(spans);
    if !apart {
      return None;
    }
    return Some(slices);
  }

  lemma RowRejected(file: Bytes, i: nat)
    requires Tabled(file) && i < U32(file, 4)
    requires forall slice :: !SliceOf(file, i, slice)
    ensures forall slices :: !Universal(file, slices)
  {
    hide U32, SliceOf, PairwiseApart;
    forall slices ensures !Universal(file, slices) {
      if |slices| == U32(file, 4) {
        assert !SliceOf(file, i, slices[i]);
      }
    }
  }

  lemma TabledHasHeader(file: Bytes)
    requires Tabled(file)
    ensures 8 <= |file| && TableEnd(file) <= |file|
  {}

  /** The range check as written: the subtraction cannot wrap where it is reached. */
  predicate EntryInRange(file: Bytes, entry: Entry)
    requires 8 <= |file|
  {
    !(entry.offset < TableEnd(file) || entry.length < 28 || entry.offset > |file|
      || entry.length > |file| - entry.offset
      || entry.align > 31 || entry.offset % Power2(entry.align) != 0)
  }

  predicate CpuAgrees(file: Bytes, entry: Entry)
    requires 8 <= |file| && EntryInRange(file, entry)
  {
    var order := MachoOrder(U32(file, entry.offset));
    order.Some? && Read32(order.value.order, file, entry.offset + 4) == entry.cpu
  }

  lemma FitsIsBoth(file: Bytes, entry: Entry)
    requires 8 <= |file|
    ensures EntryFits(file, entry) <==> EntryInRange(file, entry) && CpuAgrees(file, entry)
    ensures EntryFits(file, entry) ==> 28 <= entry.length && entry.offset + entry.length <= |file|
  {
    hide U32, Power2, Read32;
  }

  // ----- Load commands -----

  datatype Command = Command(kind: nat, start: nat, size: nat)

  /** A header whose counts leave room for the commands it announces. */
  predicate Headered(b: Bytes) {
    && 28 <= |b| && MachoOrder(U32(b, 0)).Some?
    && CommandCount(b) <= 65536 && CommandsSize(b) <= 16 * 0x10_0000 && CommandsEnd(b) <= |b|
  }

  function OrderOf(b: Bytes): Order
    requires 28 <= |b| && MachoOrder(U32(b, 0)).Some?
  {
    MachoOrder(U32(b, 0)).value.order
  }

  function CommandCount(b: Bytes): nat
    requires 28 <= |b| && MachoOrder(U32(b, 0)).Some?
  {
    Read32(OrderOf(b), b, 16)
  }

  function CommandsSize(b: Bytes): nat
    requires 28 <= |b| && MachoOrder(U32(b, 0)).Some?
  {
    Read32(OrderOf(b), b, 20)
  }

  function CommandsStart(b: Bytes): nat
    requires 28 <= |b| && MachoOrder(U32(b, 0)).Some?
  {
    MachoOrder(U32(b, 0)).value.size
  }

  function CommandsEnd(b: Bytes): nat
    requires 28 <= |b| && MachoOrder(U32(b, 0)).Some?
  {
    CommandsStart(b) + CommandsSize(b)
  }

  predicate CommandAt(b: Bytes, start: nat, command: Command)
    requires Headered(b)
  {
    && command.start == start && 8 <= command.size && start + command.size <= CommandsEnd(b)
    && command.kind == Read32(OrderOf(b), b, start) && command.size == Read32(OrderOf(b), b, start + 4)
  }

  function EndOf(b: Bytes, commands: seq<Command>): nat
    requires Headered(b)
  {
    if commands == [] then CommandsStart(b) else commands[|commands| - 1].start + commands[|commands| - 1].size
  }

  /** Each command starts where the one before it ends. */
  predicate Chained(b: Bytes, commands: seq<Command>)
    requires Headered(b)
  {
    forall i :: 0 <= i < |commands| ==> CommandAt(b, EndOf(b, commands[..i]), commands[i])
  }

  /** The commands fill exactly the region the header gives them. */
  predicate Tiling(b: Bytes, commands: seq<Command>) {
    Headered(b) && Chained(b, commands) && |commands| == CommandCount(b) && EndOf(b, commands) == CommandsEnd(b)
  }

  lemma {:induction false} ChainIsForced(b: Bytes, xs: seq<Command>, ys: seq<Command>)
    requires Headered(b) && Chained(b, xs) && Chained(b, ys) && |xs| <= |ys|
    ensures ys[..|xs|] == xs
  {
    hide CommandAt, EndOf, Headered;
    if xs != [] {
      var n := |xs| - 1;
      ChainedPrefix(b, xs, n);
      ChainIsForced(b, xs[..n], ys);
      CommandIsForced(b, EndOf(b, xs[..n]), xs[n], ys[n]);
      assert ys[..|xs|] == ys[..n] + [ys[n]];
      assert xs == xs[..n] + [xs[n]];
    }
  }

  lemma ChainedPrefix(b: Bytes, commands: seq<Command>, n: nat)
    requires Headered(b) && Chained(b, commands) && n <= |commands|
    ensures Chained(b, commands[..n])
  {
    hide CommandAt, EndOf, Headered;
    forall i | 0 <= i < n ensures commands[..n][..i] == commands[..i] {}
  }

  lemma CommandIsForced(b: Bytes, start: nat, x: Command, y: Command)
    requires Headered(b) && CommandAt(b, start, x) && CommandAt(b, start, y)
    ensures x == y
  {}

  method LoadCommands(b: Bytes) returns (r: Option<seq<Command>>)
    ensures r.Some? ==> Tiling(b, r.value)
    ensures r.None? ==> forall commands :: !Tiling(b, commands)
  {
    hide U32, Read32, MachoOrder, Chained;
    if |b| < 28 {
      return None;
    }
    var order := MachoOrder(U32(b, 0));
    if order.None? {
      return None;
    }
    var count, size := Read32(order.value.order, b, 16), Read32(order.value.order, b, 20);
    if count > 65536 || size > 16 * 0x10_0000 || size > |b| - order.value.size {
      return None;
    }
    assert Headered(b);
    r := TileCommands(b);
  }

  method TileCommands(b: Bytes) returns (r: Option<seq<Command>>)
    requires Headered(b)
    ensures r.Some? ==> Tiling(b, r.value)
    ensures r.None? ==> forall commands :: !Tiling(b, commands)
  {
    hide U32, Read32, MachoOrder, Chained;
    var commands: seq<Command> := [];
    var at := CommandsStart(b);
    assert Chained(b, commands) by { NothingChained(b); }
    for i := 0 to CommandCount(b)
      invariant |commands| == i && Chained(b, commands)
      invariant at == EndOf(b, commands) <= CommandsEnd(b)
    {
      if CommandsEnd(b) - at < 8 {
        NextIsForced(b, commands);
        return None;
      }
      var command := Command(Read32(OrderOf(b), b, at), at, Read32(OrderOf(b), b, at + 4));
      if command.size < 8 || command.size > CommandsEnd(b) - at {
        NextIsForced(b, commands);
        return None;
      }
      ChainGrows(b, commands, command);
      commands := commands + [command];
      at := at + command.size;
    }
    forall other | Tiling(b, other) ensures other == commands {
      ChainIsForced(b, commands, other);
      assert other[..|commands|] == other;
    }
    if at != CommandsEnd(b) {
      return None;
    }
    return Some(commands);
  }

  lemma NothingChained(b: Bytes)
    requires Headered(b)
    ensures Chained(b, [])
  {}

  lemma NextIsForced(b: Bytes, commands: seq<Command>)
    requires Headered(b) && Chained(b, commands)
    ensures forall other | Tiling(b, other) && |other| > |commands| ::
              CommandAt(b, EndOf(b, commands), other[|commands|])
  {
    hide CommandAt, EndOf, Headered;
    forall other | Tiling(b, other) && |other| > |commands|
      ensures CommandAt(b, EndOf(b, commands), other[|commands|])
    {
      ChainIsForced(b, commands, other);
    }
  }

  lemma ChainGrows(b: Bytes, commands: seq<Command>, command: Command)
    requires Headered(b) && Chained(b, commands) && CommandAt(b, EndOf(b, commands), command)
    ensures Chained(b, commands + [command])
  {
    hide CommandAt, EndOf, Headered;
    var all := commands + [command];
    forall i | 0 <= i < |all| ensures CommandAt(b, EndOf(b, all[..i]), all[i]) {
      assert all[..i] == commands[..i];
      assert i == |commands| ==> commands[..i] == commands;
    }
  }

  // ----- The signature region -----

  const CodeSignatureCommand := 0x1d
  const MaxSignature := 64 * 0x10_0000

  /** The one code signature command; its region runs from behind the load commands to the
      end of the slice. */
  predicate Signs(b: Bytes, commands: seq<Command>, i: nat, offset: nat)
    requires Tiling(b, commands)
  {
    && i < |commands| && commands[i].kind == CodeSignatureCommand && commands[i].size == 16
    && (forall j :: 0 <= j < |commands| && j != i ==> commands[j].kind != CodeSignatureCommand)
    && commands[i].start + 16 <= |b|
    && offset == Read32(OrderOf(b), b, commands[i].start + 8)
    && Read32(OrderOf(b), b, commands[i].start + 12) == |b| - offset
    && CommandsEnd(b) <= offset && 12 <= |b| - offset <= MaxSignature
  }

  ghost predicate SignatureAt(b: Bytes, offset: nat) {
    exists commands, i :: Tiling(b, commands) && Signs(b, commands, i, offset)
  }

  lemma TilingIsForced(b: Bytes, xs: seq<Command>, ys: seq<Command>)
    requires Tiling(b, xs) && Tiling(b, ys)
    ensures xs == ys
  {
    hide Chained, Headered, EndOf;
    ChainIsForced(b, xs, ys);
    assert ys[..|xs|] == ys;
  }

  lemma CommandLiesInSlice(b: Bytes, commands: seq<Command>, i: nat)
    requires Tiling(b, commands) && i < |commands|
    ensures CommandsStart(b) <= commands[i].start && commands[i].start + commands[i].size <= CommandsEnd(b) <= |b|
    ensures 8 <= commands[i].size
  {
    hide U32, Read32;
    assert CommandAt(b, EndOf(b, commands[..i]), commands[i]);
    if i > 0 {
      CommandLiesInSliceStep(b, commands, i);
    }
  }

  lemma {:induction false} CommandLiesInSliceStep(b: Bytes, commands: seq<Command>, i: nat)
    requires Headered(b) && Chained(b, commands) && i <= |commands|
    ensures EndOf(b, commands[..i]) >= CommandsStart(b)
  {
    hide U32, Read32;
    if i > 0 {
      CommandLiesInSliceStep(b, commands, i - 1);
      assert CommandAt(b, EndOf(b, commands[..i - 1]), commands[i - 1]);
    }
  }

  method FindSignature(b: Bytes) returns (r: Option<nat>)
    ensures r.Some? ==> SignatureAt(b, r.value)
    ensures r.None? ==> forall offset :: !SignatureAt(b, offset)
  {
    hide Tiling, U32, Read32, Headered;
    var read := LoadCommands(b);
    if read.None? {
      return None;
    }
    var commands := read.value;
    var found: Option<nat> := None;
    for i := 0 to |commands|
      invariant found.None? ==> forall j :: 0 <= j < i ==> commands[j].kind != CodeSignatureCommand
      invariant found.Some? ==>
                found.value < i && commands[found.value].kind == CodeSignatureCommand
                  && commands[found.value].size == 16
      invariant found.Some? ==> forall j :: 0 <= j < i && j != found.value ==> commands[j].kind != CodeSignatureCommand
    {
      if commands[i].kind == CodeSignatureCommand {
        if found.Some? || commands[i].size != 16 {
          OnlyTheseCommands(b, commands);
          return None;
        }
        found := Some(i);
      }
    }
    OnlyTheseCommands(b, commands);
    if found.None? {
      return None;
    }
    CommandLiesInSlice(b, commands, found.value);
    var order, start := OrderIn(b, commands), commands[found.value].start;
    var offset, length := Read32(order, b, start + 8), Read32(order, b, start + 12);
    if offset < EndIn(b, commands) || length < 12 || length > MaxSignature || offset > |b| || length != |b| - offset {
      return None;
    }
    assert Signs(b, commands, found.value, offset);
    return Some(offset);
  }

  function OrderIn(b: Bytes, commands: seq<Command>): Order
    requires Tiling(b, commands)
  {
    OrderOf(b)
  }

  function EndIn(b: Bytes, commands: seq<Command>): nat
    requires Tiling(b, commands)
  {
    CommandsEnd(b)
  }

  lemma OnlyTheseCommands(b: Bytes, commands: seq<Command>)
    requires Tiling(b, commands)
    ensures forall offset | SignatureAt(b, offset) :: exists i :: Signs(b, commands, i, offset)
  {
    hide Tiling, Signs;
    forall offset | SignatureAt(b, offset) ensures exists i :: Signs(b, commands, i, offset) {
      var others, i :| Tiling(b, others) && Signs(b, others, i, offset);
      TilingIsForced(b, commands, others);
    }
  }

  // ----- The SuperBlob -----

  datatype Blob = Blob(slot: nat, start: nat, size: nat)

  predicate BlobHeader(data: Bytes) {
    && 12 <= |data| <= MaxSignature && U32(data, 0) == 0xfade0cc0
    && 1 <= U32(data, 8) <= 64 && 12 + 8 * U32(data, 8) <= U32(data, 4) <= |data|
  }

  function IndexSlot(data: Bytes, i: nat): nat
    requires BlobHeader(data) && i < U32(data, 8)
  {
    U32(data, 12 + 8 * i)
  }

  function IndexStart(data: Bytes, i: nat): nat
    requires BlobHeader(data) && i < U32(data, 8)
  {
    U32(data, 16 + 8 * i)
  }

  predicate HoldsDirectory(slot: nat) {
    slot == 0 || 0x1000 <= slot <= 0x1005
  }

  /** The i-th index row names a blob behind the index and inside the SuperBlob. */
  predicate BlobAt(data: Bytes, i: nat, blob: Blob)
    requires BlobHeader(data) && i < U32(data, 8)
  {
    && blob.slot == IndexSlot(data, i) && blob.start == IndexStart(data, i)
    && 12 + 8 * U32(data, 8) <= blob.start && 8 <= blob.size && blob.start + blob.size <= U32(data, 4)
    && blob.size == U32(data, blob.start + 4)
    && (HoldsDirectory(blob.slot) ==> U32(data, blob.start) == 0xfade0c02)
  }

  function BlobSpan(blob: Blob): Span {
    Span(blob.start, blob.start + blob.size)
  }

  function BlobSpans(blobs: seq<Blob>): (spans: seq<Span>)
    ensures |spans| == |blobs|
  {
    seq(|blobs|, i requires 0 <= i < |blobs| => BlobSpan(blobs[i]))
  }

  predicate DistinctSlots(blobs: seq<Blob>) {
    forall i, j :: 0 <= i < j < |blobs| ==> blobs[i].slot != blobs[j].slot
  }

  predicate HasSlot(blobs: seq<Blob>, slot: nat) {
    exists i :: 0 <= i < |blobs| && blobs[i].slot == slot
  }

  /** Every index row is a blob; slots are distinct, no two blobs share a byte, and slot
      0 is there. */
  predicate SuperBlob(data: Bytes, blobs: seq<Blob>) {
    && BlobHeader(data) && |blobs| == U32(data, 8)
    && (forall i :: 0 <= i < |blobs| ==> BlobAt(data, i, blobs[i]))
    && DistinctSlots(blobs) && PairwiseApart(BlobSpans(blobs)) && HasSlot(blobs, 0)
  }

  datatype CodeSignature = CodeSignature(codeSize: nat, blobs: map<nat, Bytes>, directories: seq<Bytes>)

  /** Each blob's bytes under its slot, and nothing else. */
  predicate Holds(data: Bytes, blobs: seq<Blob>, held: map<nat, Bytes>) {
    && (forall i :: 0 <= i < |blobs| ==>
          blobs[i].start + blobs[i].size <= |data| && blobs[i].slot in held
          && held[blobs[i].slot] == data[blobs[i].start..blobs[i].start + blobs[i].size])
    && (forall slot :: slot in held ==> HasSlot(blobs, slot))
  }

  function Alternates(held: map<nat, Bytes>, slot: nat): seq<Bytes>
    decreases 0x1006 - slot
  {
    if slot > 0x1005 then []
    else (if slot in held then [held[slot]] else []) + Alternates(held, slot + 1)
  }

  /** The primary directory first, then the alternates in slot order. */
  function Directories(held: map<nat, Bytes>): seq<Bytes> {
    if 0 in held then [held[0]] + Alternates(held, 0x1000) else []
  }

  method ReadIndex(data: Bytes) returns (r: Option<seq<Blob>>, held: map<nat, Bytes>)
    requires BlobHeader(data)
    ensures r.Some? ==> SuperBlob(data, r.value) && Holds(data, r.value, held)
    ensures r.None? ==> forall blobs :: !SuperBlob(data, blobs)
  {
    hide PairwiseApart, HoldsDirectory, U32, MaxSignature, Holds, DistinctSlots, BlobAt, SuperBlob;
    var blobs: seq<Blob> := [];
    var spans: seq<Span> := [];
    held := map[];
    NoBlobsYet(data);
    for i := 0 to U32(data, 8)
      invariant |blobs| == i && |spans| == i
      invariant forall k :: 0 <= k < i ==> BlobAt(data, k, blobs[k])
      invariant forall k :: 0 <= k < i ==> spans[k] == BlobSpan(blobs[k]) && spans[k].start < spans[k].end
      invariant DistinctSlots(blobs) && Holds(data, blobs, held)
    {
      var blob := ReadBlob(data, i);
      if blob.None? || blob.value.slot in held {
        Rejected(data, blobs, blob, held);
        return None, held;
      }
      NextBlob(data, blobs, blob.value, held);
      assert blob.value.start + blob.value.size < 0x1_0000_0000;
      spans := spans + [Span(blob.value.start, (blob.value.start + blob.value.size) % 0x1_0000_0000)];
      held := held[blob.value.slot := data[blob.value.start..blob.value.start + blob.value.size]];
      blobs := blobs + [blob.value];
    }
    assert spans == BlobSpans(blobs);
    var apart := CheckApart(spans);
    IndexDecides(data, blobs, held);
    if !apart || 0 !in held {
      return None, held;
    }
    return Some(blobs), held;
  }

  lemma NoBlobsYet(data: Bytes)
    ensures DistinctSlots([]) && Holds(data, [], map[])
  {}

  lemma IndexDecides(data: Bytes, blobs: seq<Blob>, held: map<nat, Bytes>)
    requires BlobHeader(data) && |blobs| == U32(data, 8)
    requires forall i :: 0 <= i < |blobs| ==> BlobAt(data, i, blobs[i])
    requires DistinctSlots(blobs) && Holds(data, blobs, held)
    ensures SuperBlob(data, blobs) <==> (PairwiseApart(BlobSpans(blobs)) && 0 in held)
    ensures forall others | SuperBlob(data, others) :: others == blobs
  {
    hide U32, BlobHeader, HoldsDirectory, PairwiseApart, BlobAt, DistinctSlots;
    assert 0 in held <==> HasSlot(blobs, 0);
    forall others | SuperBlob(data, others) ensures others == blobs {
      BlobsAreForced(data, others, blobs);
    }
  }

  /** One index row, on unsigned 32-bit offsets. */
  method ReadBlob(data: Bytes, i: nat) returns (r: Option<Blob>)
    requires BlobHeader(data) && i < U32(data, 8)
    ensures r.Some? ==> BlobAt(data, i, r.value)
    ensures r.None? ==> forall blob :: !BlobAt(data, i, blob)
  {
    hide U32;
    var slot, start := IndexSlot(data, i), IndexStart(data, i);
    if start < 12 + 8 * U32(data, 8) || start + 8 > U32(data, 4) {
      return None;
    }
    var size := U32(data, start + 4);
    if size < 8 || start + size > U32(data, 4) {
      return None;
    }
    if HoldsDirectory(slot) && U32(data, start) != 0xfade0c02 {
      return None;
    }
    return Some(Blob(slot, start, size));
  }

  lemma BlobsAreForced(data: Bytes, xs: seq<Blob>, ys: seq<Blob>)
    requires BlobHeader(data) && |xs| <= |ys| <= U32(data, 8)
    requires forall i :: 0 <= i < |xs| ==> BlobAt(data, i, xs[i])
    requires forall i :: 0 <= i < |ys| ==> BlobAt(data, i, ys[i])
    ensures ys[..|xs|] == xs
  {
    hide U32, BlobHeader, HoldsDirectory;
    forall i | 0 <= i < |xs| ensures xs[i] == ys[i] {
      assert BlobAt(data, i, xs[i]) && BlobAt(data, i, ys[i]);
    }
  }

  lemma Rejected(data: Bytes, blobs: seq<Blob>, blob: Option<Blob>, held: map<nat, Bytes>)
    requires BlobHeader(data) && |blobs| < U32(data, 8)
    requires forall i :: 0 <= i < |blobs| ==> BlobAt(data, i, blobs[i])
    requires Holds(data, blobs, held)
    requires match blob
             case None => forall b :: !BlobAt(data, |blobs|, b)
             case Some(b) => BlobAt(data, |blobs|, b) && b.slot in held
    ensures forall others :: !SuperBlob(data, others)
  {
    hide U32, BlobHeader, HoldsDirectory, PairwiseApart, SuperBlob;
    assert forall slot :: slot in held ==> HasSlot(blobs, slot);
    forall others | SuperBlob(data, others) ensures false {
      NextIsNew(data, blobs, others);
    }
  }

  lemma NextIsNew(data: Bytes, blobs: seq<Blob>, others: seq<Blob>)
    requires BlobHeader(data) && SuperBlob(data, others) && |blobs| < U32(data, 8)
    requires forall i :: 0 <= i < |blobs| ==> BlobAt(data, i, blobs[i])
    ensures |blobs| < |others| && BlobAt(data, |blobs|, others[|blobs|]) && !HasSlot(blobs, others[|blobs|].slot)
  {
    hide U32, BlobHeader, HoldsDirectory, PairwiseApart, BlobAt;
    BlobsAreForced(data, blobs, others);
    assert forall j :: 0 <= j < |blobs| ==> others[..|blobs|][j] == others[j] && others[j].slot != others[|blobs|].slot;
  }

  lemma NextBlob(data: Bytes, blobs: seq<Blob>, blob: Blob, held: map<nat, Bytes>)
    requires BlobHeader(data) && |blobs| < U32(data, 8) && BlobAt(data, |blobs|, blob)
    requires DistinctSlots(blobs) && Holds(data, blobs, held) && blob.slot !in held
    ensures blob.start + blob.size <= |data| < 0x1_0000_0000 && 0 < blob.size
    ensures DistinctSlots(blobs + [blob])
    ensures Holds(data, blobs + [blob], held[blob.slot := data[blob.start..blob.start + blob.size]])
  {
    hide U32, HoldsDirectory;
    var all, more := blobs + [blob], held[blob.slot := data[blob.start..blob.start + blob.size]];
    forall slot | slot in more ensures HasSlot(all, slot) {
      if slot in held {
        var i :| 0 <= i < |blobs| && blobs[i].slot == slot;
        assert all[i].slot == slot;
      } else {
        assert all[|blobs|].slot == slot;
      }
    }
  }

  ghost predicate Embeds(data: Bytes, held: map<nat, Bytes>) {
    exists blobs :: SuperBlob(data, blobs) && Holds(data, blobs, held)
  }

  method ReadSuperBlob(data: Bytes) returns (r: Option<map<nat, Bytes>>)
    ensures r.Some? ==> Embeds(data, r.value) && 0 in r.value
    ensures r.None? ==> forall held :: !Embeds(data, held)
  {
    hide SuperBlob, Holds, U32;
    EmbedsHasHeader(data);
    hide Embeds;
    if |data| < 12 || |data| > MaxSignature || U32(data, 0) != 0xfade0cc0 {
      return None;
    }
    var blobSize, blobCount := U32(data, 4), U32(data, 8);
    if blobCount == 0 || blobCount > 64 || blobSize > |data| || blobSize < 12 + 8 * blobCount {
      return None;
    }
    hide BlobHeader;
    var blobs, held := ReadIndex(data);
    EmbedsWhatIsRead(data, blobs, held);
    if blobs.None? {
      return None;
    }
    PrimaryIsHeld(data, blobs.value, held);
    return Some(held);
  }

  lemma EmbedsHasHeader(data: Bytes)
    ensures forall held | Embeds(data, held) :: BlobHeader(data)
  {
    hide BlobHeader, BlobAt, Holds;
  }

  lemma EmbedsWhatIsRead(data: Bytes, blobs: Option<seq<Blob>>, held: map<nat, Bytes>)
    requires blobs.Some? ==> SuperBlob(data, blobs.value) && Holds(data, blobs.value, held)
    requires blobs.None? ==> forall others :: !SuperBlob(data, others)
    ensures blobs.Some? ==> Embeds(data, held)
    ensures blobs.None? ==> forall other :: !Embeds(data, other)
  {
    hide SuperBlob, Holds;
  }

  /** What a slice's signature is: its region and the blobs in it. */
  ghost predicate Signed(b: Bytes, sig: CodeSignature) {
    && SignatureAt(b, sig.codeSize) && sig.codeSize <= |b|
    && Embeds(b[sig.codeSize..], sig.blobs)
    && sig.directories == Directories(sig.blobs)
  }

  method Signature(b: Bytes) returns (r: Option<CodeSignature>)
    ensures r.Some? ==> Signed(b, r.value)
    ensures r.None? ==> forall sig :: !Signed(b, sig)
  {
    hide SignatureAt, Embeds, U32;
    var at := FindSignature(b);
    if at.None? {
      return None;
    }
    var codeSize := at.value;
    SignatureFits(b, codeSize);
    forall sig | Signed(b, sig) ensures sig.codeSize == codeSize {
      SignatureIsForced(b, sig.codeSize, codeSize);
    }
    var read := ReadSuperBlob(b[codeSize..]);
    if read.None? {
      return None;
    }
    var directories := CollectDirectories(read.value);
    return Some(CodeSignature(codeSize, read.value, directories));
  }

  method CollectDirectories(held: map<nat, Bytes>) returns (directories: seq<Bytes>)
    requires 0 in held
    ensures directories == Directories(held)
  {
    hide Alternates;
    directories := [held[0]];
    for slot := 0x1000 to 0x1006
      invariant directories + Alternates(held, slot) == Directories(held)
    {
      NextAlternate(held, slot);
      if slot in held {
        directories := directories + [held[slot]];
      }
    }
    NextAlternate(held, 0x1006);
  }

  lemma NextAlternate(held: map<nat, Bytes>, slot: nat)
    ensures slot > 0x1005 ==> Alternates(held, slot) == []
    ensures slot <= 0x1005 ==>
              Alternates(held, slot) == (if slot in held then [held[slot]] else []) + Alternates(held, slot + 1)
  {}

  lemma SignatureFits(b: Bytes, offset: nat)
    requires SignatureAt(b, offset)
    ensures offset + 12 <= |b|
  {
    hide Tiling;
  }

  lemma SignatureIsForced(b: Bytes, x: nat, y: nat)
    requires SignatureAt(b, x) && SignatureAt(b, y)
    ensures x == y
  {
    hide Tiling, Read32;
    var commands, i :| Tiling(b, commands) && Signs(b, commands, i, x);
    OnlyTheseCommands(b, commands);
    var j :| Signs(b, commands, j, y);
  }

  lemma PrimaryIsHeld(data: Bytes, blobs: seq<Blob>, held: map<nat, Bytes>)
    requires SuperBlob(data, blobs) && Holds(data, blobs, held)
    ensures 0 in held
  {
    hide U32, PairwiseApart;
    var i :| 0 <= i < |blobs| && blobs[i].slot == 0;
  }

  // ----- What acceptance means for the bytes of a slice -----

  /** Position p lies in command i. */
  predicate Within(commands: seq<Command>, i: nat, p: nat) {
    i < |commands| && commands[i].start <= p < commands[i].start + commands[i].size
  }

  /** The commands tile their region: every byte of it lies in exactly one command. */
  lemma CommandsPartition(b: Bytes, commands: seq<Command>, p: nat)
    requires Tiling(b, commands) && CommandsStart(b) <= p < CommandsEnd(b)
    ensures exists i :: Within(commands, i, p)
    ensures forall i, j :: Within(commands, i, p) && Within(commands, j, p) ==> i == j
  {
    hide U32, Read32, Headered;
    CommandFound(b, commands, |commands|, p);
    forall i, j | Within(commands, i, p) && Within(commands, j, p) ensures i == j {
      if i < j {
        CommandsInOrder(b, commands, i, j);
      } else if j < i {
        CommandsInOrder(b, commands, j, i);
      }
    }
  }

  lemma {:induction false} CommandFound(b: Bytes, commands: seq<Command>, n: nat, p: nat)
    requires Headered(b) && Chained(b, commands) && n <= |commands|
    requires CommandsStart(b) <= p < EndOf(b, commands[..n])
    ensures exists i :: Within(commands, i, p)
  {
    hide U32, Read32, Headered;
    if n > 0 {
      assert CommandAt(b, EndOf(b, commands[..n - 1]), commands[n - 1]);
      if commands[n - 1].start <= p {
        assert Within(commands, n - 1, p);
      } else {
        CommandFound(b, commands, n - 1, p);
      }
    }
  }

  lemma {:induction false} CommandsInOrder(b: Bytes, commands: seq<Command>, i: nat, j: nat)
    requires Headered(b) && Chained(b, commands) && i < j < |commands|
    ensures commands[i].start + commands[i].size <= commands[j].start
    decreases j
  {
    hide U32, Read32, Headered;
    assert CommandAt(b, EndOf(b, commands[..j]), commands[j]);
    if i < j - 1 {
      CommandsInOrder(b, commands, i, j - 1);
    }
  }

  /** One CodeDirectory seals everything before the signature, its load commands included:
      two slices signed with it differ only in signature bytes, or two of their pages are a
      collision of the hash. */
  lemma SameDirectorySameSlice(hash: Hash, a: Bytes, b: Bytes, sa: CodeSignature, sb: CodeSignature,
                               externalA: map<nat, Bytes>, externalB: map<nat, Bytes>)
    requires Signed(a, sa) && Signed(b, sb)
    requires sa.directories != [] && sb.directories != [] && sa.directories[0] == sb.directories[0]
    requires Seals(hash, sa.directories[0], a[..sa.codeSize], sa.blobs, externalA)
    requires Seals(hash, sb.directories[0], b[..sb.codeSize], sb.blobs, externalB)
    ensures 44 <= |sa.directories[0]| && sa.codeSize == sb.codeSize
    ensures || (a[..sa.codeSize] == b[..sb.codeSize] && forall commands :: Tiling(a, commands) <==> Tiling(b, commands))
            || CodeCollides(hash, sa.directories[0], a[..sa.codeSize], b[..sb.codeSize])
  {
    hide Seals, SignatureAt, Embeds, Tiling, CodeCollides;
    CodeIsSealed(hash, sa.directories[0], a[..sa.codeSize], b[..sb.codeSize], sa.blobs, sb.blobs, externalA, externalB);
    if a[..sa.codeSize] == b[..sb.codeSize] {
      CommandsPrecedeSignature(a, sa.codeSize);
      CommandsPrecedeSignature(b, sb.codeSize);
      forall commands ensures Tiling(a, commands) <==> Tiling(b, commands) {
        if Tiling(a, commands) {
          TilingReadsPrefix(a, b, sa.codeSize, commands);
        }
        if Tiling(b, commands) {
          TilingReadsPrefix(b, a, sa.codeSize, commands);
        }
      }
    }
  }

  lemma CommandsPrecedeSignature(b: Bytes, offset: nat)
    requires SignatureAt(b, offset)
    ensures Headered(b) && CommandsEnd(b) <= offset <= |b|
  {
    hide U32, Read32, Chained, EndOf, MachoOrder;
  }

  lemma TilingReadsPrefix(a: Bytes, b: Bytes, n: nat, commands: seq<Command>)
    requires n <= |a| && n <= |b| && a[..n] == b[..n]
    requires Headered(a) && CommandsEnd(a) <= n
    requires Tiling(a, commands)
    ensures Tiling(b, commands)
  {
    hide U32, Read32, MachoOrder;
    HeaderReadsPrefix(a, b, n);
    forall i | 0 <= i < |commands| ensures CommandAt(b, EndOf(b, commands[..i]), commands[i]) {
      assert CommandAt(a, EndOf(a, commands[..i]), commands[i]);
      ReadsPrefix(a, b, n, commands[i].start);
      ReadsPrefix(a, b, n, commands[i].start + 4);
    }
  }

  lemma ReadsPrefix(a: Bytes, b: Bytes, n: nat, at: nat)
    requires n <= |a| && n <= |b| && a[..n] == b[..n] && at + 4 <= n
    ensures U32(a, at) == U32(b, at)
    ensures Read32(Big, a, at) == Read32(Big, b, at) && Read32(Little, a, at) == Read32(Little, b, at)
  {
    assert forall k :: 0 <= k < n ==> a[k] == a[..n][k] && b[k] == b[..n][k];
  }

  lemma HeaderReadsPrefix(a: Bytes, b: Bytes, n: nat)
    requires n <= |a| && n <= |b| && a[..n] == b[..n]
    requires Headered(a) && CommandsEnd(a) <= n
    ensures Headered(b) && OrderOf(b) == OrderOf(a) && CommandCount(b) == CommandCount(a)
    ensures CommandsStart(b) == CommandsStart(a) && CommandsEnd(b) == CommandsEnd(a)
  {
    hide U32, Read32;
    ReadsPrefix(a, b, n, 0);
    ReadsPrefix(a, b, n, 16);
    ReadsPrefix(a, b, n, 20);
  }

  // ----- Where the fields are -----

  /** A word in one of the two byte orders. */
  function WordIn(order: Order, v: Word32): (w: Bytes)
    ensures |w| == 4
  {
    var big := Word(v);
    if order.Big? then big else [big[3], big[2], big[1], big[0]]
  }

  /** Consecutive words stand at a position. */
  predicate Stand(order: Order, b: Bytes, at: nat, words: seq<Word32>) {
    at + 4 * |words| <= |b| && forall i :: 0 <= i < |words| ==> b[at + 4 * i..][..4] == WordIn(order, words[i])
  }

  lemma StandsReads(order: Order, b: Bytes, at: nat, words: seq<Word32>, i: nat)
    requires Stand(order, b, at, words) && i < |words|
    ensures Read32(order, b, at + 4 * i) == words[i]
    ensures order.Big? ==> U32(b, at + 4 * i) == words[i]
  {
    hide Word;
    var four := b[at + 4 * i..][..4];
    assert four == b[at + 4 * i..at + 4 * i + 4];
    if order.Big? {
      WordReads(b, at + 4 * i, words[i]);
    } else {
      var big := Word(words[i]);
      assert four == WordIn(order, words[i]);
      assert b[at + 4 * i] == four[0] && b[at + 4 * i + 1] == four[1];
      assert b[at + 4 * i + 2] == four[2] && b[at + 4 * i + 3] == four[3];
      WordReads(big, 0, words[i]);
    }
  }

  lemma Reversed(v: Word32)
    requires v in {0xfeedface, 0xfeedfacf}
    ensures U32(WordIn(Big, v), 0) == v
    ensures U32(WordIn(Little, v), 0) == if v == 0xfeedface then 0xcefaedfe else 0xcffaedfe
  {
    WordReads(Word(v), 0, v);
  }

  /** A slice begins with its magic in its own byte order, 0xfeedface before 32-bit and
      0xfeedfacf before 64-bit headers; every other word of its header is read in that order. */
  lemma SliceHeader(order: Order, b: Bytes, words: seq<Word32>)
    requires |words| == 7 && Stand(order, b, 0, words) && words[0] in {0xfeedface, 0xfeedfacf}
    ensures 28 <= |b| && MachoOrder(U32(b, 0)) == Some(Header(order, if words[0] == 0xfeedface then 28 else 32))
    ensures CommandCount(b) == words[4] && CommandsSize(b) == words[5]
    ensures 8 <= |b| && U32(b, 0) !in {Fat, Fat64} ==> Thin(b, [Slice(0, |b|, words[1])])
  {
    hide U32, Word, Read32;
    Reversed(words[0]);
    StandsReads(order, b, 0, words, 1);
    StandsReads(order, b, 0, words, 4);
    StandsReads(order, b, 0, words, 5);
    FirstWord(order, b, words);
  }

  lemma FirstWord(order: Order, b: Bytes, words: seq<Word32>)
    requires |words| > 0 && Stand(order, b, 0, words)
    ensures U32(b, 0) == U32(WordIn(order, words[0]), 0)
  {
    hide Word;
    var four := b[0 + 4 * 0..][..4];
    assert four == WordIn(order, words[0]);
    assert b[0] == four[0] && b[1] == four[1] && b[2] == four[2] && b[3] == four[3];
  }

  /** And nothing else is taken for a slice. */
  lemma NoOtherMagic(b: Bytes)
    requires 4 <= |b| && MachoOrder(U32(b, 0)).Some?
    ensures exists order, v: Word32 :: v in {0xfeedface, 0xfeedfacf} && b[..4] == WordIn(order, v)
  {
    var header := MachoOrder(U32(b, 0)).value;
    var v: Word32 := if header.size == 28 then 0xfeedface else 0xfeedfacf;
    assert U32(WordIn(header.order, v), 0) == U32(b, 0) by {
      Reversed(v);
    }
    SameWord(b[..4], WordIn(header.order, v));
    assert b[..4] == WordIn(header.order, v);
  }

  lemma SameWord(a: Bytes, b: Bytes)
    requires |a| == |b| == 4 && U32(a, 0) == U32(b, 0)
    ensures a == b
  {
    var low := (w: Bytes) requires |w| == 4 => w[2] as nat * 0x100 + w[3] as nat;
    var three := (w: Bytes) requires |w| == 4 => w[1] as nat * 0x1_0000 + (w[2] as nat * 0x100 + w[3] as nat);
    FirstDigit(a[0] as nat, three(a), b[0] as nat, three(b), 0x100_0000);
    FirstDigit(a[1] as nat, low(a), b[1] as nat, low(b), 0x1_0000);
    FirstDigit(a[2] as nat, a[3] as nat, b[2] as nat, b[3] as nat, 0x100);
  }

  lemma FirstDigit(x: nat, rest: nat, y: nat, other: nat, size: nat)
    requires rest < size && other < size && x * size + rest == y * size + other
    ensures x == y && rest == other
  {
    assert (x + 1) * size == x * size + size && (y + 1) * size == y * size + size;
    if x < y {
      MulMonotone(x + 1, y, size);
    } else if y < x {
      MulMonotone(y + 1, x, size);
    }
  }

  /** A row of a universal file's table: CPU, subtype, offset, length and alignment; 64-bit
      tables hold offset and length in two words each, and a reserved word. */
  lemma TableRow(file: Bytes, count: Word32, i: nat, row: seq<Word32>)
    requires 8 <= |file| && (Stand(Big, file, 0, [0xcafebabe, count]) || Stand(Big, file, 0, [0xcafebabf, count]))
    ensures U32(file, 4) == count
    ensures Stand(Big, file, 0, [0xcafebabe, count]) && |row| == 5 && Stand(Big, file, 8 + 20 * i, row) ==>
              && TableEnd(file) == 8 + 20 * count && 8 + EntrySize(file) * i + EntrySize(file) <= |file|
              && EntryAt(file, i) == Entry(row[0], row[2], row[3], row[4])
    ensures Stand(Big, file, 0, [0xcafebabf, count]) && |row| == 8 && Stand(Big, file, 8 + 32 * i, row) ==>
              && TableEnd(file) == 8 + 32 * count && 8 + EntrySize(file) * i + EntrySize(file) <= |file|
              && EntryAt(file, i) == Entry(row[0], (row[2] as int) * 0x1_0000_0000 + row[3],
                                           (row[4] as int) * 0x1_0000_0000 + row[5], row[6])
  {
    hide U32, WordIn, Read32, Stand;
    var wide := Stand(Big, file, 0, [0xcafebabf, count]);
    var magic: Word32 := if wide then 0xcafebabf else 0xcafebabe;
    StandsReads(Big, file, 0, [magic, count], 0);
    StandsReads(Big, file, 0, [magic, count], 1);
    if Stand(Big, file, 0, [0xcafebabe, count]) {
      StandsReads(Big, file, 0, [0xcafebabe, count], 0);
    }
    var size := if wide then 32 else 20;
    if |row| == size / 4 && Stand(Big, file, 8 + size * i, row) {
      StandFits(Big, file, 8 + size * i, row);
      forall k: nat | k < |row| ensures U32(file, 8 + size * i + 4 * k) == row[k] {
        StandsReads(Big, file, 8 + size * i, row, k);
      }
      assert U32(file, 8 + size * i + 4 * 0) == row[0] && U32(file, 8 + size * i + 4 * 2) == row[2];
      assert U32(file, 8 + size * i + 4 * 3) == row[3] && U32(file, 8 + size * i + 4 * 4) == row[4];
    }
  }

  lemma StandFits(order: Order, b: Bytes, at: nat, words: seq<Word32>)
    requires Stand(order, b, at, words)
    ensures at + 4 * |words| <= |b|
  {}

  /** A row of a SuperBlob's index: slot and offset. */
  lemma IndexRow(data: Bytes, i: nat, row: seq<Word32>)
    requires BlobHeader(data) && i < U32(data, 8) && |row| == 2 && Stand(Big, data, 12 + 8 * i, row)
    ensures IndexSlot(data, i) == row[0] && IndexStart(data, i) == row[1]
  {
    hide U32, WordIn, Read32;
    StandsReads(Big, data, 12 + 8 * i, row, 0);
    StandsReads(Big, data, 12 + 8 * i, row, 1);
  }

  lemma {:induction false} AlternatesListed(held: map<nat, Bytes>, from: nat)
    ensures forall b :: b in Alternates(held, from) <==>
              exists slot :: from <= slot <= 0x1005 && slot in held && held[slot] == b
    decreases 0x1006 - from
  {
    if from <= 0x1005 {
      AlternatesListed(held, from + 1);
    }
  }

  /** The CodeDirectories of a signature are the blobs of slots 0 and 0x1000 to 0x1005, and it
      is these blobs that must carry a CodeDirectory's magic. */
  lemma DirectoriesListed(held: map<nat, Bytes>)
    ensures forall slot :: HoldsDirectory(slot) <==> slot in {0, 4096, 4097, 4098, 4099, 4100, 4101}
    ensures 0 in held ==> Directories(held) != [] && Directories(held)[0] == held[0]
    ensures 0 in held ==> forall b :: b in Directories(held) <==>
              exists slot :: slot in {0, 4096, 4097, 4098, 4099, 4100, 4101} && slot in held && held[slot] == b
  {
    AlternatesListed(held, 0x1000);
  }
}
