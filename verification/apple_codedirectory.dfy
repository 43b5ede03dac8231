/**
 CodeDirectory verification (internal/apple/macho.go): header checks that make every
 later read fit, the page loop over the code, and the special slots. The hash is an
 arbitrary function of the bytes.
 */
module AppleCodeDirectory {
  import opened Wrappers

  datatype Error =
    | Truncated | Unsupported | BadHashTable | BadString | BadHashSize | WrongLimit | EmptyCode | BadPageCount
    | PageMismatch(page: nat)
    | Unsealed(slot: nat) | Unavailable(slot: nat) | SlotMismatch(slot: nat) | MissingSlot(slot: nat)

  // ----- Big-endian reads -----

  function U32(b: Bytes, at: nat): (v: nat)
    requires at + 4 <= |b|
    ensures v < 0x1_0000_0000
  {
    b[at] as nat * 0x100_0000 + b[at + 1] as nat * 0x1_0000 + b[at + 2] as nat * 0x100 + b[at + 3] as nat
  }

  function U64(b: Bytes, at: nat): nat
    requires at + 8 <= |b|
  {
    U32(b, at) * 0x1_0000_0000 + U32(b, at + 4)
  }

  // ----- validateCodeDirectory -----

  function Version(cd: Bytes): nat
    requires 44 <= |cd|
  {
    U32(cd, 8)
  }

  function HashOffset(cd: Bytes): nat
    requires 44 <= |cd|
  {
    U32(cd, 16)
  }

  function SpecialSlots(cd: Bytes): nat
    requires 44 <= |cd|
  {
    U32(cd, 24)
  }

  function CodeSlots(cd: Bytes): nat
    requires 44 <= |cd|
  {
    U32(cd, 28)
  }

  function HashSize(cd: Bytes): nat
    requires 44 <= |cd|
  {
    cd[36] as nat
  }

  /** The header length that each version's fields need. */
  function MinimumLength(version: nat): nat {
    if version >= 0x20500 then 96
    else if version >= 0x20400 then 88
    else if version >= 0x20300 then 64
    else if version >= 0x20200 then 52
    else if version >= 0x20100 then 48
    else 44
  }

  function CutAtZero(b: Bytes): Option<Bytes> {
    if b == [] then None
    else if b[0] == 0 then Some([])
    else match CutAtZero(b[1..])
      case None => None
      case Some(rest) => Some([b[0]] + rest)
  }

  /** A zero-terminated string between the fixed header and the hash table. The end is
      computed on unsigned 64-bit integers, where a table larger than its offset wraps. */
  function CodeString(cd: Bytes, offset: nat): Result<Bytes, Error>
    requires 44 <= |cd|
  {
    var end := (HashOffset(cd) - SpecialSlots(cd) * HashSize(cd)) % 0x1_0000_0000_0000_0000;
    if offset < 44 || offset >= end || end > |cd| then Failure(BadString)
    else match CutAtZero(cd[offset..end])
      case None => Failure(BadString)
      case Some(text) => Success(text)
  }

  function Validate(cd: Bytes): Result<(), Error> {
    if |cd| < 44 then Failure(Truncated)
    else if Version(cd) < 0x20001 || Version(cd) > 0x20500 then Failure(Unsupported)
    else if |cd| < MinimumLength(Version(cd)) then Failure(Truncated)
    else if Version(cd) >= 0x20100 && U32(cd, 44) != 0 then Failure(Unsupported)
    else if Version(cd) >= 0x20500 && U32(cd, 92) != 0 then Failure(Unsupported)
    else if HashSize(cd) == 0 || SpecialSlots(cd) > 64 || CodeSlots(cd) > 0x100_0000
            || HashOffset(cd) < MinimumLength(Version(cd)) + SpecialSlots(cd) * HashSize(cd)
            || HashOffset(cd) + CodeSlots(cd) * HashSize(cd) > |cd| then Failure(BadHashTable)
    else match CodeString(cd, U32(cd, 20))
      case Failure(error) => Failure(error)
      case Success(_) => Success(())
  }

  /** Acceptance alone keeps every later read in bounds, for every version: the team and
      64-bit limit fields, each special and each code hash, and both strings. */
  lemma ValidatedReadsFit(cd: Bytes)
    requires Validate(cd).Success?
    ensures 44 <= |cd| && MinimumLength(Version(cd)) <= |cd|
    ensures Version(cd) >= 0x20200 ==> 52 <= |cd|
    ensures Version(cd) >= 0x20300 ==> 64 <= |cd|
    ensures 0 < HashSize(cd)
    ensures HashOffset(cd) - SpecialSlots(cd) * HashSize(cd) >= MinimumLength(Version(cd))
    ensures forall slot :: 1 <= slot <= SpecialSlots(cd) ==>
              44 <= HashOffset(cd) - slot * HashSize(cd) && HashOffset(cd) - slot * HashSize(cd) + HashSize(cd) <= |cd|
    ensures forall page :: 0 <= page < CodeSlots(cd) ==>
              HashOffset(cd) + page * HashSize(cd) + HashSize(cd) <= |cd|
  {
    hide U32, CodeString;
    SlotsFit(HashOffset(cd), HashSize(cd), SpecialSlots(cd), CodeSlots(cd), MinimumLength(Version(cd)), |cd|);
  }

  lemma SlotsFit(offset: nat, size: nat, special: nat, code: nat, minimum: nat, length: nat)
    requires size > 0 && minimum >= 44 && offset >= minimum + special * size && offset + code * size <= length
    ensures forall slot :: 1 <= slot <= special ==> 44 <= offset - slot * size && offset - slot * size + size <= length
    ensures forall page :: 0 <= page < code ==> offset + page * size + size <= length
  {
    forall slot | 1 <= slot <= special ensures 44 <= offset - slot * size && offset - slot * size + size <= length {
      MulMonotone(slot, special, size);
      MulMonotone(1, slot, size);
      MulMonotone(0, code, size);
    }
    forall page | 0 <= page < code ensures offset + page * size + size <= length {
      MulMonotone(page + 1, code, size);
      assert (page + 1) * size == page * size + size;
    }
  }

  lemma MulMonotone(a: int, b: int, c: nat)
    requires a <= b
    ensures a * c <= b * c
  {}

  /** So the string bound never wraps, and any accepted string lies between the fixed
      header and the hashes. */
  lemma ValidatedStringsLieInside(cd: Bytes, offset: nat)
    requires Validate(cd).Success? && CodeString(cd, offset).Success?
    ensures 44 <= offset
    ensures offset + |CodeString(cd, offset).value| < HashOffset(cd) - SpecialSlots(cd) * HashSize(cd) <= |cd|
    ensures cd[offset..offset + |CodeString(cd, offset).value|] == CodeString(cd, offset).value
    ensures 0 !in CodeString(cd, offset).value
  {
    ValidatedReadsFit(cd);
    var end := HashOffset(cd) - SpecialSlots(cd) * HashSize(cd);
    StringBound(HashOffset(cd), SpecialSlots(cd), HashSize(cd));
    hide U32, Validate;
    CutIsPrefix(cd[offset..end]);
  }

  lemma StringBound(offset: nat, special: nat, size: nat)
    requires offset < 0x1_0000_0000 && offset - special * size >= 0
    ensures (offset - special * size) % 0x1_0000_0000_0000_0000 == offset - special * size
    ensures offset - special * size <= offset
  {
    MulMonotone(0, special, size);
    SmallStays(offset - special * size);
  }

  lemma SmallStays(end: nat)
    requires end < 0x1_0000_0000
    ensures end % 0x1_0000_0000_0000_0000 == end
  {}

  lemma {:induction false} CutIsPrefix(b: Bytes)
    ensures match CutAtZero(b)
            case None => 0 !in b
            case Some(text) => |text| < |b| && b[..|text|] == text && b[|text|] == 0 && 0 !in text
  {
    if b != [] && b[0] != 0 {
      CutIsPrefix(b[1..]);
      assert b == [b[0]] + b[1..];
    }
  }

  // ----- codeClaims -----

  datatype Claims = Claims(identifier: Bytes, team: Bytes, expires: bool)

  function Identifier(cd: Bytes): Result<Bytes, Error>
    requires 44 <= |cd|
  {
    CodeString(cd, U32(cd, 20))
  }

  /** Version 0x20200 added the team; a zero offset means none. */
  function Team(cd: Bytes): Result<Bytes, Error>
    requires Headed(cd)
  {
    if Version(cd) >= 0x20200 && U32(cd, 48) != 0 then CodeString(cd, U32(cd, 48)) else Success([])
  }

  predicate ForcesExpiration(cd: Bytes)
    requires 44 <= |cd|
  {
    U32(cd, 12) / 0x400 % 2 == 1
  }

  /** A header long enough for the fields its version has. */
  predicate Headed(cd: Bytes) {
    44 <= |cd| && MinimumLength(Version(cd)) <= |cd|
  }

  predicate Agree(directories: seq<Bytes>, identifier: Bytes, team: Bytes) {
    forall i :: 0 <= i < |directories| ==>
      Headed(directories[i]) && Identifier(directories[i]) == Success(identifier)
        && Team(directories[i]) == Success(team)
  }

  predicate AnyExpires(directories: seq<Bytes>) {
    exists i :: 0 <= i < |directories| && Headed(directories[i]) && ForcesExpiration(directories[i])
  }

  /** Every directory claims the same identifier and team; one is enough to expire. */
  method CodeClaims(directories: seq<Bytes>) returns (r: Option<Claims>)
    requires forall i :: 0 <= i < |directories| ==> Headed(directories[i])
    ensures r.Some? ==>
            Agree(directories, r.value.identifier, r.value.team) && (r.value.expires <==> AnyExpires(directories))
    ensures r.None? ==> forall identifier, team :: !Agree(directories, identifier, team)
  {
    hide Identifier, Team, U32;
    var claimed := Claims([], [], false);
    for i := 0 to |directories|
      invariant Agree(directories[..i], claimed.identifier, claimed.team)
      invariant claimed.expires <==> AnyExpires(directories[..i])
    {
      var cd := directories[i];
      var identifier, team := Identifier(cd), Team(cd);
      if identifier.Failure? || team.Failure? {
        return None;
      }
      assert i > 0 ==> directories[..i][0] == directories[0];
      if i > 0 && (identifier.value != claimed.identifier || team.value != claimed.team) {
        return None;
      }
      assert directories[..i + 1] == directories[..i] + [cd];
      MoreExpire(directories[..i], cd);
      claimed := Claims(identifier.value, team.value, claimed.expires || ForcesExpiration(cd));
    }
    assert directories[..|directories|] == directories;
    return Some(claimed);
  }

  lemma MoreExpire(directories: seq<Bytes>, cd: Bytes)
    requires Headed(cd)
    ensures AnyExpires(directories + [cd]) <==> AnyExpires(directories) || ForcesExpiration(cd)
  {
    var all := directories + [cd];
    if AnyExpires(directories) {
      var i :| 0 <= i < |directories| && Headed(directories[i]) && ForcesExpiration(directories[i]);
      assert all[i] == directories[i];
    }
    assert all[|directories|] == cd;
  }

  // ----- verifyCodeDirectory -----

  /** The digest length of each hash type; type 3 is SHA-256 cut to 20 bytes. */
  function DigestLength(kind: byte): Option<nat> {
    if kind == 1 then Some(20) else if kind == 2 then Some(32) else if kind == 3 then Some(20)
      else if kind == 4 then Some(48) else None
  }

  /** A hash of each type, cut to the type's digest length: any function. */
  type Hash = (byte, Bytes) -> Bytes

  /** Two different contents with one hash. */
  predicate Collide(hash: Hash, kind: byte, a: Bytes, b: Bytes) {
    a != b && hash(kind, a) == hash(kind, b)
  }

  function Limit(cd: Bytes): nat
    requires Headed(cd)
  {
    if Version(cd) >= 0x20300 && U32(cd, 32) == 0 then U64(cd, 56) else U32(cd, 32)
  }

  function Power2(n: nat): (p: nat)
    ensures p > 0
  {
    if n == 0 then 1 else 2 * Power2(n - 1)
  }

  function PageSize(cd: Bytes, codeSize: nat): nat
    requires 44 <= |cd|
  {
    if cd[39] == 0 then codeSize else Power2(cd[39] as nat)
  }

  function Page(code: Bytes, size: nat, page: nat): Bytes {
    var start, end := page * size, page * size + size;
    if start >= |code| then [] else if end >= |code| then code[start..] else code[start..end]
  }

  /** The hash table entry of a code page. Special slots count down from the table's start. */
  function HashAt(cd: Bytes, index: int): Bytes
    requires 44 <= |cd|
  {
    var start := HashOffset(cd) + index * HashSize(cd);
    if 0 <= start && start + HashSize(cd) <= |cd| then cd[start..start + HashSize(cd)] else []
  }

  function SpecialHash(cd: Bytes, slot: nat): Bytes
    requires 44 <= |cd|
  {
    HashAt(cd, -1 * slot)
  }

  predicate AllZero(b: Bytes) {
    forall i :: 0 <= i < |b| ==> b[i] == 0
  }

  function Get(m: map<nat, Bytes>, slot: nat): Bytes {
    if slot in m then m[slot] else []
  }

  /** The bytes a special slot is checked against: the bundle's files for Info.plist and
      the resource seal, the signature's own blobs for the rest. */
  function SlotValue(blobs: map<nat, Bytes>, external: map<nat, Bytes>, slot: nat): Bytes {
    if slot == 1 || slot == 3 then Get(external, slot) else Get(blobs, slot)
  }

  /** The checks before any byte of code is hashed. */
  predicate Shaped(cd: Bytes, code: Bytes) {
    && Validate(cd).Success? && Headed(cd)
    && DigestLength(cd[37]) == Some(HashSize(cd))
    && Limit(cd) == |code|
    && cd[39] <= 30 && PageSize(cd, |code|) > 0
    && CodeSlots(cd) == (|code| + PageSize(cd, |code|) - 1) / PageSize(cd, |code|)
  }

  predicate PageSealed(hash: Hash, cd: Bytes, code: Bytes, page: nat)
    requires 44 <= |cd|
  {
    hash(cd[37], Page(code, PageSize(cd, |code|), page)) == HashAt(cd, page)
  }

  predicate PagesSealed(hash: Hash, cd: Bytes, code: Bytes)
    requires 44 <= |cd|
  {
    forall page :: 0 <= page < CodeSlots(cd) ==> PageSealed(hash, cd, code, page)
  }

  predicate SlotSealed(hash: Hash, cd: Bytes, blobs: map<nat, Bytes>, external: map<nat, Bytes>, slot: nat)
    requires 44 <= |cd|
  {
    var expected, value := SpecialHash(cd, slot), SlotValue(blobs, external, slot);
    if AllZero(expected) then Get(external, slot) == [] else value != [] && hash(cd[37], value) == expected
  }

  predicate SlotsSealed(hash: Hash, cd: Bytes, blobs: map<nat, Bytes>, external: map<nat, Bytes>)
    requires 44 <= |cd|
  {
    && (forall slot :: 1 <= slot <= SpecialSlots(cd) ==> SlotSealed(hash, cd, blobs, external, slot))
    && (forall slot :: slot in external ==> slot <= SpecialSlots(cd))
  }

  /** What a verified CodeDirectory says of code, signature blobs and bundle files. */
  predicate Seals(hash: Hash, cd: Bytes, code: Bytes, blobs: map<nat, Bytes>, external: map<nat, Bytes>) {
    Shaped(cd, code) && PagesSealed(hash, cd, code) && SlotsSealed(hash, cd, blobs, external)
  }

  lemma ValidatedIsHeaded(cd: Bytes)
    requires Validate(cd).Success?
    ensures Headed(cd)
  {}

  /** Checks the header, then every page, then every special slot. */
  method VerifyCodeDirectory(hash: Hash, cd: Bytes, code: Bytes, blobs: map<nat, Bytes>, external: map<nat, Bytes>)
    returns (r: Result<(), Error>)
    ensures r.Success? <==> Seals(hash, cd, code, blobs, external)
  {
    hide PagesSealed, SlotsSealed, U32, Limit, Validate;
    var valid := Validate(cd);
    if valid.Failure? {
      return valid;
    }
    ValidatedIsHeaded(cd);
    var size := DigestLength(cd[37]);
    if size.None? {
      return Failure(Unsupported);
    }
    if HashSize(cd) != size.value {
      return Failure(BadHashSize);
    }
    if Limit(cd) != |code| {
      return Failure(WrongLimit);
    }
    if cd[39] > 30 {
      return Failure(Unsupported);
    }
    var pageSize := PageSize(cd, |code|);
    if pageSize == 0 {
      return Failure(EmptyCode);
    }
    if CodeSlots(cd) != (|code| + pageSize - 1) / pageSize {
      return Failure(BadPageCount);
    }
    var pages := VerifyPages(hash, cd, code, pageSize);
    if pages.Failure? {
      return pages;
    }
    r := VerifySlots(hash, cd, blobs, external);
  }

  /** The page loop reads the code once, front to back. */
  method VerifyPages(hash: Hash, cd: Bytes, code: Bytes, pageSize: nat) returns (r: Result<(), Error>)
    requires 44 <= |cd| && pageSize == PageSize(cd, |code|)
    ensures r.Success? <==> PagesSealed(hash, cd, code)
    ensures r.Failure? ==> r.error.PageMismatch?
  {
    hide U32, Page, HashAt, PageSize;
    var read: nat := 0;
    for page := 0 to CodeSlots(cd)
      invariant read == if page * pageSize <= |code| then page * pageSize else |code|
      invariant forall p :: 0 <= p < page ==> PageSealed(hash, cd, code, p)
    {
      var end := if read + pageSize <= |code| then read + pageSize else |code|;
      PageIsRead(code, pageSize, page);
      assert PageSealed(hash, cd, code, page) <==> hash(cd[37], code[read..end]) == HashAt(cd, page);
      if hash(cd[37], code[read..end]) != HashAt(cd, page) {
        return Failure(PageMismatch(page));
      }
      assert (page + 1) * pageSize == page * pageSize + pageSize;
      read := end;
    }
    return Success(());
  }

  lemma PageIsRead(code: Bytes, size: nat, page: nat)
    ensures var read := if page * size <= |code| then page * size else |code|;
            var end := if read + size <= |code| then read + size else |code|;
            Page(code, size, page) == code[read..end]
  {}

  method VerifySlots(hash: Hash, cd: Bytes, blobs: map<nat, Bytes>, external: map<nat, Bytes>)
    returns (r: Result<(), Error>)
    requires 44 <= |cd|
    ensures r.Success? <==> SlotsSealed(hash, cd, blobs, external)
  {
    hide U32, SpecialHash, SlotValue, Get;
    for slot := 1 to SpecialSlots(cd) + 1
      invariant forall s :: 1 <= s < slot ==> SlotSealed(hash, cd, blobs, external, s)
    {
      var expected := SpecialHash(cd, slot);
      var value := SlotValue(blobs, external, slot);
      if AllZero(expected) {
        if Get(external, slot) != [] {
          assert !SlotSealed(hash, cd, blobs, external, slot);
          return Failure(Unsealed(slot));
        }
      } else if value == [] {
        assert !SlotSealed(hash, cd, blobs, external, slot);
        return Failure(Unavailable(slot));
      } else if hash(cd[37], value) != expected {
        assert !SlotSealed(hash, cd, blobs, external, slot);
        return Failure(SlotMismatch(slot));
      }
    }
    if exists slot :: slot in external && slot > SpecialSlots(cd) {
      var slot :| slot in external && slot > SpecialSlots(cd);
      return Failure(MissingSlot(slot));
    }
    return Success(());
  }

  // ----- What a verified signature seals -----

  /** The pages partition the code: every byte is in exactly the page its position names. */
  lemma PagesPartitionCode(code: Bytes, size: nat, k: nat)
    requires size > 0 && k < |code|
    ensures k / size < (|code| + size - 1) / size
    ensures k % size < |Page(code, size, k / size)| && Page(code, size, k / size)[k % size] == code[k]
    ensures |Page(code, size, k / size)| <= size
  {
    Division(k, size);
    Division(|code| + size - 1, size);
    var pages := (|code| + size - 1) / size;
    assert (pages + 1) * size == pages * size + size;
    PageCovers(k / size, pages, size, k, |code|);
  }

  lemma Division(a: nat, b: nat)
    requires b > 0
    ensures a == (a / b) * b + a % b && 0 <= a % b < b
  {}

  lemma PageCovers(page: nat, pages: nat, size: nat, k: nat, length: nat)
    requires size > 0 && k < length && page * size <= k
    requires (pages + 1) * size > length + size - 1
    ensures page < pages
  {
    assert (pages + 1) * size == pages * size + size;
    assert pages * size > page * size;
    if page >= pages {
      MulMonotone(pages, page, size);
    }
  }

  lemma SealedPage(hash: Hash, cd: Bytes, code: Bytes, page: nat)
    requires Shaped(cd, code) && PagesSealed(hash, cd, code)
    requires page < (|code| + PageSize(cd, |code|) - 1) / PageSize(cd, |code|)
    ensures hash(cd[37], Page(code, PageSize(cd, |code|), page)) == HashAt(cd, page)
    ensures page < CodeSlots(cd)
  {
    hide U32, Validate, Page, HashAt, PageSize, Limit;
    assert PageSealed(hash, cd, code, page);
  }

  lemma SameLength(cd: Bytes, a: Bytes, b: Bytes)
    requires Shaped(cd, a) && Shaped(cd, b)
    ensures 44 <= |cd| && |a| == |b| && PageSize(cd, |a|) > 0
  {
    hide U32, Validate, PageSize, Limit;
  }

  predicate PagesCollide(hash: Hash, cd: Bytes, a: Bytes, b: Bytes, page: nat)
    requires 44 <= |cd|
  {
    Collide(hash, cd[37], Page(a, PageSize(cd, |a|), page), Page(b, PageSize(cd, |b|), page))
  }

  predicate CodeCollides(hash: Hash, cd: Bytes, a: Bytes, b: Bytes)
    requires 44 <= |cd|
  {
    exists page :: 0 <= page < CodeSlots(cd) && PagesCollide(hash, cd, a, b, page)
  }

  /** One CodeDirectory seals one code content: if two contents both pass, they are equal or
      two of their pages are a collision of the hash. */
  lemma CodeIsSealed(hash: Hash, cd: Bytes, a: Bytes, b: Bytes, blobsA: map<nat, Bytes>, blobsB: map<nat, Bytes>,
                     externalA: map<nat, Bytes>, externalB: map<nat, Bytes>)
    requires Seals(hash, cd, a, blobsA, externalA) && Seals(hash, cd, b, blobsB, externalB)
    ensures 44 <= |cd| && |a| == |b|
    ensures a == b || CodeCollides(hash, cd, a, b)
  {
    hide Shaped, PagesSealed, SlotsSealed, PageSize, Page, HashAt, U32;
    SameLength(cd, a, b);
    if a != b {
      var k :| 0 <= k < |a| && a[k] != b[k];
      var size := PageSize(cd, |a|);
      PagesPartitionCode(a, size, k);
      PagesPartitionCode(b, size, k);
      SealedPage(hash, cd, a, k / size);
      SealedPage(hash, cd, b, k / size);
      assert PagesCollide(hash, cd, a, b, k / size);
    }
  }

  lemma SealedSlot(hash: Hash, cd: Bytes, code: Bytes, blobs: map<nat, Bytes>, external: map<nat, Bytes>, slot: nat)
    requires Seals(hash, cd, code, blobs, external) && 1 <= slot
    ensures 44 <= |cd|
    ensures slot <= SpecialSlots(cd) ==> SlotSealed(hash, cd, blobs, external, slot)
    ensures slot > SpecialSlots(cd) ==> slot !in external
  {
    hide U32, Validate, SlotSealed, PagesSealed, PageSize, Limit;
  }

  /** It also seals the bundle's Info.plist and resource files, slots 1 and 3: neither can
      be changed without a collision, nor dropped, nor added. */
  lemma BundleFilesAreSealed(hash: Hash, cd: Bytes, a: Bytes, b: Bytes,
                             blobsA: map<nat, Bytes>, blobsB: map<nat, Bytes>,
                             externalA: map<nat, Bytes>, externalB: map<nat, Bytes>, slot: nat)
    requires slot == 1 || slot == 3
    requires Seals(hash, cd, a, blobsA, externalA) && Seals(hash, cd, b, blobsB, externalB)
    ensures 44 <= |cd|
    ensures Get(externalA, slot) == Get(externalB, slot)
            || Collide(hash, cd[37], Get(externalA, slot), Get(externalB, slot))
    ensures Get(externalA, slot) != [] ==> slot <= SpecialSlots(cd) && !AllZero(SpecialHash(cd, slot))
    ensures Get(externalA, slot) == [] <==> Get(externalB, slot) == []
  {
    hide Seals, SpecialHash, AllZero, U32;
    SealedSlot(hash, cd, a, blobsA, externalA, slot);
    SealedSlot(hash, cd, b, blobsB, externalB, slot);
  }

  /** Bytes given for any other slot are accepted exactly under a nonzero hash, or in slot
      0: there nothing reads them, so nothing binds them. Every caller gives slots 1 and 3
      only (bundle.go:220, 248; macho.go:91), so this is a limit of the function, not of
      what is verified. */
  lemma OtherSlotsAreNotRead(hash: Hash, cd: Bytes, code: Bytes, blobs: map<nat, Bytes>, external: map<nat, Bytes>,
                             slot: nat, bytes: Bytes)
    requires Seals(hash, cd, code, blobs, external) && slot !in {1, 3} && slot <= SpecialSlots(cd) && bytes != []
    ensures Seals(hash, cd, code, blobs, external[slot := bytes]) <==> slot == 0 || !AllZero(SpecialHash(cd, slot))
  {
    hide U32, Validate, PagesSealed, SlotsSealed, Limit, PageSize;
    SlotsNotRead(hash, cd, blobs, external, slot, bytes);
  }

  lemma SlotsNotRead(hash: Hash, cd: Bytes, blobs: map<nat, Bytes>, external: map<nat, Bytes>, slot: nat, bytes: Bytes)
    requires 44 <= |cd| && SlotsSealed(hash, cd, blobs, external) && slot !in {1, 3} && slot <= SpecialSlots(cd)
    requires bytes != []
    ensures SlotsSealed(hash, cd, blobs, external[slot := bytes]) <==> slot == 0 || !AllZero(SpecialHash(cd, slot))
  {
    hide SpecialHash, AllZero, U32;
    var replaced := external[slot := bytes];
    forall s | 1 <= s <= SpecialSlots(cd)
      ensures SlotSealed(hash, cd, blobs, replaced, s) <==> (s != slot || !AllZero(SpecialHash(cd, slot)))
    {
      assert SlotSealed(hash, cd, blobs, external, s);
      assert s != slot ==> Get(replaced, s) == Get(external, s);
    }
    if slot > 0 {
      assert SlotsSealed(hash, cd, blobs, replaced) ==> SlotSealed(hash, cd, blobs, replaced, slot);
    }
  }

  // ----- What a special slot binds -----

  lemma EntriesFit(cd: Bytes, slot: nat, page: nat)
    requires Validate(cd).Success?
    ensures 44 <= |cd| && 0 < HashSize(cd)
    ensures 1 <= slot <= SpecialSlots(cd) ==>
              0 <= HashOffset(cd) - slot * HashSize(cd) && HashOffset(cd) - slot * HashSize(cd) + HashSize(cd) <= |cd|
    ensures page < CodeSlots(cd) ==> HashOffset(cd) + page * HashSize(cd) + HashSize(cd) <= |cd|
    ensures page < CodeSlots(cd) ==> 0 <= HashOffset(cd) + page * HashSize(cd)
  {
    ValidatedReadsFit(cd);
    hide U32, Validate, MinimumLength, HashOffset, HashSize, CodeSlots, SpecialSlots;
    MulMonotone(0, page, HashSize(cd));
  }

  /** The entry of a special slot: the table counts down from its start. */
  function SlotEntry(cd: Bytes, slot: nat): Bytes
    requires Validate(cd).Success? && 1 <= slot <= SpecialSlots(cd)
  {
    hide U32, Validate;
    EntriesFit(cd, slot, 0);
    cd[HashOffset(cd) - slot * HashSize(cd)..][..HashSize(cd)]
  }

  /** Slots 1 and 3 bind the bundle's files, every other slot the signature's blob of that
      slot. An entry of zeros binds nothing, and allows no file. */
  predicate BindsBlobs(hash: Hash, cd: Bytes, blobs: map<nat, Bytes>, external: map<nat, Bytes>)
    requires Validate(cd).Success?
  {
    && (forall slot :: 1 <= slot <= SpecialSlots(cd) ==>
          if forall byte <- SlotEntry(cd, slot) :: byte == 0 then slot !in external || external[slot] == []
          else if slot in {1, 3} then
            slot in external && external[slot] != [] && hash(cd[37], external[slot]) == SlotEntry(cd, slot)
          else slot in blobs && blobs[slot] != [] && hash(cd[37], blobs[slot]) == SlotEntry(cd, slot))
    && (forall slot :: slot in external ==> slot <= SpecialSlots(cd))
  }

  lemma ZeroBytes(b: Bytes)
    ensures AllZero(b) <==> forall byte <- b :: byte == 0
  {
    assert forall i :: 0 <= i < |b| ==> b[i] in b;
  }

  lemma SlotEntryIsHash(cd: Bytes, slot: nat)
    requires Validate(cd).Success? && 1 <= slot <= SpecialSlots(cd)
    ensures 44 <= |cd| && SlotEntry(cd, slot) == SpecialHash(cd, slot)
  {
    hide U32, Validate, HashOffset, HashSize, SpecialSlots;
    EntriesFit(cd, slot, 0);
    var start := HashOffset(cd) - slot * HashSize(cd);
    assert start == HashOffset(cd) + (-1 * slot) * HashSize(cd) by {
      Negated(slot, HashSize(cd));
    }
    assert SlotEntry(cd, slot) == cd[start..start + HashSize(cd)];
  }

  lemma Negated(a: nat, b: nat)
    ensures (-1 * a) * b == -(a * b)
  {}

  lemma SlotBinds(hash: Hash, cd: Bytes, blobs: map<nat, Bytes>, external: map<nat, Bytes>, slot: nat)
    requires Validate(cd).Success? && 1 <= slot <= SpecialSlots(cd)
    ensures SlotSealed(hash, cd, blobs, external, slot) <==>
            if forall byte <- SlotEntry(cd, slot) :: byte == 0 then slot !in external || external[slot] == []
            else if slot in {1, 3} then
              slot in external && external[slot] != [] && hash(cd[37], external[slot]) == SlotEntry(cd, slot)
            else slot in blobs && blobs[slot] != [] && hash(cd[37], blobs[slot]) == SlotEntry(cd, slot)
  {
    hide U32, Validate, SlotEntry, SpecialHash, HashOffset, HashSize, SpecialSlots;
    SlotEntryIsHash(cd, slot);
    ZeroBytes(SlotEntry(cd, slot));
  }

  /** The slot loop passes exactly when every slot's own bytes hash to the slot's entry. */
  lemma SlotsBindBlobs(hash: Hash, cd: Bytes, blobs: map<nat, Bytes>, external: map<nat, Bytes>)
    requires Validate(cd).Success?
    ensures 44 <= |cd| && (SlotsSealed(hash, cd, blobs, external) <==> BindsBlobs(hash, cd, blobs, external))
  {
    hide U32, Validate, SlotSealed, SlotEntry;
    ValidatedIsHeaded(cd);
    forall slot | 1 <= slot <= SpecialSlots(cd) {
      SlotBinds(hash, cd, blobs, external, slot);
    }
  }

  /** The entry of a code page: the table counts up. */
  function PageEntry(cd: Bytes, page: nat): Bytes
    requires Validate(cd).Success? && page < CodeSlots(cd)
  {
    hide U32, Validate;
    EntriesFit(cd, 1, page);
    cd[HashOffset(cd) + page * HashSize(cd)..][..HashSize(cd)]
  }

  lemma PageBinds(hash: Hash, cd: Bytes, code: Bytes, page: nat)
    requires Validate(cd).Success? && page < CodeSlots(cd)
    ensures 44 <= |cd|
    ensures PageSealed(hash, cd, code, page) <==>
            hash(cd[37], Page(code, PageSize(cd, |code|), page)) == PageEntry(cd, page)
  {
    hide U32, Validate, Page, PageSize;
    EntriesFit(cd, 1, page);
    var start := HashOffset(cd) + page * HashSize(cd);
    assert PageEntry(cd, page) == cd[start..start + HashSize(cd)];
  }

  /** One CodeDirectory seals each blob its slots name: two signatures that both pass hold
      the same blob under the slot, or two blobs that collide. */
  lemma BlobsAreSealed(hash: Hash, cd: Bytes, a: Bytes, b: Bytes, blobsA: map<nat, Bytes>, blobsB: map<nat, Bytes>,
                       externalA: map<nat, Bytes>, externalB: map<nat, Bytes>, slot: nat)
    requires Seals(hash, cd, a, blobsA, externalA) && Seals(hash, cd, b, blobsB, externalB)
    requires 1 <= slot <= SpecialSlots(cd) && slot !in {1, 3} && exists byte <- SlotEntry(cd, slot) :: byte != 0
    ensures slot in blobsA && slot in blobsB && blobsA[slot] != [] && blobsB[slot] != []
    ensures blobsA[slot] == blobsB[slot] || Collide(hash, cd[37], blobsA[slot], blobsB[slot])
  {
    hide U32, Validate, SlotEntry, SlotsSealed, PagesSealed, Limit, PageSize;
    SlotsBindBlobs(hash, cd, blobsA, externalA);
    SlotsBindBlobs(hash, cd, blobsB, externalB);
  }

  // ----- Where the fields are -----

  type Word32 = v: int | 0 <= v < 0x1_0000_0000

  function Word(v: Word32): (w: Bytes)
    ensures |w| == 4
  {
    var high, low := v / 0x1_0000, v % 0x1_0000;
    [(high / 0x100) as byte, (high % 0x100) as byte, (low / 0x100) as byte, (low % 0x100) as byte]
  }

  /** Big-endian words, one after another. */
  function Words(words: seq<Word32>): (b: Bytes)
    ensures |b| == 4 * |words|
  {
    if words == [] then [] else Words(words[..|words| - 1]) + Word(words[|words| - 1])
  }

  lemma WordReads(b: Bytes, at: nat, v: Word32)
    requires at + 4 <= |b| && b[at..at + 4] == Word(v)
    ensures U32(b, at) == v
  {
    var four := b[at..at + 4];
    assert b[at] == four[0] && b[at + 1] == four[1] && b[at + 2] == four[2] && b[at + 3] == four[3];
  }

  lemma {:induction false} WordsRead(words: seq<Word32>, rest: Bytes, i: nat)
    requires i < |words|
    ensures (Words(words) + rest)[4 * i..4 * i + 4] == Word(words[i])
    ensures U32(Words(words) + rest, 4 * i) == words[i]
  {
    var n := |words| - 1;
    var init := words[..n];
    if i < n {
      WordsRead(init, Word(words[n]) + rest, i);
      assert Words(words) + rest == Words(init) + (Word(words[n]) + rest);
    } else {
      assert Words(words) + rest == Words(init) + Word(words[n]) + rest;
    }
    WordReads(Words(words) + rest, 4 * i, words[i]);
  }

  /** The header of a CodeDirectory as consecutive words: magic, length, version, flags, hash
      table, identifier, special slots, code slots, limit, the four bytes of hash size, hash
      type, platform and page size, spare, scatter, team, spare and the two words of the
      64-bit limit. */
  lemma HeaderFields(words: seq<Word32>, rest: Bytes)
    requires |words| >= 16
    ensures var cd := Words(words) + rest;
            && 44 <= |cd|
            && Version(cd) == words[2] && HashOffset(cd) == words[4]
            && SpecialSlots(cd) == words[6] && CodeSlots(cd) == words[7]
            && (ForcesExpiration(cd) <==> words[3] / 0x400 % 2 == 1)
            && Identifier(cd) == CodeString(cd, words[5])
            && cd[36..40] == Word(words[9])
            && (Headed(cd) ==> Limit(cd) == if words[2] >= 0x20300 && words[8] == 0
                                            then (words[14] as int) * 0x1_0000_0000 + words[15] else words[8])
            && (Headed(cd) ==> Team(cd) == if words[2] >= 0x20200 && words[12] != 0
                                           then CodeString(cd, words[12]) else Success([]))
  {
    hide U32, CodeString, Words, Word;
    forall i: nat | i < |words| ensures U32(Words(words) + rest, 4 * i) == words[i] {
      WordsRead(words, rest, i);
    }
    WordsRead(words, rest, 9);
    var cd := Words(words) + rest;
    assert U32(cd, 4 * 2) == words[2] && U32(cd, 4 * 3) == words[3] && U32(cd, 4 * 4) == words[4];
    assert U32(cd, 4 * 5) == words[5] && U32(cd, 4 * 6) == words[6] && U32(cd, 4 * 7) == words[7];
    assert U32(cd, 4 * 8) == words[8] && U32(cd, 4 * 12) == words[12];
    assert U32(cd, 4 * 14) == words[14] && U32(cd, 4 * 15) == words[15];
  }

  // ----- Which headers are accepted -----

  /** The words of a header: eleven, and those that each version adds. */
  function HeaderWords(version: nat): nat {
    11 + (if version >= 0x20100 then 1 else 0) + (if version >= 0x20200 then 1 else 0)
    + (if version >= 0x20300 then 3 else 0) + (if version >= 0x20400 then 6 else 0)
    + if version >= 0x20500 then 2 else 0
  }

  lemma MinimumIsTheHeader(version: nat)
    ensures MinimumLength(version) == 4 * HeaderWords(version)
  {}

  /** A zero byte ends the string that starts here, before the hashes do. */
  predicate StringFits(cd: Bytes, offset: nat, end: int) {
    44 <= offset < end <= |cd| && exists i :: offset <= i < end && cd[i] == 0
  }

  lemma CodeStringFits(cd: Bytes, offset: nat)
    requires 44 <= |cd| && HashOffset(cd) - SpecialSlots(cd) * HashSize(cd) >= 0
    ensures CodeString(cd, offset).Success? <==>
            StringFits(cd, offset, HashOffset(cd) - SpecialSlots(cd) * HashSize(cd))
  {
    var end := HashOffset(cd) - SpecialSlots(cd) * HashSize(cd);
    StringBound(HashOffset(cd), SpecialSlots(cd), HashSize(cd));
    hide U32, HashOffset, SpecialSlots, HashSize;
    if 44 <= offset < end <= |cd| {
      var text := cd[offset..end];
      CutIsPrefix(text);
      if StringFits(cd, offset, end) {
        var i :| offset <= i < end && cd[i] == 0;
        assert text[i - offset] == 0;
      }
      if CutAtZero(text).Some? {
        assert cd[offset + |CutAtZero(text).value|] == 0;
      }
    }
  }

  /** A header is accepted exactly if its version is known, it is long enough for it, what it
      reserves is zero, and a hash table of moderate size and the identifier lie inside. */
  predicate WellHeaded(cd: Bytes) {
    && |cd| >= 44 && 0x20001 <= U32(cd, 8) <= 0x20500 && |cd| >= 4 * HeaderWords(U32(cd, 8))
    && (U32(cd, 8) >= 0x20100 ==> U32(cd, 44) == 0)
    && (U32(cd, 8) >= 0x20500 ==> U32(cd, 92) == 0)
    && cd[36] > 0 && U32(cd, 24) <= 64 && U32(cd, 28) <= 16777216
    && 4 * HeaderWords(U32(cd, 8)) <= U32(cd, 16) - U32(cd, 24) * cd[36] as nat
    && U32(cd, 16) + U32(cd, 28) * cd[36] as nat <= |cd|
    && StringFits(cd, U32(cd, 20), U32(cd, 16) - U32(cd, 24) * cd[36] as nat)
  }

  lemma AcceptedIsWellHeaded(cd: Bytes)
    ensures Validate(cd).Success? <==> WellHeaded(cd)
  {
    if |cd| >= 44 {
      MinimumIsTheHeader(U32(cd, 8));
      hide U32, CodeString, StringFits, MinimumLength, HeaderWords;
      if HashOffset(cd) - SpecialSlots(cd) * HashSize(cd) >= 0 {
        CodeStringFits(cd, U32(cd, 20));
      }
    }
  }

  /** As many pages as cover the code, and no more. */
  predicate Covers(pages: nat, size: nat, length: nat) {
    length <= pages * size && (pages > 0 ==> (pages - 1) * size < length)
  }

  lemma CeilingCovers(pages: nat, size: nat, length: nat)
    requires size > 0
    ensures pages == (length + size - 1) / size <==> Covers(pages, size, length)
  {
    var exact := (length + size - 1) / size;
    Division(length + size - 1, size);
    assert length <= exact * size < length + size;
    assert (exact - 1) * size == exact * size - size;
    if pages < exact {
      MulMonotone(pages, exact - 1, size);
    } else if pages > exact {
      MulMonotone(exact, pages - 1, size);
    }
  }

  /** The code is hashed as a whole, or in pages of a power of two. */
  lemma ShapedExactly(cd: Bytes, code: Bytes)
    ensures Shaped(cd, code) <==>
            && WellHeaded(cd)
            && (cd[37] as nat, cd[36] as nat) in {(1, 20), (2, 32), (3, 20), (4, 48)}
            && (Headed(cd) ==> Limit(cd) == |code|)
            && (if cd[39] == 0 then code != [] && U32(cd, 28) == 1
                else cd[39] <= 30 && Covers(U32(cd, 28), Power2(cd[39] as nat), |code|))
  {
    AcceptedIsWellHeaded(cd);
    hide U32, Validate, WellHeaded, Limit, Power2, Covers;
    if Validate(cd).Success? {
      ValidatedIsHeaded(cd);
      if cd[39] == 0 {
        WholeCode(|code|, CodeSlots(cd));
      } else {
        CeilingCovers(CodeSlots(cd), Power2(cd[39] as nat), |code|);
      }
    }
  }

  lemma WholeCode(length: nat, pages: nat)
    ensures length > 0 ==> (pages == (length + length - 1) / length <==> pages == 1)
  {
    if length > 0 {
      CeilingCovers(1, length, length);
    }
  }

  lemma PagesArePowers()
    ensures Power2(0) == 1 && Power2(12) == 4096 && forall n: nat :: Power2(n + 1) == 2 * Power2(n)
  {
    assert Power2(4) == 16 && Power2(8) == 256;
  }
}
