/** Which error a BHD5 index is refused with: the first in the order in which it is read. */
module Bhd5Refusals {
  import opened Bytes
  import opened Reading
  import opened Words
  import opened Refusals
  import opened Bhd5
  import opened Bhd5Parsing
  import opened Bhd5Words
  import opened Bhd5Unwrapping

  // ------------------------------------------------------------------ the errors

  /** One of the first twelve bytes is there and wrong. */
  ghost predicate BadMark(buf: bytes) {
    || (4 <= |buf| && buf[..4] != [0x42, 0x48, 0x44, 0x35])
    || (4 < |buf| && buf[4] != 0 && buf[4] != 0xFF) || (5 < |buf| && buf[5] > 1) || (6 < |buf| && buf[6] != 0) || (7 < |buf| && buf[7] != 0)
    || (12 <= |buf| && I32(buf, 8, buf[4] == 0) != 1)
  }

  /** Bucket count and bucket offset must be there and not negative. */
  ghost function CountsError(buf: bytes, be: bool): (e: Option<Error>)
    ensures e.None? ==> if IsWide(buf, be) then |buf| >= 32 && I64(buf, 16, be) >= 0 && I64(buf, 24, be) >= 0
                        else |buf| >= 24 && I32(buf, 16, be) >= 0 && I32(buf, 20, be) >= 0
  {
    if IsWide(buf, be) then (if I64(buf, 16, be) < 0 || I64(buf, 24, be) < 0 then Some(OutOfRange) else None)
    else if |buf| < 20 then Some(Truncated)
    else if I32(buf, 16, be) < 0 then Some(OutOfRange)
    else if |buf| < 24 then Some(Truncated)
    else if I32(buf, 20, be) < 0 then Some(OutOfRange)
    else None
  }

  ghost function SaltError(buf: bytes, pos: nat, be: bool): Option<Error> {
    if pos + 4 > |buf| then Some(Truncated)
    else if I32(buf, pos, be) < 0 then Some(OutOfRange)
    else if pos + 4 + I32(buf, pos, be) > |buf| then Some(Truncated)
    else None
  }

  ghost function BucketError(buf: bytes, pos: nat, be: bool, wide: bool): Option<Error> {
    if pos + 4 > |buf| then Some(Truncated)
    else if I32(buf, pos, be) < 0 then Some(OutOfRange)
    else if pos + 8 > |buf| then Some(Truncated)
    else if !wide then (if I32(buf, pos + 4, be) < 0 then Some(OutOfRange) else None)
    else if I32(buf, pos + 4, be) != 1 then Some(BadMagic)
    else if pos + 16 > |buf| then Some(Truncated)
    else if I64(buf, pos + 8, be) < 0 then Some(OutOfRange)
    else None
  }

  /** Sizes and offsets of a header must not be negative. */
  ghost function HeaderError(game: Game, buf: bytes, pos: nat, be: bool): Option<Error> {
    if game == DarkSouls3 || game == Sekiro then
      if pos + 8 > |buf| then Some(Truncated)
      else if I32(buf, pos + 4, be) < 0 then Some(OutOfRange)
      else if pos + 40 > |buf| then Some(Truncated)
      else if I64(buf, pos + 8, be) < 0 || I64(buf, pos + 16, be) < 0 || I64(buf, pos + 24, be) < 0 || I64(buf, pos + 32, be) < 0 then Some(OutOfRange)
      else None
    else
      if pos + 12 > |buf| then Some(Truncated)
      else if I32(buf, pos + 8, be) < 0 then Some(OutOfRange)
      else if pos + 16 > |buf| then Some(Truncated)
      else if I32(buf, pos + 12, be) < 0 then Some(OutOfRange)
      else if pos + 40 > |buf| then Some(Truncated)
      else if I64(buf, pos + 16, be) < 0 || I64(buf, pos + 24, be) < 0 || I64(buf, pos + 32, be) < 0 then Some(OutOfRange)
      else None
  }

  /** The headers of a bucket must begin in the buffer, unless it is empty. */
  ghost function RunError(game: Game, buf: bytes, be: bool, count: nat, at: nat): Option<Error> {
    if count == 0 then None
    else if at > |buf| then Some(OutOfRange)
    else FirstOf(seq(count, j requires 0 <= j < count => HeaderError(game, buf, at + 40 * j, be)))
  }

  /** A record of ranges, if its offset is not zero: a key, and a count that the rest of the buffer has room
      for and that is at most a million. */
  ghost function SealedError(buf: bytes, at: nat, size: nat, be: bool): Option<Error> {
    if at == 0 then None
    else if at > |buf| then Some(OutOfRange)
    else if at + size + 4 > |buf| then Some(Truncated)
    else
      var n := I32(buf, at + size, be);
      if n < 0 then Some(OutOfRange)
      else if n > 1_000_000 || at + size + 4 + 16 * n > |buf| then Some(Truncated)
      else None
  }

  /** The two records of ranges of a file, SHA before AES. */
  ghost function FileError(game: Game, buf: bytes, pos: nat, be: bool): Option<Error> {
    if HeaderError(game, buf, pos, be).Some? then None
    else
      var shaAt := pos + if game == DarkSouls3 || game == Sekiro then 16 else 24;
      if SealedError(buf, I64(buf, shaAt, be), 32, be).Some? then SealedError(buf, I64(buf, shaAt, be), 32, be)
      else SealedError(buf, I64(buf, shaAt + 8, be), 16, be)
  }

  function RecordAt(at: nat, wide: bool, i: nat): nat {
    if wide then at + 16 * i else at + 8 * i
  }

  /** How many headers a bucket record announces, and where. */
  ghost function Announced(buf: bytes, pos: nat, be: bool, wide: bool): nat {
    if BucketError(buf, pos, be, wide).Some? then 0 else I32(buf, pos, be)
  }

  ghost function Beginning(buf: bytes, pos: nat, be: bool, wide: bool): nat {
    if BucketError(buf, pos, be, wide).Some? then 0 else if wide then I64(buf, pos + 8, be) else I32(buf, pos + 4, be)
  }

  function Spots(start: nat, n: nat): (s: seq<nat>)
    ensures |s| == n && forall j :: 0 <= j < n ==> s[j] == start + 40 * j
  {
    if n == 0 then [] else Spots(start, n - 1) + [start + 40 * (n - 1)]
  }

  /** Where the headers of the first `k` buckets stand. */
  ghost function Places(buf: bytes, at: nat, be: bool, wide: bool, k: nat): seq<nat> {
    if k == 0 then []
    else
      var pos := RecordAt(at, wide, k - 1);
      Places(buf, at, be, wide, k - 1) + Spots(Beginning(buf, pos, be, wide), Announced(buf, pos, be, wide))
  }

  /** Bucket records, then headers, then records of ranges; all of one kind are read before any of the next. */
  ghost function FilesError(game: Game, buf: bytes, be: bool, wide: bool, n: nat, at: nat): Option<Error> {
    var buckets := FirstOf(seq(n, i requires 0 <= i => BucketError(buf, RecordAt(at, wide, i), be, wide)));
    var runs := FirstOf(seq(n, i requires 0 <= i =>
      var pos := RecordAt(at, wide, i); RunError(game, buf, be, Announced(buf, pos, be, wide), Beginning(buf, pos, be, wide))));
    var places := Places(buf, at, be, wide, n);
    if buckets.Some? then buckets
    else if runs.Some? then runs
    else FirstOf(seq(|places|, m requires 0 <= m < |places| => FileError(game, buf, places[m], be)))
  }

  ghost function IndexError(game: Game, buf: bytes): Option<Error> {
    if BadMark(buf) then Some(BadMagic)
    else if |buf| < 16 then Some(Truncated)
    else
      var be := buf[4] == 0;
      if CountsError(buf, be).Some? then CountsError(buf, be)
      else
        var wide := IsWide(buf, be);
        var n, at := if wide then I64(buf, 16, be) else I32(buf, 16, be), if wide then I64(buf, 24, be) else I32(buf, 20, be);
        if SaltError(buf, if wide then 32 else 24, be).Some? then SaltError(buf, if wide then 32 else 24, be)
        else if at > |buf| then Some(OutOfRange)
        else FilesError(game, buf, be, wide, n, at)
  }

  // ------------------------------------------------------------------ single records

  lemma MarkRefused(buf: bytes)
    ensures ErrorOf(ParseLead(buf)) == if BadMark(buf) then Some(BadMagic) else if |buf| < 16 then Some(Truncated) else None
    ensures ParseLead(buf).Ok? ==> |buf| >= 16 && ParseLead(buf).value.be == (buf[4] == 0)
  {
    hide GetUInt, GetSInt, GetBool, ExpectByte, I32;
    ReadOption(buf, 4, {0, 0xFF});
    ReadFlag(buf, 5);
    ReadOption(buf, 6, {0});
    ReadOption(buf, 7, {0});
    if |buf| > 4 {
      Read32(buf, 8, buf[4] == 0);
      Read32(buf, 12, buf[4] == 0);
    }
    assert |buf| >= 4 ==> buf[0..4] == buf[..4];
  }

  lemma CountsRefused(buf: bytes, be: bool)
    ensures ErrorOf(ParseCounts(buf, be)) == CountsError(buf, be)
    ensures ParseCounts(buf, be).Ok? ==>
      var wide := IsWide(buf, be);
      && |buf| >= (if wide then 32 else 24)
      && ParseCounts(buf, be).value == Counts(wide, if wide then I64(buf, 16, be) else I32(buf, 16, be),
                                              if wide then I64(buf, 24, be) else I32(buf, 20, be), if wide then 32 else 24)
  {
    hide GetSInt, I32, I64, LooksWide;
    WidthRead(buf, be);
    Read32(buf, 16, be);
    Read32(buf, 20, be);
    Read64(buf, 16, be);
    Read64(buf, 24, be);
  }

  lemma SaltRefused(buf: bytes, pos: nat, be: bool)
    ensures ErrorOf(ParseSalt(buf, pos, be)) == SaltError(buf, pos, be)
  {
    hide GetSInt, I32, DecodeAscii;
    Read32(buf, pos, be);
  }

  lemma BucketRefused(buf: bytes, pos: nat, be: bool, wide: bool)
    ensures ErrorOf(ParseBucket(buf, pos, be, wide)) == BucketError(buf, pos, be, wide)
  {
    hide GetSInt, I32, I64;
    Read32(buf, pos, be);
    Read32(buf, pos + 4, be);
    Read64(buf, pos + 8, be);
  }

  lemma HeaderRefused(game: Game, buf: bytes, pos: nat, be: bool)
    ensures ErrorOf(ParseHeader(game, buf, pos, be)) == HeaderError(game, buf, pos, be)
  {
    hide GetUInt, GetSInt, U32, U64, I32, I64;
    Read32(buf, pos, be);
    Read64(buf, pos, be);
    Read32(buf, pos + 4, be);
    Read32(buf, pos + 8, be);
    Read64(buf, pos + 8, be);
    Read32(buf, pos + 12, be);
    Read64(buf, pos + 16, be);
    Read64(buf, pos + 24, be);
    Read64(buf, pos + 32, be);
  }

  lemma SealedRefused(buf: bytes, at: nat, size: nat, be: bool)
    ensures ErrorOf(ParseSealed(buf, at, size, be)) == SealedError(buf, at, size, be)
  {
    hide GetSInt, I32, ReadRanges;
    Read32(buf, at + size, be);
  }

  lemma FileRefused(game: Game, buf: bytes, pos: nat, be: bool)
    ensures var h := ParseHeader(game, buf, pos, be); h.Ok? ==> ErrorOf(ParseFile(buf, be, h.value)) == FileError(game, buf, pos, be)
  {
    hide ParseHeader, ParseSealed, SealedError, U32, U64, I32, I64;
    var r := ParseHeader(game, buf, pos, be);
    HeaderRefused(game, buf, pos, be);
    if r.Ok? {
      HeaderRead(game, buf, pos, be, r.value);
      SealedRefused(buf, r.value.shaAt, 32, be);
      SealedRefused(buf, r.value.aesAt, 16, be);
    }
  }

  // ------------------------------------------------------------------ all of a kind

  lemma {:induction false} DirectoryRefused(buf: bytes, base: nat, be: bool, wide: bool, errors: seq<Option<Error>>)
    requires forall i :: 0 <= i < |errors| ==> errors[i] == ErrorOf(ParseBucket(buf, base + BucketWidth(wide) * i, be, wide))
    ensures ErrorOf(ParseDirectory(buf, base, be, wide, |errors|)) == FirstOf(errors)
    decreases |errors|
  {
    hide ParseBucket, FirstOf, FirstFile, BucketWidth;
    FirstNone(errors);
    var n := |errors|;
    if n > 0 {
      DirectoryRefused(buf, base, be, wide, errors[..n - 1]);
      FirstStep(errors[..n - 1], errors[n - 1]);
      assert errors == errors[..n - 1] + [errors[n - 1]];
    }
  }

  lemma {:induction false} RunRefused(game: Game, buf: bytes, at: nat, be: bool, errors: seq<Option<Error>>)
    requires forall j :: 0 <= j < |errors| ==> errors[j] == HeaderError(game, buf, at + 40 * j, be)
    ensures ErrorOf(ParseRun(game, buf, at, be, |errors|)) == FirstOf(errors)
    decreases |errors|
  {
    hide ParseHeader, HeaderError, FirstOf;
    FirstNone(errors);
    var n := |errors|;
    if n > 0 {
      RunRefused(game, buf, at, be, errors[..n - 1]);
      HeaderRefused(game, buf, at + 40 * (n - 1), be);
      FirstStep(errors[..n - 1], errors[n - 1]);
      assert errors == errors[..n - 1] + [errors[n - 1]];
    }
  }

  /** What a bucket record announces is what the directory has for it. */
  ghost predicate Directed(buf: bytes, at: nat, be: bool, wide: bool, d: Directory) {
    && |d.buckets| == |d.offsets|
    && forall i :: 0 <= i < |d.buckets| ==>
         d.buckets[i].count == Announced(buf, RecordAt(at, wide, i), be, wide) && d.offsets[i] == Beginning(buf, RecordAt(at, wide, i), be, wide)
  }

  lemma BucketDirected(buf: bytes, at: nat, be: bool, wide: bool, i: nat, count: nat, start: nat)
    requires BucketWords(buf, at, i, be, wide, count, start)
    ensures count == Announced(buf, RecordAt(at, wide, i), be, wide) && start == Beginning(buf, RecordAt(at, wide, i), be, wide)
  {
    hide I32, I64;
  }

  lemma IsDirected(buf: bytes, at: nat, be: bool, wide: bool, n: nat)
    requires ParseDirectory(buf, at, be, wide, n).Ok?
    ensures var d := ParseDirectory(buf, at, be, wide, n).value; |d.buckets| == n && Directed(buf, at, be, wide, d)
  {
    hide ParseDirectory, BucketWords, Announced, Beginning, RecordAt, Placed;
    var d := ParseDirectory(buf, at, be, wide, n).value;
    DirectoryFound(buf, at, be, wide, d, n);
    forall i | 0 <= i < n
      ensures d.buckets[i].count == Announced(buf, RecordAt(at, wide, i), be, wide) && d.offsets[i] == Beginning(buf, RecordAt(at, wide, i), be, wide)
    {
      BucketDirected(buf, at, be, wide, i, d.buckets[i].count, d.offsets[i]);
    }
  }

  lemma HeadersStep(game: Game, buf: bytes, be: bool, d: Directory, k: nat, error: Option<Error>)
    requires 0 < k <= |d.buckets| == |d.offsets| && error == RunError(game, buf, be, d.buckets[k - 1].count, d.offsets[k - 1])
    ensures ErrorOf(ParseHeaders(game, buf, be, d, k))
         == if ParseHeaders(game, buf, be, d, k - 1).Err? then Some(ParseHeaders(game, buf, be, d, k - 1).error) else error
  {
    hide ParseRun, HeaderError, FirstOf, FirstFile;
    var n, at := d.buckets[k - 1].count, d.offsets[k - 1];
    RunRefused(game, buf, at, be, seq(n, j requires 0 <= j < n => HeaderError(game, buf, at + 40 * j, be)));
  }

  lemma {:induction false} RunsRefused(game: Game, buf: bytes, be: bool, d: Directory, errors: seq<Option<Error>>)
    requires |errors| <= |d.buckets| == |d.offsets|
    requires forall i :: 0 <= i < |errors| ==> errors[i] == RunError(game, buf, be, d.buckets[i].count, d.offsets[i])
    ensures ErrorOf(ParseHeaders(game, buf, be, d, |errors|)) == FirstOf(errors)
    decreases |errors|
  {
    hide RunError, FirstOf, FirstFile, ParseRun;
    FirstNone(errors);
    var k := |errors|;
    if k > 0 {
      RunsRefused(game, buf, be, d, errors[..k - 1]);
      HeadersStep(game, buf, be, d, k, errors[k - 1]);
      FirstStep(errors[..k - 1], errors[k - 1]);
      assert errors == errors[..k - 1] + [errors[k - 1]];
    }
  }

  lemma {:induction false} RunPlaces(game: Game, buf: bytes, at: nat, be: bool, n: nat)
    requires ParseRun(game, buf, at, be, n).Ok?
    ensures forall j :: 0 <= j < n ==> ParseHeader(game, buf, at + 40 * j, be) == Ok(ParseRun(game, buf, at, be, n).value[j])
  {
    hide ParseHeader;
    if n > 0 {
      RunPlaces(game, buf, at, be, n - 1);
    }
  }

  /** Every header is read from its place. */
  lemma {:induction false} HeadersPlaced(game: Game, buf: bytes, at: nat, be: bool, wide: bool, d: Directory, k: nat)
    requires Directed(buf, at, be, wide, d) && k <= |d.buckets| && ParseHeaders(game, buf, be, d, k).Ok?
    ensures var hs, places := ParseHeaders(game, buf, be, d, k).value, Places(buf, at, be, wide, k);
      |hs| == |places| && forall m :: 0 <= m < |hs| ==> ParseHeader(game, buf, places[m], be) == Ok(hs[m])
  {
    hide ParseRun, ParseHeader, FirstFile, Announced, Beginning, RecordAt;
    if k > 0 {
      HeadersPlaced(game, buf, at, be, wide, d, k - 1);
      if d.buckets[k - 1].count > 0 {
        RunPlaces(game, buf, d.offsets[k - 1], be, d.buckets[k - 1].count);
      }
    }
  }

  lemma {:induction false} AllFilesRefused(buf: bytes, be: bool, hs: seq<Header>, errors: seq<Option<Error>>)
    requires |errors| <= |hs| && forall m :: 0 <= m < |errors| ==> errors[m] == ErrorOf(ParseFile(buf, be, hs[m]))
    ensures ErrorOf(ParseFiles(buf, be, hs, |errors|)) == FirstOf(errors)
    decreases |errors|
  {
    hide ParseFile, FirstOf;
    FirstNone(errors);
    var n := |errors|;
    if n > 0 {
      AllFilesRefused(buf, be, hs, errors[..n - 1]);
      FirstStep(errors[..n - 1], errors[n - 1]);
      assert errors == errors[..n - 1] + [errors[n - 1]];
    }
  }

  // ------------------------------------------------------------------ the whole index

  function Files(game: Game, buf: bytes, be: bool, wide: bool, n: nat, at: nat): Result<seq<File>> {
    var d :- ParseDirectory(buf, at, be, wide, n);
    var hs :- ParseHeaders(game, buf, be, d, n);
    ParseFiles(buf, be, hs, |hs|)
  }

  lemma FilesRefused(game: Game, buf: bytes, be: bool, wide: bool, n: nat, at: nat)
    ensures ErrorOf(Files(game, buf, be, wide, n, at)) == FilesError(game, buf, be, wide, n, at)
  {
    hide ParseDirectory, ParseHeaders, ParseFiles, ParseBucket, ParseFile, ParseHeader, BucketError, RunError, FileError, FirstOf, Places, FirstFile,
      Announced, Beginning, RecordAt;
    var buckets := seq(n, i requires 0 <= i => BucketError(buf, RecordAt(at, wide, i), be, wide));
    forall i | 0 <= i < n
      ensures buckets[i] == ErrorOf(ParseBucket(buf, at + BucketWidth(wide) * i, be, wide))
    {
      RecordIs(at, wide, i);
      BucketRefused(buf, RecordAt(at, wide, i), be, wide);
    }
    DirectoryRefused(buf, at, be, wide, buckets);
    if ParseDirectory(buf, at, be, wide, n).Ok? {
      var d := ParseDirectory(buf, at, be, wide, n).value;
      IsDirected(buf, at, be, wide, n);
      var runs := seq(n, i requires 0 <= i =>
        var pos := RecordAt(at, wide, i); RunError(game, buf, be, Announced(buf, pos, be, wide), Beginning(buf, pos, be, wide)));
      RunsRefused(game, buf, be, d, runs);
      if ParseHeaders(game, buf, be, d, n).Ok? {
        var hs, places := ParseHeaders(game, buf, be, d, n).value, Places(buf, at, be, wide, n);
        HeadersPlaced(game, buf, at, be, wide, d, n);
        var files := seq(|places|, m requires 0 <= m < |places| => FileError(game, buf, places[m], be));
        forall m | 0 <= m < |files|
          ensures files[m] == ErrorOf(ParseFile(buf, be, hs[m]))
        {
          FileRefused(game, buf, places[m], be);
        }
        AllFilesRefused(buf, be, hs, files);
      }
    }
  }

  lemma RecordIs(at: nat, wide: bool, i: nat)
    ensures RecordAt(at, wide, i) == at + BucketWidth(wide) * i
  {
  }

  /** An index is refused with this error, or read if there is none. */
  lemma RefusedWith(game: Game, buf: bytes)
    ensures ErrorOf(ParseIndex(game, buf)) == IndexError(game, buf)
  {
    hide ParseLead, ParseCounts, ParseSalt, ParseDirectory, ParseHeaders, ParseFiles, BadMark, CountsError, SaltError, FilesError, IsWide, I32, I64, FirstFile;
    MarkRefused(buf);
    if ParseLead(buf).Ok? {
      var be := buf[4] == 0;
      CountsRefused(buf, be);
      if ParseCounts(buf, be).Ok? {
        var c := ParseCounts(buf, be).value;
        SaltRefused(buf, c.next, be);
        FilesRefused(game, buf, be, c.wide, c.buckets, c.at);
      }
    }
  }

  // ------------------------------------------------------------------ unwrapping

  /** A chunk that cannot be decrypted, has no digit but zero, or more than 255 of them. */
  ghost function ChunkError(rsa: Rsa, chunk: bytes): Option<Error> {
    var raw := rsa(chunk);
    if raw.Err? then Some(raw.error)
    else if forall i :: 0 <= i < |raw.value| ==> raw.value[i] == 0 then Some(Crypto)
    else if exists i :: 0 <= i < |raw.value| - 255 && raw.value[i] != 0 then Some(OutOfRange)
    else None
  }

  ghost function UnwrapError(rsa: Rsa, input: bytes): Option<Error> {
    if input == [] || |input| % 256 != 0 then Some(Crypto)
    else
      var chunks := FirstOf(seq(|input| / 256, i requires 0 <= i < |input| / 256 => ChunkError(rsa, input[256 * i..256 * i + 256])));
      if chunks.Some? then chunks
      else if exists plain :: Opens(rsa, input, plain) then None
      else Some(BadMagic)
  }

  lemma ChunkRefused(rsa: Rsa, input: bytes, i: nat)
    requires 256 * i + 256 <= |input|
    ensures ErrorOf(BlockAt(rsa, input, i)) == ChunkError(rsa, input[256 * i..256 * i + 256])
  {
    hide Strip, LeftPad;
    assert ChunkAt(input, i) == input[256 * i..256 * i + 256];
    var raw := rsa(ChunkAt(input, i));
    if raw.Ok? {
      StripIs(raw.value);
    }
  }

  lemma {:induction false} ChunksRefused(rsa: Rsa, input: bytes, errors: seq<Option<Error>>)
    requires 256 * |errors| <= |input|
    requires forall i :: 0 <= i < |errors| ==> errors[i] == ChunkError(rsa, input[256 * i..256 * i + 256])
    ensures ErrorOf(Blocks(rsa, input, |errors|)) == FirstOf(errors)
    decreases |errors|
  {
    hide BlockAt, ChunkError, FirstOf;
    FirstNone(errors);
    var n := |errors|;
    if n > 0 {
      ChunksRefused(rsa, input, errors[..n - 1]);
      ChunkRefused(rsa, input, n - 1);
      FirstStep(errors[..n - 1], errors[n - 1]);
      assert errors == errors[..n - 1] + [errors[n - 1]];
    }
  }

  /** A sealed text is refused with this error, or opened if there is none. */
  lemma NotUnwrapped(rsa: Rsa, input: bytes)
    ensures ErrorOf(Unwrap(rsa, input)) == UnwrapError(rsa, input)
  {
    hide Blocks, ChunkError, FirstOf, Opens;
    if input != [] && |input| % 256 == 0 {
      var n := |input| / 256;
      ChunksRefused(rsa, input, seq(n, i requires 0 <= i < n => ChunkError(rsa, input[256 * i..256 * i + 256])));
    }
    forall plain
      ensures Unwrap(rsa, input) == Ok(plain) <==> Opens(rsa, input, plain)
    {
      UnwrapExactly(rsa, input, plain);
    }
  }
}
