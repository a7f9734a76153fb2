/** The BHD5 index spelled out word by word: which bytes are read as which index, in both widths. */
module Bhd5Words {
  import opened Bytes
  import opened Reading
  import opened Words
  import opened Bhd5
  import opened Bhd5Parsing

  // ------------------------------------------------------------------ the words

  /** Longer than 40 bytes, with zero words at 20 and 28. */
  predicate IsWide(buf: bytes, be: bool) {
    |buf| > 40 && I32(buf, 20, be) == 0 && I32(buf, 28, be) == 0
  }

  ghost predicate Mark(buf: bytes, be: bool, unk05: bool) {
    && |buf| >= 16 && buf[..4] == [0x42, 0x48, 0x44, 0x35]
    && buf[4] == (if be then 0 else 0xFF) && buf[5] == (if unk05 then 1 else 0) && buf[6] == 0 && buf[7] == 0
    && I32(buf, 8, be) == 1
  }

  /** Bucket count and bucket offset, as eight bytes each or as four. */
  ghost predicate Counted(buf: bytes, be: bool, wide: bool, count: nat, at: nat) {
    if wide then |buf| >= 32 && I64(buf, 16, be) == count && I64(buf, 24, be) == at
    else |buf| >= 24 && I32(buf, 16, be) == count && I32(buf, 20, be) == at
  }

  /** A length, and behind it the salt up to its first zero byte, with a question mark for every byte that
      is not ASCII. */
  ghost predicate Salted(buf: bytes, pos: nat, be: bool, salt: bytes) {
    && pos + 4 <= |buf| && 0 <= I32(buf, pos, be) && pos + 4 + I32(buf, pos, be) <= |buf|
    && var n := I32(buf, pos, be);
       && |salt| <= n && (|salt| < n ==> buf[pos + 4 + |salt|] == 0)
       && forall i :: 0 <= i < |salt| ==> SaltByte(buf[pos + 4 + i], salt[i])
  }

  predicate SaltByte(stored: byte, c: byte) {
    stored != 0 && c == if stored < 0x80 then stored else 0x3F
  }

  /** The record of bucket `i`: its count and where its file headers stand; in wide records a one between. */
  ghost predicate BucketWords(buf: bytes, base: nat, i: nat, be: bool, wide: bool, count: nat, at: nat) {
    var pos := base + if wide then 16 * i else 8 * i;
    if wide then pos + 16 <= |buf| && I32(buf, pos, be) == count && I32(buf, pos + 4, be) == 1 && I64(buf, pos + 8, be) == at
    else pos + 8 <= |buf| && I32(buf, pos, be) == count && I32(buf, pos + 4, be) == at
  }

  /** A file header. Dark Souls 3 and Sekiro have short hashes and long sizes. */
  ghost predicate HeaderWords(game: Game, buf: bytes, pos: nat, be: bool, h: Header) {
    && pos + 40 <= |buf|
    && if game == DarkSouls3 || game == Sekiro then
         && U32(buf, pos, be) == h.pathHash && I32(buf, pos + 4, be) == h.padded && I64(buf, pos + 8, be) == h.offset
         && I64(buf, pos + 16, be) == h.shaAt && I64(buf, pos + 24, be) == h.aesAt && I64(buf, pos + 32, be) == h.unpadded
       else
         && U64(buf, pos, be) == h.pathHash && I32(buf, pos + 8, be) == h.padded && I32(buf, pos + 12, be) == h.unpadded
         && I64(buf, pos + 16, be) == h.offset && I64(buf, pos + 24, be) == h.shaAt && I64(buf, pos + 32, be) == h.aesAt
  }

  /** A record with a key of `size` bytes, a count, and pairs of 64-bit bounds; none at offset zero. */
  ghost predicate SealedWords(buf: bytes, at: nat, size: nat, be: bool, s: Option<Sealed>) {
    if s.None? then at == 0
    else
      var key, rs := s.value.key, s.value.ranges;
      && at != 0 && at + size + 4 + 16 * |rs| <= |buf| && |key| == size && buf[at..at + size] == key
      && I32(buf, at + size, be) == |rs| <= 1_000_000
      && forall k :: 0 <= k < |rs| ==> RangeWords(buf, at + size + 4, k, be, rs[k])
  }

  ghost predicate RangeWords(buf: bytes, base: nat, k: nat, be: bool, r: Range) {
    base + 16 * k + 16 <= |buf| && I64(buf, base + 16 * k, be) == r.start && I64(buf, base + 16 * k + 8, be) == r.end
  }

  /** Hash, sizes and offset from the header, a SHA record of 32 bytes and an AES record of 16. */
  ghost predicate FileWords(game: Game, buf: bytes, pos: nat, be: bool, f: File) {
    exists h :: HeaderWords(game, buf, pos, be, h) && FileOf(buf, be, h, f)
  }

  ghost predicate FileOf(buf: bytes, be: bool, h: Header, f: File) {
    && f.pathHash == h.pathHash && f.padded == h.padded && f.unpadded == h.unpadded && f.offset == h.offset
    && SealedWords(buf, h.shaAt, 32, be, f.sha) && SealedWords(buf, h.aesAt, 16, be, f.aes)
  }

  /** Bucket `i` with its files: forty bytes of header for each, from where its record points. */
  ghost predicate BucketCarried(buf: bytes, b: Index, base: nat, wide: bool, i: nat) {
    i < |b.buckets| && exists at: nat ::
      && BucketWords(buf, base, i, b.bigEndian, wide, b.buckets[i].count, at)
      && (b.buckets[i].count > 0 ==> at <= |buf|)
      && forall j :: 0 <= j < b.buckets[i].count ==> FileCarried(buf, b, i, at, j)
  }

  ghost predicate FileCarried(buf: bytes, b: Index, i: nat, at: nat, j: nat) {
    && i < |b.buckets| && b.buckets[i].firstFile + j < |b.files|
    && FileWords(b.game, buf, at + 40 * j, b.bigEndian, b.files[b.buckets[i].firstFile + j])
  }

  /** Every bucket begins where the one before it ends, the first with the first file and the last with
      the last. */
  ghost predicate Consecutive(buckets: seq<Bucket>, total: nat) {
    && (if buckets == [] then total == 0
        else buckets[0].firstFile == 0 && buckets[|buckets| - 1].firstFile + buckets[|buckets| - 1].count == total)
    && forall i, j :: 0 <= i && j == i + 1 < |buckets| ==> buckets[j].firstFile == buckets[i].firstFile + buckets[i].count
  }

  /** The bytes carry the index in one of the widths. */
  ghost predicate Carries(buf: bytes, b: Index, wide: bool) {
    && Mark(buf, b.bigEndian, b.unk05)
    && Salted(buf, if wide then 32 else 24, b.bigEndian, b.salt)
    && Consecutive(b.buckets, |b.files|)
    && exists at: nat :: Counted(buf, b.bigEndian, wide, |b.buckets|, at) && at <= |buf|
         && forall i :: 0 <= i < |b.buckets| ==> BucketCarried(buf, b, at, wide, i)
  }

  // ------------------------------------------------------------------ what the parser accepts

  lemma MarkRead(buf: bytes, be: bool, unk05: bool)
    ensures ParseLead(buf) == Ok(Lead(be, unk05)) <==> Mark(buf, be, unk05)
  {
    hide GetUInt, GetSInt, GetBool, ExpectByte, U32, I32;
    ReadOption(buf, 4, {0, 0xFF});
    ReadFlag(buf, 5);
    ReadOption(buf, 6, {0});
    ReadOption(buf, 7, {0});
    Read32(buf, 8, be);
    Read32(buf, 12, be);
    assert |buf| >= 4 ==> buf[0..4] == buf[..4];
  }

  lemma WidthRead(buf: bytes, be: bool)
    ensures LooksWide(buf, be) <==> IsWide(buf, be)
  {
    hide GetSInt, I32;
    Read32(buf, 20, be);
    Read32(buf, 28, be);
  }

  lemma CountsRead(buf: bytes, be: bool, count: nat, at: nat)
    ensures var wide := IsWide(buf, be);
      ParseCounts(buf, be) == Ok(Counts(wide, count, at, if wide then 32 else 24)) <==> Counted(buf, be, wide, count, at)
  {
    hide GetSInt, I32, I64, IsWide, LooksWide;
    WidthRead(buf, be);
    Read32(buf, 16, be);
    Read32(buf, 20, be);
    Read64(buf, 16, be);
    Read64(buf, 24, be);
  }

  /** The text that the decoder makes of a salt. */
  lemma SaltText(s: bytes, salt: bytes)
    ensures DecodeAscii(s) == salt <==>
      && |salt| <= |s| && (|salt| < |s| ==> s[|salt|] == 0)
      && forall i :: 0 <= i < |salt| ==> SaltByte(s[i], salt[i])
  {
    var t := AsciiText(s);
    assert forall i :: 0 <= i < |s| ==> (t[i] == 0 <==> s[i] == 0);
    if |salt| <= |s| && (|salt| < |s| ==> s[|salt|] == 0)
       && forall i :: 0 <= i < |salt| ==> SaltByte(s[i], salt[i]) {
      var z := ZeroFrom(t, 0);
      assert z == |salt|;
      assert t[..z] == salt;
    }
  }

  lemma SaltAt(buf: bytes, at: nat, s: bytes, salt: bytes)
    requires at + |s| <= |buf| && s == buf[at..at + |s|] && |salt| <= |s|
    ensures |salt| < |s| ==> s[|salt|] == buf[at + |salt|]
    ensures (forall i :: 0 <= i < |salt| ==> SaltByte(s[i], salt[i]))
       <==> forall i :: 0 <= i < |salt| ==> SaltByte(buf[at + i], salt[i])
  {
    hide SaltByte;
    SameBytes(buf, at, s);
    assert forall i :: 0 <= i < |salt| ==> s[i] == buf[at + i];
  }

  lemma SaltRead(buf: bytes, pos: nat, be: bool, salt: bytes)
    ensures ParseSalt(buf, pos, be) == Ok(salt) <==> Salted(buf, pos, be, salt)
  {
    hide GetSInt, I32, DecodeAscii;
    Read32(buf, pos, be);
    if pos + 4 <= |buf| && 0 <= I32(buf, pos, be) && pos + 4 + I32(buf, pos, be) <= |buf| {
      var s := buf[pos + 4..pos + 4 + I32(buf, pos, be)];
      SaltText(s, salt);
      if |salt| <= |s| {
        SaltAt(buf, pos + 4, s, salt);
      }
    }
  }

  lemma BucketRead(buf: bytes, base: nat, i: nat, be: bool, wide: bool, count: nat, at: nat)
    ensures ParseBucket(buf, base + BucketWidth(wide) * i, be, wide) == Ok(Spot(count, at)) <==> BucketWords(buf, base, i, be, wide, count, at)
  {
    hide GetSInt, I32, I64;
    var pos := base + BucketWidth(wide) * i;
    assert pos == base + if wide then 16 * i else 8 * i;
    Read32(buf, pos, be);
    Read32(buf, pos + 4, be);
    Read64(buf, pos + 8, be);
  }

  lemma HeaderRead(game: Game, buf: bytes, pos: nat, be: bool, h: Header)
    ensures ParseHeader(game, buf, pos, be) == Ok(h) <==> HeaderWords(game, buf, pos, be, h)
  {
    hide GetUInt, GetSInt, U32, U64, I32, I64;
    Read32(buf, pos, be);
    Read64(buf, pos, be);
    Read32(buf, pos + 4, be);
    Read32(buf, pos + 8, be);
    Read64(buf, pos + 8, be);
    Read32(buf, pos + 12, be);
    Read64(buf, pos + 16, be);
    Read64(buf, pos + 24, be);
    Read64(buf, pos + 32, be);
  }

  lemma RangesRead(buf: bytes, pos: nat, be: bool, rs: seq<Range>)
    requires pos + 16 * |rs| <= |buf|
    ensures ReadRanges(buf, pos, be, |rs|) == rs <==> forall k :: 0 <= k < |rs| ==> RangeWords(buf, pos, k, be, rs[k])
  {
    hide Dec, I64;
    var t := ReadRanges(buf, pos, be, |rs|);
    forall k | 0 <= k < |rs|
      ensures t[k] == rs[k] <==> RangeWords(buf, pos, k, be, rs[k])
    {
      Read64(buf, pos + 16 * k, be);
      Read64(buf, pos + 16 * k + 8, be);
    }
    assert t == rs <==> forall k :: 0 <= k < |rs| ==> t[k] == rs[k];
  }

  lemma SealedRead(buf: bytes, at: nat, size: nat, be: bool, s: Option<Sealed>)
    ensures ParseSealed(buf, at, size, be) == Ok(s) <==> SealedWords(buf, at, size, be, s)
  {
    hide GetSInt, I32, ReadRanges, RangeWords;
    Read32(buf, at + size, be);
    if s.Some? && at + size + 4 + 16 * |s.value.ranges| <= |buf| {
      RangesRead(buf, at + size + 4, be, s.value.ranges);
    }
  }

  lemma FileRead(buf: bytes, be: bool, h: Header, f: File)
    ensures ParseFile(buf, be, h) == Ok(f) <==> FileOf(buf, be, h, f)
  {
    hide ParseSealed, SealedWords;
    SealedRead(buf, h.shaAt, 32, be, f.sha);
    SealedRead(buf, h.aesAt, 16, be, f.aes);
  }

  // ------------------------------------------------------------------ buckets

  ghost predicate Placed(buckets: seq<Bucket>) {
    forall i :: 0 <= i < |buckets| ==> buckets[i].firstFile == FirstFile(buckets, i)
  }

  lemma {:induction false} ConsecutivePlaced(buckets: seq<Bucket>, k: nat)
    requires k < |buckets| && buckets[0].firstFile == 0
    requires forall i, j :: 0 <= i && j == i + 1 < |buckets| ==> buckets[j].firstFile == buckets[i].firstFile + buckets[i].count
    ensures buckets[k].firstFile == FirstFile(buckets, k)
  {
    if k > 0 {
      ConsecutivePlaced(buckets, k - 1);
    }
  }

  lemma ConsecutiveIs(buckets: seq<Bucket>, total: nat)
    ensures Consecutive(buckets, total) <==> Placed(buckets) && FirstFile(buckets, |buckets|) == total
  {
    if buckets != [] && buckets[0].firstFile == 0
       && forall i, j :: 0 <= i && j == i + 1 < |buckets| ==> buckets[j].firstFile == buckets[i].firstFile + buckets[i].count {
      forall k | 0 <= k < |buckets|
        ensures buckets[k].firstFile == FirstFile(buckets, k)
      {
        ConsecutivePlaced(buckets, k);
      }
    }
  }

  ghost predicate Listed(buf: bytes, base: nat, be: bool, wide: bool, buckets: seq<Bucket>, offsets: seq<nat>) {
    && |buckets| == |offsets|
    && forall i :: 0 <= i < |buckets| ==> BucketWords(buf, base, i, be, wide, buckets[i].count, offsets[i])
  }

  lemma ListedSnoc(buf: bytes, base: nat, be: bool, wide: bool, e: Directory, x: Bucket, at: nat)
    requires |e.buckets| == |e.offsets|
    ensures Placed(e.buckets + [x]) <==> Placed(e.buckets) && x.firstFile == FirstFile(e.buckets, |e.buckets|)
    ensures Listed(buf, base, be, wide, e.buckets + [x], e.offsets + [at])
       <==> Listed(buf, base, be, wide, e.buckets, e.offsets) && BucketWords(buf, base, |e.buckets|, be, wide, x.count, at)
  {
    hide BucketWords, FirstFile;
    var bs, os := e.buckets + [x], e.offsets + [at];
    PlacedPrefix(bs, |e.buckets|);
    assert bs[..|e.buckets|] == e.buckets;
    assert forall i :: 0 <= i < |e.buckets| ==> bs[i] == e.buckets[i] && os[i] == e.offsets[i];
    assert bs[|e.buckets|] == x && os[|e.buckets|] == at;
  }

  lemma {:induction false} DirectoryFound(buf: bytes, base: nat, be: bool, wide: bool, d: Directory, n: nat)
    requires ParseDirectory(buf, base, be, wide, n) == Ok(d)
    ensures |d.buckets| == |d.offsets| == n && Placed(d.buckets) && Listed(buf, base, be, wide, d.buckets, d.offsets)
    decreases n
  {
    hide ParseBucket, BucketWords, BucketWidth, Placed, Listed, FirstFile;
    if n == 0 {
      NothingListed(buf, base, be, wide);
    } else {
      var e := ParseDirectory(buf, base, be, wide, n - 1).value;
      DirectoryFound(buf, base, be, wide, e, n - 1);
      BucketRead(buf, base, n - 1, be, wide, d.buckets[n - 1].count, d.offsets[n - 1]);
      ListedSnoc(buf, base, be, wide, e, d.buckets[n - 1], d.offsets[n - 1]);
    }
  }

  lemma NothingListed(buf: bytes, base: nat, be: bool, wide: bool)
    ensures Placed([]) && Listed(buf, base, be, wide, [], [])
  {
  }

  lemma {:induction false} DirectoryRead(buf: bytes, base: nat, be: bool, wide: bool, d: Directory, n: nat)
    requires |d.buckets| == |d.offsets| == n && Placed(d.buckets) && Listed(buf, base, be, wide, d.buckets, d.offsets)
    ensures ParseDirectory(buf, base, be, wide, n) == Ok(d)
    decreases n
  {
    hide ParseBucket, BucketWords, BucketWidth, Placed, Listed, FirstFile;
    if n == 0 {
      assert d == Directory([], []);
    } else {
      var e := Directory(d.buckets[..n - 1], d.offsets[..n - 1]);
      assert d.buckets == e.buckets + [d.buckets[n - 1]] && d.offsets == e.offsets + [d.offsets[n - 1]];
      ListedSnoc(buf, base, be, wide, e, d.buckets[n - 1], d.offsets[n - 1]);
      DirectoryRead(buf, base, be, wide, e, n - 1);
      BucketRead(buf, base, n - 1, be, wide, d.buckets[n - 1].count, d.offsets[n - 1]);
      DirectoryStep(buf, base, be, wide, n - 1, e, Spot(d.buckets[n - 1].count, d.offsets[n - 1]));
    }
  }

  lemma PlacedPrefix(buckets: seq<Bucket>, k: nat)
    requires k <= |buckets|
    ensures forall i :: 0 <= i <= k ==> FirstFile(buckets[..k], i) == FirstFile(buckets, i)
    ensures Placed(buckets) ==> Placed(buckets[..k])
    ensures k == |buckets| - 1 && Placed(buckets[..k]) && buckets[k].firstFile == FirstFile(buckets, k) ==> Placed(buckets)
  {
    hide FirstFile;
    forall i | 0 <= i <= k
      ensures FirstFile(buckets[..k], i) == FirstFile(buckets, i)
    {
      assert buckets[..k][..i] == buckets[..i];
      FirstFilePrefix(buckets[..k], buckets, i);
    }
  }

  // ------------------------------------------------------------------ headers and files

  /** File `j` behind `at` is read as `f`. */
  ghost predicate FileFound(game: Game, buf: bytes, at: nat, j: nat, be: bool, f: File) {
    var h := ParseHeader(game, buf, at + HEADER_SIZE * j, be);
    h.Ok? && ParseFile(buf, be, h.value) == Ok(f)
  }

  lemma FoundIs(game: Game, buf: bytes, at: nat, j: nat, be: bool, f: File)
    ensures FileFound(game, buf, at, j, be, f) <==> FileWords(game, buf, at + 40 * j, be, f)
  {
    hide ParseHeader, ParseFile, HeaderWords, FileOf;
    var pos := at + 40 * j;
    var r := ParseHeader(game, buf, pos, be);
    if r.Ok? {
      HeaderRead(game, buf, pos, be, r.value);
      FileRead(buf, be, r.value, f);
    }
    if FileWords(game, buf, pos, be, f) {
      var h :| HeaderWords(game, buf, pos, be, h) && FileOf(buf, be, h, f);
      HeaderRead(game, buf, pos, be, h);
    }
  }

  /** The headers of a bucket, and the files that belong to them. */
  ghost predicate RunFound(game: Game, buf: bytes, at: nat, be: bool, files: seq<File>, from: nat, n: nat) {
    from + n <= |files| && forall k :: from <= k < from + n ==> FileFound(game, buf, at, k - from, be, files[k])
  }

  lemma {:induction false} RunRead(game: Game, buf: bytes, at: nat, be: bool, files: seq<File>, from: nat, n: nat)
    requires RunFound(game, buf, at, be, files, from, n)
    ensures var r := ParseRun(game, buf, at, be, n);
      r.Ok? && forall k :: from <= k < from + n ==> ParseFile(buf, be, r.value[k - from]) == Ok(files[k])
  {
    hide ParseHeader, ParseFile;
    if n > 0 {
      RunRead(game, buf, at, be, files, from, n - 1);
      assert FileFound(game, buf, at, from + n - 1 - from, be, files[from + n - 1]);
    }
  }

  lemma {:induction false} RunFoundBack(game: Game, buf: bytes, at: nat, be: bool, files: seq<File>, from: nat, n: nat)
    requires from + n <= |files|
    requires var r := ParseRun(game, buf, at, be, n);
      r.Ok? && forall k :: from <= k < from + n ==> ParseFile(buf, be, r.value[k - from]) == Ok(files[k])
    ensures RunFound(game, buf, at, be, files, from, n)
  {
    hide ParseHeader, ParseFile;
    if n > 0 {
      var init, r := ParseRun(game, buf, at, be, n - 1).value, ParseRun(game, buf, at, be, n).value;
      assert r[..n - 1] == init;
      RunFoundBack(game, buf, at, be, files, from, n - 1);
    }
  }

  /** All buckets up to the `k`-th. */
  ghost predicate BucketsFound(game: Game, buf: bytes, be: bool, d: Directory, files: seq<File>, k: nat) {
    && k <= |d.buckets| == |d.offsets|
    && forall i :: 0 <= i < k && d.buckets[i].count > 0 ==>
         d.offsets[i] <= |buf| && RunFound(game, buf, d.offsets[i], be, files, FirstFile(d.buckets, i), d.buckets[i].count)
  }

  ghost predicate FilesOf(buf: bytes, be: bool, hs: seq<Header>, files: seq<File>) {
    |hs| <= |files| && forall m :: 0 <= m < |hs| ==> ParseFile(buf, be, hs[m]) == Ok(files[m])
  }

  lemma FilesJoin(buf: bytes, be: bool, s: seq<Header>, t: seq<Header>, files: seq<File>)
    requires |s| + |t| <= |files|
    ensures FilesOf(buf, be, s + t, files) <==>
      FilesOf(buf, be, s, files) && forall k :: |s| <= k < |s| + |t| ==> ParseFile(buf, be, t[k - |s|]) == Ok(files[k])
  {
    hide ParseFile;
    var u := s + t;
    assert forall m :: 0 <= m < |s| ==> u[m] == s[m];
    assert forall k :: |s| <= k < |s| + |t| ==> u[k] == t[k - |s|];
  }

  lemma {:induction false} BucketsRead(game: Game, buf: bytes, be: bool, d: Directory, files: seq<File>, k: nat)
    requires BucketsFound(game, buf, be, d, files, k) && FirstFile(d.buckets, k) <= |files|
    ensures var r := ParseHeaders(game, buf, be, d, k); r.Ok? && FilesOf(buf, be, r.value, files)
  {
    hide ParseRun, ParseFile, RunFound, FilesOf;
    if k == 0 {
      NoFilesOf(buf, be, files);
    } else {
      var from, n := FirstFile(d.buckets, k - 1), d.buckets[k - 1].count;
      BucketsRead(game, buf, be, d, files, k - 1);
      if n > 0 {
        RunRead(game, buf, d.offsets[k - 1], be, files, from, n);
        FilesJoin(buf, be, ParseHeaders(game, buf, be, d, k - 1).value, ParseRun(game, buf, d.offsets[k - 1], be, n).value, files);
      }
    }
  }

  lemma NoFilesOf(buf: bytes, be: bool, files: seq<File>)
    ensures FilesOf(buf, be, [], files)
  {
  }

  lemma {:induction false} BucketsFoundBack(game: Game, buf: bytes, be: bool, d: Directory, files: seq<File>, k: nat)
    requires k <= |d.buckets| == |d.offsets| && FirstFile(d.buckets, k) <= |files|
    requires var r := ParseHeaders(game, buf, be, d, k); r.Ok? && FilesOf(buf, be, r.value, files)
    ensures BucketsFound(game, buf, be, d, files, k)
  {
    hide ParseRun, ParseFile, RunFound, FilesOf;
    if k > 0 {
      var from, n := FirstFile(d.buckets, k - 1), d.buckets[k - 1].count;
      if n > 0 {
        FilesJoin(buf, be, ParseHeaders(game, buf, be, d, k - 1).value, ParseRun(game, buf, d.offsets[k - 1], be, n).value, files);
        RunFoundBack(game, buf, d.offsets[k - 1], be, files, from, n);
      }
      BucketsFoundBack(game, buf, be, d, files, k - 1);
    }
  }

  lemma {:induction false} FilesRead(buf: bytes, be: bool, hs: seq<Header>, files: seq<File>, k: nat)
    requires k <= |hs| == |files|
    ensures FilesOf(buf, be, hs[..k], files) <==> ParseFiles(buf, be, hs, k) == Ok(files[..k])
  {
    hide ParseFile;
    if k > 0 {
      FilesRead(buf, be, hs, files, k - 1);
      FilesJoin(buf, be, hs[..k - 1], [hs[k - 1]], files);
      assert hs[..k] == hs[..k - 1] + [hs[k - 1]] && files[..k] == files[..k - 1] + [files[k - 1]];
      var r := ParseFiles(buf, be, hs, k - 1);
      if r.Ok? && ParseFile(buf, be, hs[k - 1]).Ok? && r.value + [ParseFile(buf, be, hs[k - 1]).value] == files[..k] {
        assert r.value == files[..k][..k - 1] == files[..k - 1];
        assert ParseFile(buf, be, hs[k - 1]).value == files[..k][k - 1];
      }
    }
  }

  // ------------------------------------------------------------------ the whole index

  lemma OneFileCarried(buf: bytes, b: Index, i: nat, at: nat, k: nat)
    requires i < |b.buckets| && b.buckets[i].firstFile <= k < |b.files|
    ensures FileFound(b.game, buf, at, k - b.buckets[i].firstFile, b.bigEndian, b.files[k])
       <==> FileCarried(buf, b, i, at, k - b.buckets[i].firstFile)
  {
    hide FileFound, FileWords;
    FoundIs(b.game, buf, at, k - b.buckets[i].firstFile, b.bigEndian, b.files[k]);
  }

  lemma CarriedFound(buf: bytes, b: Index, i: nat, at: nat)
    requires i < |b.buckets| && b.buckets[i].firstFile + b.buckets[i].count <= |b.files|
    requires forall j :: 0 <= j < b.buckets[i].count ==> FileCarried(buf, b, i, at, j)
    ensures RunFound(b.game, buf, at, b.bigEndian, b.files, b.buckets[i].firstFile, b.buckets[i].count)
  {
    hide FileFound, FileCarried;
    var from := b.buckets[i].firstFile;
    forall k | from <= k < from + b.buckets[i].count
      ensures FileFound(b.game, buf, at, k - from, b.bigEndian, b.files[k])
    {
      OneFileCarried(buf, b, i, at, k);
    }
  }

  lemma FoundCarried(buf: bytes, b: Index, i: nat, at: nat)
    requires i < |b.buckets|
    requires RunFound(b.game, buf, at, b.bigEndian, b.files, b.buckets[i].firstFile, b.buckets[i].count)
    ensures forall j :: 0 <= j < b.buckets[i].count ==> FileCarried(buf, b, i, at, j)
  {
    hide FileFound, FileCarried;
    var from := b.buckets[i].firstFile;
    forall j | 0 <= j < b.buckets[i].count
      ensures FileCarried(buf, b, i, at, j)
    {
      var k := from + j;
      assert FileFound(b.game, buf, at, k - from, b.bigEndian, b.files[k]);
      OneFileCarried(buf, b, i, at, k);
      assert k - from == j;
    }
  }

  lemma BucketWithin(buckets: seq<Bucket>, i: nat)
    requires Placed(buckets) && i < |buckets|
    ensures buckets[i].firstFile == FirstFile(buckets, i)
    ensures FirstFile(buckets, i) + buckets[i].count <= FirstFile(buckets, |buckets|)
  {
    FirstFileMonotone(buckets, i + 1, |buckets|);
  }

  /** The offsets to which the records of the first `k` buckets point. */
  lemma {:induction false} Offsets(buf: bytes, b: Index, base: nat, wide: bool, k: nat) returns (offsets: seq<nat>)
    requires k <= |b.buckets| && Placed(b.buckets) && FirstFile(b.buckets, |b.buckets|) == |b.files|
    requires forall i :: 0 <= i < k ==> BucketCarried(buf, b, base, wide, i)
    ensures |offsets| == k && Listed(buf, base, b.bigEndian, wide, b.buckets[..k], offsets)
    ensures forall i :: 0 <= i < k && b.buckets[i].count > 0 ==>
      offsets[i] <= |buf| && RunFound(b.game, buf, offsets[i], b.bigEndian, b.files, FirstFile(b.buckets, i), b.buckets[i].count)
  {
    hide BucketWords, RunFound, FileCarried, Placed;
    if k == 0 {
      offsets := [];
    } else {
      offsets := Offsets(buf, b, base, wide, k - 1);
      var i := k - 1;
      var x := b.buckets[i];
      assert BucketCarried(buf, b, base, wide, i);
      var at: nat :| BucketWords(buf, base, i, b.bigEndian, wide, x.count, at) && (x.count > 0 ==> at <= |buf|)
        && forall j :: 0 <= j < x.count ==> FileCarried(buf, b, i, at, j);
      BucketWithin(b.buckets, i);
      if x.count > 0 {
        CarriedFound(buf, b, i, at);
      }
      offsets := offsets + [at];
    }
  }

  lemma CarriedIsRead(buf: bytes, b: Index)
    requires Carries(buf, b, IsWide(buf, b.bigEndian))
    ensures ParseIndex(b.game, buf) == Ok(b)
  {
    hide Mark, Counted, Salted, IsWide, BucketCarried, Consecutive, Placed, Listed, RunFound, FilesOf, ParseLead, ParseCounts, ParseSalt, ParseDirectory,
      ParseHeaders, ParseFiles;
    var be, wide := b.bigEndian, IsWide(buf, b.bigEndian);
    var at: nat :| Counted(buf, be, wide, |b.buckets|, at) && at <= |buf| && forall i :: 0 <= i < |b.buckets| ==> BucketCarried(buf, b, at, wide, i);
    MarkRead(buf, be, b.unk05);
    CountsRead(buf, be, |b.buckets|, at);
    SaltRead(buf, if wide then 32 else 24, be, b.salt);
    ConsecutiveIs(b.buckets, |b.files|);
    var offsets := Offsets(buf, b, at, wide, |b.buckets|);
    assert b.buckets[..|b.buckets|] == b.buckets;
    var d := Directory(b.buckets, offsets);
    DirectoryRead(buf, at, be, wide, d, |b.buckets|);
    BucketsRead(b.game, buf, be, d, b.files, |b.buckets|);
    var hs := ParseHeaders(b.game, buf, be, d, |b.buckets|).value;
    FilesRead(buf, be, hs, b.files, |hs|);
    assert hs[..|hs|] == hs && b.files[..|b.files|] == b.files;
  }

  lemma ReadIsCarried(game: Game, buf: bytes, b: Index)
    requires ParseIndex(game, buf) == Ok(b)
    ensures b.game == game && Carries(buf, b, IsWide(buf, b.bigEndian))
  {
    hide Mark, Counted, Salted, IsWide, BucketCarried, Consecutive, Placed, Listed, RunFound, FilesOf, ParseLead, ParseCounts, ParseSalt, ParseDirectory,
      ParseHeaders, ParseFiles, BucketsFound, LooksWide;
    var lead := ParseLead(buf).value;
    var be := lead.be;
    var counts := ParseCounts(buf, be).value;
    CountsShape(buf, be);
    var d := ParseDirectory(buf, counts.at, be, counts.wide, counts.buckets).value;
    var hs := ParseHeaders(game, buf, be, d, counts.buckets).value;
    MarkRead(buf, be, lead.unk05);
    CountsRead(buf, be, counts.buckets, counts.at);
    SaltRead(buf, counts.next, be, b.salt);
    DirectoryFound(buf, counts.at, be, counts.wide, d, counts.buckets);
    ConsecutiveIs(b.buckets, |b.files|);
    assert hs[..|hs|] == hs && b.files[..|hs|] == b.files;
    FilesRead(buf, be, hs, b.files, |hs|);
    BucketsFoundBack(game, buf, be, d, b.files, |b.buckets|);
    forall i | 0 <= i < |b.buckets|
      ensures BucketCarried(buf, b, counts.at, counts.wide, i)
    {
      OneCarried(buf, b, counts.at, counts.wide, d, i);
    }
  }

  lemma CountsShape(buf: bytes, be: bool)
    ensures var r := ParseCounts(buf, be);
      r.Ok? ==> r.value.wide == IsWide(buf, be) && r.value.next == if r.value.wide then 32 else 24
  {
    hide IsWide, LooksWide;
    WidthRead(buf, be);
  }

  lemma OneCarried(buf: bytes, b: Index, base: nat, wide: bool, d: Directory, i: nat)
    requires d.buckets == b.buckets && Placed(b.buckets) && FirstFile(b.buckets, |b.buckets|) == |b.files| && i < |b.buckets|
    requires BucketsFound(b.game, buf, b.bigEndian, d, b.files, |b.buckets|) && Listed(buf, base, b.bigEndian, wide, d.buckets, d.offsets)
    ensures BucketCarried(buf, b, base, wide, i)
  {
    hide BucketWords, RunFound, FileCarried;
    var at := d.offsets[i];
    BucketWithin(b.buckets, i);
    if b.buckets[i].count > 0 {
      FoundCarried(buf, b, i, at);
    }
    assert BucketWords(buf, base, i, b.bigEndian, wide, b.buckets[i].count, at);
  }

  /** What is read, to the word: the parser returns an index exactly for the bytes that carry it, in the
      width that the bytes themselves decide. */
  lemma ReadExactly(game: Game, buf: bytes, b: Index)
    ensures ParseIndex(game, buf) == Ok(b) <==> b.game == game && Carries(buf, b, IsWide(buf, b.bigEndian))
  {
    hide ParseIndex, Carries, IsWide;
    if ParseIndex(game, buf) == Ok(b) {
      ReadIsCarried(game, buf, b);
    }
    if b.game == game && Carries(buf, b, IsWide(buf, b.bigEndian)) {
      CarriedIsRead(buf, b);
    }
  }
}
