/** What reading a BHD5 index means, as a function of the buffer; which indices it can produce;
    and exactly which of them survive being written and read back. */
module Bhd5Parsing {
  import opened Bytes
  import opened Reading
  import opened Bhd5

  predicate IsAscii(s: bytes) {
    forall i :: 0 <= i < |s| ==> s[i] < 0x80
  }

  const QUESTION_MARK: byte := 0x3F

  /** ASCII as text: every other byte becomes a question mark. */
  function AsciiText(s: bytes): (t: bytes)
    ensures |t| == |s| && IsAscii(t) && (IsAscii(s) ==> t == s)
  {
    seq(|s|, i requires 0 <= i < |s| => if s[i] < 0x80 then s[i] else QUESTION_MARK)
  }

  /** The conversion, with its way out for plain ASCII. */
  method AsciiToText(s: bytes) returns (t: bytes)
    ensures t == AsciiText(s)
  {
    var i, clean := 0, true;
    while i < |s| && clean
      invariant i <= |s| && (clean ==> IsAscii(s[..i])) && (!clean ==> !IsAscii(s))
    {
      clean, i := s[i] < 0x80, i + 1;
    }
    if clean {
      assert s[..i] == s;
      return s;
    }
    t := [];
    for j := 0 to |s|
      invariant t == AsciiText(s)[..j]
    {
      t := t + [if s[j] < 0x80 then s[j] else QUESTION_MARK];
    }
  }

  /** A decoded text as a C string ends at its first NUL. */
  function CString(s: bytes): bytes {
    s[..ZeroFrom(s, 0)]
  }

  function DecodeAscii(s: bytes): bytes {
    CString(AsciiText(s))
  }

  function NonNeg(buf: bytes, pos: nat, be: bool): (r: Result<nat>) {
    var v :- GetSInt(buf, pos, be, 4);
    if v < 0 then Err(OutOfRange) else Ok(v)
  }

  // ------------------------------------------------------------------ the head

  datatype Lead = Lead(be: bool, unk05: bool)
  datatype Counts = Counts(wide: bool, buckets: nat, at: nat, next: nat)

  function ParseLead(buf: bytes): Result<Lead> {
    var _ :- ExpectBytes(buf, 0, MAGIC);
    var e :- ExpectByte(buf, 4, {0, 0xFF});
    var unk05 :- GetBool(buf, 5);
    var _ :- ExpectByte(buf, 6, {0});
    var _ :- ExpectByte(buf, 7, {0});
    var _ :- ExpectSInt(buf, 8, e == 0, 4, 1);
    var _ :- GetSInt(buf, 12, e == 0, 4);
    Ok(Lead(e == 0, unk05))
  }

  /** The guess whether counts and offsets are 64 bits wide. */
  function LooksWide(buf: bytes, be: bool): bool {
    |buf| > 0x28 && GetSInt(buf, 0x14, be, 4) == Ok(0) && GetSInt(buf, 0x1C, be, 4) == Ok(0)
  }

  function ParseCounts(buf: bytes, be: bool): Result<Counts> {
    if LooksWide(buf, be) then
      var n :- GetSInt(buf, 16, be, 8);
      var at :- GetSInt(buf, 24, be, 8);
      if n < 0 || at < 0 then Err(OutOfRange) else Ok(Counts(true, n, at, 32))
    else
      var n :- NonNeg(buf, 16, be);
      var at :- NonNeg(buf, 20, be);
      Ok(Counts(false, n, at, 24))
  }

  function ParseSalt(buf: bytes, pos: nat, be: bool): Result<bytes> {
    var n :- NonNeg(buf, pos, be);
    var s :- Take(buf, pos + 4, n);
    Ok(DecodeAscii(s))
  }

  // ------------------------------------------------------------------ buckets and headers

  /** The buckets, and where the file headers of each stand. */
  datatype Directory = Directory(buckets: seq<Bucket>, offsets: seq<nat>)

  datatype Spot = Spot(count: nat, offset: nat)

  function ParseBucket(buf: bytes, pos: nat, be: bool, wide: bool): Result<Spot> {
    var count :- NonNeg(buf, pos, be);
    if wide then
      var flag :- GetSInt(buf, pos + 4, be, 4);
      if flag != 1 then Err(BadMagic)
      else
        var off :- GetSInt(buf, pos + 8, be, 8);
        if off < 0 then Err(OutOfRange) else Ok(Spot(count, off))
    else
      var off :- NonNeg(buf, pos + 4, be);
      Ok(Spot(count, off))
  }

  function BucketWidth(wide: bool): nat { if wide then 16 else 8 }

  function ParseDirectory(buf: bytes, pos: nat, be: bool, wide: bool, n: nat): (r: Result<Directory>)
    ensures r.Ok? ==> |r.value.buckets| == |r.value.offsets| == n
  {
    if n == 0 then Ok(Directory([], []))
    else
      var init :- ParseDirectory(buf, pos, be, wide, n - 1);
      var spot :- ParseBucket(buf, pos + BucketWidth(wide) * (n - 1), be, wide);
      Ok(Directory(init.buckets + [Bucket(spot.count, FirstFile(init.buckets, n - 1))], init.offsets + [spot.offset]))
  }

  lemma DirectoryStep(buf: bytes, pos: nat, be: bool, wide: bool, n: nat, d: Directory, spot: Spot)
    requires ParseDirectory(buf, pos, be, wide, n) == Ok(d)
    requires ParseBucket(buf, pos + BucketWidth(wide) * n, be, wide) == Ok(spot)
    ensures |d.buckets| == |d.offsets| == n
    ensures ParseDirectory(buf, pos, be, wide, n + 1)
         == Ok(Directory(d.buckets + [Bucket(spot.count, FirstFile(d.buckets, n))], d.offsets + [spot.offset]))
  {
    hide ParseBucket;
  }

  /** A file header as read, its ranges still behind their offsets. */
  datatype Header = Header(pathHash: nat, padded: nat, unpadded: nat, offset: nat, shaAt: nat, aesAt: nat)

  function MakeHeader(pathHash: nat, padded: nat, unpadded: int, offset: int, shaAt: int, aesAt: int): Result<Header> {
    if unpadded < 0 || offset < 0 || shaAt < 0 || aesAt < 0 then Err(OutOfRange)
    else Ok(Header(pathHash, padded, unpadded, offset, shaAt, aesAt))
  }

  function ParseHeader(game: Game, buf: bytes, pos: nat, be: bool): Result<Header> {
    if Narrow(game) then
      var pathHash :- GetUInt(buf, pos, be, 4);
      var padded :- NonNeg(buf, pos + 4, be);
      var offset :- GetSInt(buf, pos + 8, be, 8);
      var shaAt :- GetSInt(buf, pos + 16, be, 8);
      var aesAt :- GetSInt(buf, pos + 24, be, 8);
      var unpadded :- GetSInt(buf, pos + 32, be, 8);
      MakeHeader(pathHash, padded, unpadded, offset, shaAt, aesAt)
    else
      var pathHash :- GetUInt(buf, pos, be, 8);
      var padded :- NonNeg(buf, pos + 8, be);
      var unpadded :- NonNeg(buf, pos + 12, be);
      var offset :- GetSInt(buf, pos + 16, be, 8);
      var shaAt :- GetSInt(buf, pos + 24, be, 8);
      var aesAt :- GetSInt(buf, pos + 32, be, 8);
      MakeHeader(pathHash, padded, unpadded, offset, shaAt, aesAt)
  }

  function ParseRun(game: Game, buf: bytes, pos: nat, be: bool, n: nat): (r: Result<seq<Header>>)
    ensures r.Ok? ==> |r.value| == n
  {
    if n == 0 then Ok([])
    else
      var init :- ParseRun(game, buf, pos, be, n - 1);
      var h :- ParseHeader(game, buf, pos + HEADER_SIZE * (n - 1), be);
      Ok(init + [h])
  }

  /** The headers of the first `k` buckets; the offset of an empty bucket is never looked at. */
  function ParseHeaders(game: Game, buf: bytes, be: bool, d: Directory, k: nat): (r: Result<seq<Header>>)
    requires k <= |d.buckets| == |d.offsets|
    ensures r.Ok? ==> |r.value| == FirstFile(d.buckets, k)
  {
    if k == 0 then Ok([])
    else
      var init :- ParseHeaders(game, buf, be, d, k - 1);
      if d.buckets[k - 1].count == 0 then Ok(init)
      else
        var p :- SeekTo(buf, d.offsets[k - 1]);
        var run :- ParseRun(game, buf, p, be, d.buckets[k - 1].count);
        Ok(init + run)
  }

  // ------------------------------------------------------------------ range records

  function ReadRange(buf: bytes, pos: nat, be: bool): Range
    requires pos + 16 <= |buf|
  {
    Range(Signed(Dec(be, buf[pos..pos + 8]), 8), Signed(Dec(be, buf[pos + 8..pos + 16]), 8))
  }

  function ReadRanges(buf: bytes, pos: nat, be: bool, n: nat): (s: seq<Range>)
    requires pos + 16 * n <= |buf|
    ensures |s| == n
    ensures forall i :: 0 <= i < n ==> s[i] == ReadRange(buf, pos + 16 * i, be)
  {
    seq(n, i requires 0 <= i < n => ReadRange(buf, pos + 16 * i, be))
  }

  /** The number of ranges of a record, if that many can follow. */
  function RangeCount(buf: bytes, pos: nat, keySize: nat, be: bool): (r: Result<nat>)
    ensures r.Ok? ==> pos + keySize + 4 + 16 * r.value <= |buf| && r.value <= MAX_RANGES
  {
    var _ :- Take(buf, pos, keySize);
    var n :- NonNeg(buf, pos + keySize, be);
    if n > MAX_RANGES || 16 * n > |buf| - (pos + keySize + 4) then Err(Truncated) else Ok(n)
  }

  function ParseSealed(buf: bytes, off: nat, keySize: nat, be: bool): Result<Option<Sealed>> {
    if off == 0 then Ok(None)
    else
      var pos :- SeekTo(buf, off);
      var n :- RangeCount(buf, pos, keySize, be);
      Ok(Some(Sealed(buf[pos..pos + keySize], ReadRanges(buf, pos + keySize + 4, be, n))))
  }

  function ParseFile(buf: bytes, be: bool, h: Header): Result<File> {
    var sha :- ParseSealed(buf, h.shaAt, SHA_SIZE, be);
    var aes :- ParseSealed(buf, h.aesAt, AES_SIZE, be);
    Ok(File(h.pathHash, h.padded, h.unpadded, h.offset, sha, aes))
  }

  function ParseFiles(buf: bytes, be: bool, hs: seq<Header>, k: nat): (r: Result<seq<File>>)
    requires k <= |hs|
    ensures r.Ok? ==> |r.value| == k
  {
    if k == 0 then Ok([])
    else
      var init :- ParseFiles(buf, be, hs, k - 1);
      var f :- ParseFile(buf, be, hs[k - 1]);
      Ok(init + [f])
  }

  function ParseIndex(game: Game, buf: bytes): Result<Index> {
    var lead :- ParseLead(buf);
    var counts :- ParseCounts(buf, lead.be);
    var salt :- ParseSalt(buf, counts.next, lead.be);
    var at :- SeekTo(buf, counts.at);
    var d :- ParseDirectory(buf, at, lead.be, counts.wide, counts.buckets);
    var hs :- ParseHeaders(game, buf, lead.be, d, counts.buckets);
    var files :- ParseFiles(buf, lead.be, hs, |hs|);
    Ok(Index(game, lead.be, lead.unk05, salt, d.buckets, files))
  }

  // ------------------------------------------------------------------ what a reader can produce

  ghost predicate SealedOk(s: Option<Sealed>, keySize: nat) {
    s.Some? ==>
      && |s.value.key| == keySize && |s.value.ranges| <= MAX_RANGES
      && forall i :: 0 <= i < |s.value.ranges| ==> Fits(s.value.ranges[i].start, 8) && Fits(s.value.ranges[i].end, 8)
  }

  ghost predicate FileOk(game: Game, f: File) {
    && f.pathHash < (if Narrow(game) then Pow256(4) else Pow256(8))
    && Fits(f.padded, 4)
    && Fits(f.unpadded, if Narrow(game) then 8 else 4)
    && 0 <= f.offset && Fits(f.offset, 8)
    && SealedOk(f.sha, SHA_SIZE) && SealedOk(f.aes, AES_SIZE)
  }

  /** The buckets tile the file list, in order. */
  ghost predicate Partition(buckets: seq<Bucket>, total: nat) {
    && FirstFile(buckets, |buckets|) == total
    && forall i :: 0 <= i < |buckets| ==> buckets[i].firstFile == FirstFile(buckets, i) && Fits(buckets[i].count, 4)
  }

  ghost predicate SaltOk(salt: bytes) {
    IsAscii(salt) && Unterminated(salt, false)
  }

  ghost predicate Producible(b: Index) {
    && SaltOk(b.salt)
    && Partition(b.buckets, |b.files|)
    && forall i :: 0 <= i < |b.files| ==> FileOk(b.game, b.files[i])
  }

  lemma SignedFits(u: nat, n: nat)
    requires u < Pow256(n)
    ensures Fits(Signed(u, n), n)
  {
  }

  lemma GetSIntFits(buf: bytes, pos: nat, be: bool, n: nat)
    ensures var r := GetSInt(buf, pos, be, n); r.Ok? ==> Fits(r.value, n)
  {
    hide Dec;
    var r := GetUInt(buf, pos, be, n);
    if r.Ok? {
      SignedFits(r.value, n);
    }
  }

  lemma HeaderFits(game: Game, buf: bytes, pos: nat, be: bool)
    ensures var r := ParseHeader(game, buf, pos, be); r.Ok? ==> HeaderOk(game, r.value)
  {
    hide GetUInt, GetSInt, Fits;
    if Narrow(game) {
      GetSIntFits(buf, pos + 4, be, 4);
      GetSIntFits(buf, pos + 8, be, 8);
      GetSIntFits(buf, pos + 32, be, 8);
    } else {
      GetSIntFits(buf, pos + 8, be, 4);
      GetSIntFits(buf, pos + 12, be, 4);
      GetSIntFits(buf, pos + 16, be, 8);
    }
  }

  lemma SealedFits(buf: bytes, off: nat, keySize: nat, be: bool)
    ensures var r := ParseSealed(buf, off, keySize, be); r.Ok? ==> SealedOk(r.value, keySize)
  {
    hide Dec, Fits;
    var r := ParseSealed(buf, off, keySize, be);
    if r.Ok? && off != 0 {
      var n := RangeCount(buf, off, keySize, be).value;
      forall i | 0 <= i < n
        ensures var x := ReadRange(buf, off + keySize + 4 + 16 * i, be); Fits(x.start, 8) && Fits(x.end, 8)
      {
        var p := off + keySize + 4 + 16 * i;
        SignedFits(Dec(be, buf[p..p + 8]), 8);
        SignedFits(Dec(be, buf[p + 8..p + 16]), 8);
      }
    }
  }

  ghost predicate HeaderOk(game: Game, h: Header) {
    && h.pathHash < (if Narrow(game) then Pow256(4) else Pow256(8))
    && Fits(h.padded, 4) && Fits(h.unpadded, if Narrow(game) then 8 else 4) && Fits(h.offset, 8)
  }

  ghost predicate HeadersOk(game: Game, hs: seq<Header>) {
    forall i :: 0 <= i < |hs| ==> HeaderOk(game, hs[i])
  }

  lemma {:induction false} RunFits(game: Game, buf: bytes, pos: nat, be: bool, n: nat)
    ensures var r := ParseRun(game, buf, pos, be, n); r.Ok? ==> HeadersOk(game, r.value)
  {
    hide ParseHeader, HeaderOk;
    if n > 0 {
      RunFits(game, buf, pos, be, n - 1);
      HeaderFits(game, buf, pos + HEADER_SIZE * (n - 1), be);
    }
  }

  lemma {:induction false} HeadersFit(game: Game, buf: bytes, be: bool, d: Directory, k: nat)
    requires k <= |d.buckets| == |d.offsets|
    ensures var r := ParseHeaders(game, buf, be, d, k); r.Ok? ==> HeadersOk(game, r.value)
  {
    hide ParseRun, HeaderOk;
    if k > 0 {
      HeadersFit(game, buf, be, d, k - 1);
      RunFits(game, buf, d.offsets[k - 1], be, d.buckets[k - 1].count);
    }
  }

  lemma {:induction false} FilesFit(game: Game, buf: bytes, be: bool, hs: seq<Header>, k: nat)
    requires k <= |hs| && HeadersOk(game, hs)
    ensures var r := ParseFiles(buf, be, hs, k);
      r.Ok? ==> forall i :: 0 <= i < k ==> FileOk(game, r.value[i])
  {
    hide ParseSealed, Fits;
    if k > 0 {
      FilesFit(game, buf, be, hs, k - 1);
      SealedFits(buf, hs[k - 1].shaAt, SHA_SIZE, be);
      SealedFits(buf, hs[k - 1].aesAt, AES_SIZE, be);
    }
  }

  lemma {:induction false} FirstFilePrefix(s: seq<Bucket>, t: seq<Bucket>, k: nat)
    requires k <= |s| && k <= |t| && s[..k] == t[..k]
    ensures FirstFile(s, k) == FirstFile(t, k)
  {
    if k > 0 {
      assert s[..k][k - 1] == t[..k][k - 1];
      assert s[..k - 1] == s[..k][..k - 1] && t[..k - 1] == t[..k][..k - 1];
      FirstFilePrefix(s, t, k - 1);
    }
  }

  lemma {:induction false} FirstFileMonotone(buckets: seq<Bucket>, i: nat, j: nat)
    requires i <= j <= |buckets|
    ensures FirstFile(buckets, i) <= FirstFile(buckets, j)
    decreases j
  {
    if i < j {
      FirstFileMonotone(buckets, i, j - 1);
    }
  }

  lemma TotalGrows(buckets: seq<Bucket>, x: Bucket)
    ensures forall i :: 0 <= i <= |buckets| ==> FirstFile(buckets + [x], i) == FirstFile(buckets, i)
    ensures FirstFile(buckets + [x], |buckets| + 1) == FirstFile(buckets, |buckets|) + x.count
  {
    forall i | 0 <= i <= |buckets|
      ensures FirstFile(buckets + [x], i) == FirstFile(buckets, i)
    {
      assert (buckets + [x])[..i] == buckets[..i];
      FirstFilePrefix(buckets + [x], buckets, i);
    }
  }

  lemma PartitionGrows(buckets: seq<Bucket>, total: nat, x: Bucket)
    requires Partition(buckets, total) && Fits(x.count, 4) && x.firstFile == total
    ensures Partition(buckets + [x], total + x.count)
  {
    hide Fits, FirstFile;
    TotalGrows(buckets, x);
  }

  lemma BucketFits(buf: bytes, pos: nat, be: bool, wide: bool)
    ensures var r := ParseBucket(buf, pos, be, wide); r.Ok? ==> Fits(r.value.count, 4)
  {
    hide GetSInt, Fits;
    GetSIntFits(buf, pos, be, 4);
  }

  lemma {:induction false} DirectoryTiles(buf: bytes, pos: nat, be: bool, wide: bool, n: nat)
    ensures var r := ParseDirectory(buf, pos, be, wide, n);
      r.Ok? ==> Partition(r.value.buckets, FirstFile(r.value.buckets, n))
  {
    hide ParseBucket, Fits, Partition;
    var r := ParseDirectory(buf, pos, be, wide, n);
    if n == 0 {
      NoBuckets();
    } else if r.Ok? {
      DirectoryTiles(buf, pos, be, wide, n - 1);
      BucketFits(buf, pos + BucketWidth(wide) * (n - 1), be, wide);
      var init := ParseDirectory(buf, pos, be, wide, n - 1).value;
      PartitionGrows(init.buckets, FirstFile(init.buckets, n - 1), r.value.buckets[n - 1]);
      Total(r.value.buckets, FirstFile(init.buckets, n - 1) + r.value.buckets[n - 1].count);
    }
  }

  lemma NoBuckets()
    ensures Partition([], 0)
  {
  }

  lemma Total(buckets: seq<Bucket>, total: nat)
    requires Partition(buckets, total)
    ensures FirstFile(buckets, |buckets|) == total
  {
  }

  lemma SaltFits(buf: bytes, pos: nat, be: bool)
    ensures var r := ParseSalt(buf, pos, be); r.Ok? ==> SaltOk(r.value)
  {
    hide GetSInt;
  }

  /** Everything a reader returns satisfies the writer's assumptions. */
  lemma ParsedIsProducible(game: Game, buf: bytes)
    ensures var r := ParseIndex(game, buf); r.Ok? ==> Producible(r.value)
  {
    hide ParseLead, ParseCounts, ParseSalt, ParseDirectory, ParseHeaders, ParseFiles, Partition, FileOk, HeadersOk, SaltOk;
    var r := ParseIndex(game, buf);
    if r.Ok? {
      var be := ParseLead(buf).value.be;
      var c := ParseCounts(buf, be).value;
      var at := c.at;
      var d := ParseDirectory(buf, at, be, c.wide, c.buckets).value;
      var hs := ParseHeaders(game, buf, be, d, c.buckets).value;
      SaltFits(buf, c.next, be);
      DirectoryTiles(buf, at, be, c.wide, c.buckets);
      HeadersFit(game, buf, be, d, c.buckets);
      FilesFit(game, buf, be, hs, |hs|);
    }
  }
}
