/** BHD5 read after write: exactly which indices come back. */
module Bhd5RoundTrip {
  import opened Bytes
  import opened Reading
  import opened Bhd5
  import opened Bhd5Parsing

  /** The width guess recognises the writer's 64-bit fields only in little-endian images longer than
      0x28 bytes; a big-endian image is read as an empty index without salt. */
  predicate Recognised(b: Index) {
    if b.bigEndian then b.buckets == [] && b.salt == [] else b.buckets != [] || |b.salt| >= 5
  }

  // ------------------------------------------------------------------ the head

  lemma LeadBack(buf: bytes, b: Index)
    requires HeadStands(buf, b) && End(b) < MAX_SIZE
    ensures ParseLead(buf) == Ok(Lead(b.bigEndian, b.unk05))
  {
    hide Enc, GetUInt, GetSInt, GetBool, ExpectByte, End, BucketsAt;
    var s := [if b.bigEndian then 0 else 0xFF, Bool(b.unk05), 0, 0];
    SmallFits(1);
    SmallFits(End(b));
    ByteRead(buf, 4, s, 0);
    ByteRead(buf, 4, s, 1);
    ByteRead(buf, 4, s, 2);
    ByteRead(buf, 4, s, 3);
    PlacedSInt(buf, 8, b.bigEndian, 1, 4);
    PlacedSInt(buf, 12, b.bigEndian, End(b), 4);
  }

  /** A small 64-bit field seen as two 32-bit ones. */
  lemma HalvesBack(buf: bytes, pos: nat, be: bool, v: nat)
    requires At(buf, pos, Enc(be, v, 8)) && v < MAX_SIZE
    ensures GetSInt(buf, pos, be, 8) == Ok(v)
    ensures GetSInt(buf, pos, be, 4) == Ok(if be then 0 else v)
    ensures GetSInt(buf, pos + 4, be, 4) == Ok(if be then v else 0)
  {
    hide At, Enc, GetSInt;
    SmallFits(v);
    SmallFits(0);
    PlacedSInt(buf, pos, be, v, 8);
    WordHalves(be, v);
    AtSplit(buf, pos, Enc(be, if be then 0 else v, 4), Enc(be, if be then v else 0, 4));
    PlacedSInt(buf, pos, be, if be then 0 else v, 4);
    PlacedSInt(buf, pos + 4, be, if be then v else 0, 4);
  }

  lemma Lengths(buf: bytes, b: Index)
    requires ImageStands(buf, b) && Producible(b)
    ensures At(buf, 16, Enc(b.bigEndian, |b.buckets|, 8)) && At(buf, 24, Enc(b.bigEndian, BucketsAt(b), 8))
    ensures At(buf, 32, Enc(b.bigEndian, |b.salt|, 4))
    ensures |b.buckets| <= End(b) && HEAD_SIZE <= BucketsAt(b) <= End(b) && |b.salt| <= End(b) && |buf| == End(b)
    ensures |buf| > 0x28 <==> b.buckets != [] || |b.salt| >= 5
  {
    hide At, Enc, FileOk, BucketRows, HeaderRows, MetaRows, SaltOk;
    assert b.buckets == [] ==> End(b) == HEAD_SIZE + |b.salt|;
  }

  /** What the parser makes of bucket count, bucket offset and salt length. */
  lemma CountsBack(buf: bytes, b: Index)
    requires ImageStands(buf, b) && Producible(b) && End(b) < MAX_SIZE
    ensures var n, at := |b.buckets|, BucketsAt(b);
      var wide := !b.bigEndian && Recognised(b);
      ParseCounts(buf, b.bigEndian)
      == Ok(if wide then Counts(true, n, at, 32)
            else if b.bigEndian then Counts(false, 0, n, 24) else Counts(false, n, 0, 24))
    ensures NonNeg(buf, 32, b.bigEndian) == Ok(|b.salt|)
    ensures NonNeg(buf, 24, b.bigEndian) == Ok(if b.bigEndian then 0 else BucketsAt(b))
  {
    hide At, Enc, GetSInt, ImageStands, Producible, End, BucketsAt;
    Lengths(buf, b);
    HalvesBack(buf, 16, b.bigEndian, |b.buckets|);
    HalvesBack(buf, 24, b.bigEndian, BucketsAt(b));
    SmallFits(|b.salt|);
    PlacedSInt(buf, 32, b.bigEndian, |b.salt|, 4);
  }

  lemma SaltBack(buf: bytes, b: Index)
    requires At(buf, HEAD_SIZE, b.salt) && NonNeg(buf, 32, b.bigEndian) == Ok(|b.salt|) && SaltOk(b.salt)
    ensures ParseSalt(buf, 32, b.bigEndian) == Ok(b.salt)
  {
    hide NonNeg;
    assert CString(b.salt) == b.salt;
  }

  // ------------------------------------------------------------------ buckets

  lemma BucketBack(buf: bytes, pos: nat, be: bool, count: nat, at: nat)
    requires At(buf, pos, BucketBytes(be, count, at)) && Fits(count, 4) && at < MAX_SIZE
    ensures ParseBucket(buf, pos, be, true) == Ok(Spot(count, at))
  {
    hide At, Enc, GetSInt;
    SmallFits(1);
    SmallFits(at);
    AtSplit3(buf, pos, Enc(be, count, 4), Enc(be, 1, 4), Enc(be, at, 8));
    PlacedSInt(buf, pos, be, count, 4);
    PlacedSInt(buf, pos + 4, be, 1, 4);
    PlacedSInt(buf, pos + 8, be, at, 8);
  }

  function Runs(b: Index, k: nat): (s: seq<nat>)
    requires k <= |b.buckets|
    ensures |s| == k
    ensures forall i :: 0 <= i < k ==> s[i] == HeaderRun(b, i)
  {
    seq(k, i requires 0 <= i < k => HeaderRun(b, i))
  }

  lemma RunBound(b: Index, i: nat)
    requires Producible(b) && i <= |b.buckets|
    ensures HeaderRun(b, i) <= MetaAt(b) <= End(b)
  {
    hide FileOk, SaltOk;
    FirstFileMonotone(b.buckets, i, |b.buckets|);
  }

  /** The directory comes back entry by entry, with the offsets that were precomputed. */
  lemma {:induction false} DirectoryBack(buf: bytes, b: Index, k: nat)
    requires ImageStands(buf, b) && Producible(b) && End(b) < MAX_SIZE && k <= |b.buckets|
    ensures ParseDirectory(buf, BucketsAt(b), b.bigEndian, true, k) == Ok(Directory(b.buckets[..k], Runs(b, k)))
  {
    hide *;
    if k == 0 {
      DirectoryStarts(buf, b);
    } else {
      DirectoryBack(buf, b, k - 1);
      BucketStands(buf, b, k - 1);
      BucketBack(buf, BucketsAt(b) + BUCKET_SIZE * (k - 1), b.bigEndian, b.buckets[k - 1].count, HeaderRun(b, k - 1));
      DirectoryNext(buf, b, k);
    }
  }

  lemma DirectoryStarts(buf: bytes, b: Index)
    ensures ParseDirectory(buf, BucketsAt(b), b.bigEndian, true, 0) == Ok(Directory(b.buckets[..0], Runs(b, 0)))
  {
  }

  lemma BucketStands(buf: bytes, b: Index, i: nat)
    requires ImageStands(buf, b) && Producible(b) && End(b) < MAX_SIZE && i < |b.buckets|
    ensures At(buf, BucketsAt(b) + BUCKET_SIZE * i, BucketBytes(b.bigEndian, b.buckets[i].count, HeaderRun(b, i)))
    ensures Fits(b.buckets[i].count, 4) && HeaderRun(b, i) < MAX_SIZE
  {
    hide At, Fits, BucketBytes, HeaderBytes, SealedBytes, ImageStands, HeaderRun, FileOk, SaltOk, End, BucketsAt;
    RecordsStand(buf, b);
    RunBound(b, i);
  }

  lemma BucketIs(b: Index, i: nat)
    requires Producible(b) && i < |b.buckets|
    ensures b.buckets[i] == Bucket(b.buckets[i].count, FirstFile(b.buckets, i))
  {
    hide FileOk, SaltOk, Fits;
  }

  lemma DirectoryNext(buf: bytes, b: Index, k: nat)
    requires Producible(b) && 0 < k <= |b.buckets|
    requires ParseDirectory(buf, BucketsAt(b), b.bigEndian, true, k - 1) == Ok(Directory(b.buckets[..k - 1], Runs(b, k - 1)))
    requires ParseBucket(buf, BucketsAt(b) + BUCKET_SIZE * (k - 1), b.bigEndian, true)
          == Ok(Spot(b.buckets[k - 1].count, HeaderRun(b, k - 1)))
    ensures ParseDirectory(buf, BucketsAt(b), b.bigEndian, true, k) == Ok(Directory(b.buckets[..k], Runs(b, k)))
  {
    hide ParseBucket, ParseDirectory, Producible, HeaderRun, BucketsAt, FirstFile;
    BucketIs(b, k - 1);
    FirstFilePrefix(b.buckets[..k - 1], b.buckets, k - 1);
    DirectoryStep(buf, BucketsAt(b), b.bigEndian, true, k - 1, Directory(b.buckets[..k - 1], Runs(b, k - 1)),
                  Spot(b.buckets[k - 1].count, HeaderRun(b, k - 1)));
    assert b.buckets[..k] == b.buckets[..k - 1] + [b.buckets[k - 1]];
    assert Runs(b, k) == Runs(b, k - 1) + [HeaderRun(b, k - 1)];
  }

  // ------------------------------------------------------------------ file headers

  function HeaderOf(b: Index, i: nat): Header
    requires i < |b.files|
  {
    var f := b.files[i];
    Header(f.pathHash, f.padded, f.unpadded, if f.offset < 0 then 0 else f.offset, ShaAt(b.files, MetaAt(b), i), AesAt(b.files, MetaAt(b), i))
  }

  lemma NonNegBack(buf: bytes, pos: nat, be: bool, v: nat)
    requires At(buf, pos, Enc(be, v, 4)) && Fits(v, 4)
    ensures NonNeg(buf, pos, be) == Ok(v)
  {
    hide At, Enc, GetSInt;
    PlacedSInt(buf, pos, be, v, 4);
  }

  lemma NarrowBack(game: Game, buf: bytes, pos: nat, be: bool, f: File, shaAt: nat, aesAt: nat)
    requires Narrow(game) && FileOk(game, f) && shaAt < MAX_SIZE && aesAt < MAX_SIZE
    requires At(buf, pos, HeaderBytes(game, be, f, shaAt, aesAt))
    ensures ParseHeader(game, buf, pos, be) == Ok(Header(f.pathHash, f.padded, f.unpadded, f.offset, shaAt, aesAt))
  {
    hide At, Enc, Fits, GetSInt, GetUInt, NonNeg, SealedOk;
    SmallFits(shaAt);
    SmallFits(aesAt);
    AtSplit(buf, pos, Enc(be, f.pathHash, 4) + Enc(be, f.padded, 4) + Enc(be, f.offset, 8),
            Enc(be, shaAt, 8) + Enc(be, aesAt, 8) + Enc(be, f.unpadded, 8));
    AtSplit3(buf, pos, Enc(be, f.pathHash, 4), Enc(be, f.padded, 4), Enc(be, f.offset, 8));
    AtSplit3(buf, pos + 16, Enc(be, shaAt, 8), Enc(be, aesAt, 8), Enc(be, f.unpadded, 8));
    PlacedUInt(buf, pos, be, f.pathHash, 4);
    NonNegBack(buf, pos + 4, be, f.padded);
    PlacedSInt(buf, pos + 8, be, f.offset, 8);
    PlacedSInt(buf, pos + 16, be, shaAt, 8);
    PlacedSInt(buf, pos + 24, be, aesAt, 8);
    PlacedSInt(buf, pos + 32, be, f.unpadded, 8);
  }

  lemma WideBack(game: Game, buf: bytes, pos: nat, be: bool, f: File, shaAt: nat, aesAt: nat)
    requires !Narrow(game) && FileOk(game, f) && shaAt < MAX_SIZE && aesAt < MAX_SIZE
    requires At(buf, pos, HeaderBytes(game, be, f, shaAt, aesAt))
    ensures ParseHeader(game, buf, pos, be) == Ok(Header(f.pathHash, f.padded, f.unpadded, f.offset, shaAt, aesAt))
  {
    hide At, Enc, Fits, GetSInt, GetUInt, NonNeg, SealedOk;
    SmallFits(shaAt);
    SmallFits(aesAt);
    AtSplit(buf, pos, Enc(be, f.pathHash, 8) + Enc(be, f.padded, 4) + Enc(be, f.unpadded, 4),
            Enc(be, f.offset, 8) + Enc(be, shaAt, 8) + Enc(be, aesAt, 8));
    AtSplit3(buf, pos, Enc(be, f.pathHash, 8), Enc(be, f.padded, 4), Enc(be, f.unpadded, 4));
    AtSplit3(buf, pos + 16, Enc(be, f.offset, 8), Enc(be, shaAt, 8), Enc(be, aesAt, 8));
    PlacedUInt(buf, pos, be, f.pathHash, 8);
    NonNegBack(buf, pos + 8, be, f.padded);
    NonNegBack(buf, pos + 12, be, f.unpadded);
    PlacedSInt(buf, pos + 16, be, f.offset, 8);
    PlacedSInt(buf, pos + 24, be, shaAt, 8);
    PlacedSInt(buf, pos + 32, be, aesAt, 8);
  }

  lemma {:induction false} MetaMonotone(files: seq<File>, base: nat, i: nat, j: nat)
    requires i <= j <= |files|
    ensures MetaPos(files, base, i) <= MetaPos(files, base, j)
    decreases j
  {
    if i < j {
      MetaMonotone(files, base, i, j - 1);
    }
  }

  lemma MetaBound(b: Index, i: nat)
    requires i < |b.files|
    ensures ShaAt(b.files, MetaAt(b), i) <= End(b) && AesAt(b.files, MetaAt(b), i) <= End(b)
  {
    hide SealedSize;
    MetaMonotone(b.files, MetaAt(b), i + 1, |b.files|);
  }

  lemma FileFacts(b: Index, i: nat)
    requires Producible(b) && i < |b.files|
    ensures FileOk(b.game, b.files[i]) && b.files[i].offset >= 0
  {
    hide Partition, SaltOk, SealedOk, Fits;
  }

  lemma HeaderBack(buf: bytes, b: Index, i: nat)
    requires ImageStands(buf, b) && Producible(b) && End(b) < MAX_SIZE && i < |b.files|
    ensures ParseHeader(b.game, buf, HeadersAt(b) + HEADER_SIZE * i, b.bigEndian) == Ok(HeaderOf(b, i))
  {
    hide At, BucketBytes, HeaderBytes, SealedBytes, ImageStands, HeaderRun, Producible, FileOk, End, ShaAt, AesAt, MetaAt, HeadersAt, ParseHeader;
    FileFacts(b, i);
    RecordsStand(buf, b);
    MetaBound(b, i);
    var f, shaAt, aesAt := b.files[i], ShaAt(b.files, MetaAt(b), i), AesAt(b.files, MetaAt(b), i);
    if Narrow(b.game) {
      NarrowBack(b.game, buf, HeadersAt(b) + HEADER_SIZE * i, b.bigEndian, f, shaAt, aesAt);
    } else {
      WideBack(b.game, buf, HeadersAt(b) + HEADER_SIZE * i, b.bigEndian, f, shaAt, aesAt);
    }
  }

  /** The headers a reader finds for files `from` up to `to`. */
  ghost predicate HeadersMatch(b: Index, hs: seq<Header>, from: nat) {
    from + |hs| <= |b.files|
    && forall i :: 0 <= i < |hs| ==> hs[i] == HeaderOf(b, from + i)
  }

  lemma {:induction false} RunBack(buf: bytes, b: Index, from: nat, n: nat)
    requires ImageStands(buf, b) && Producible(b) && End(b) < MAX_SIZE && from + n <= |b.files|
    ensures var r := ParseRun(b.game, buf, HeadersAt(b) + HEADER_SIZE * from, b.bigEndian, n);
      r.Ok? && HeadersMatch(b, r.value, from)
  {
    hide ParseHeader, ImageStands, Producible, End, HeadersAt, HeaderOf;
    if n == 0 {
      assert ParseRun(b.game, buf, HeadersAt(b) + HEADER_SIZE * from, b.bigEndian, n) == Ok([]);
    } else {
      RunBack(buf, b, from, n - 1);
      HeaderBack(buf, b, from + n - 1);
      var init := ParseRun(b.game, buf, HeadersAt(b) + HEADER_SIZE * from, b.bigEndian, n - 1).value;
      RunStep(b.game, buf, HeadersAt(b) + HEADER_SIZE * from, b.bigEndian, n - 1, HeaderOf(b, from + n - 1));
      MatchGrows(b, init, from);
    }
  }

  lemma RunStep(game: Game, buf: bytes, pos: nat, be: bool, n: nat, h: Header)
    requires ParseRun(game, buf, pos, be, n).Ok? && ParseHeader(game, buf, pos + HEADER_SIZE * n, be) == Ok(h)
    ensures ParseRun(game, buf, pos, be, n + 1) == Ok(ParseRun(game, buf, pos, be, n).value + [h])
  {
    hide ParseHeader;
  }

  lemma MatchGrows(b: Index, hs: seq<Header>, from: nat)
    requires HeadersMatch(b, hs, from) && from + |hs| < |b.files|
    ensures HeadersMatch(b, hs + [HeaderOf(b, from + |hs|)], from)
  {
    hide ShaAt, AesAt;
    var t := hs + [HeaderOf(b, from + |hs|)];
    forall i | 0 <= i < |t|
      ensures t[i] == HeaderOf(b, from + i)
    {
      assert i < |hs| ==> t[i] == hs[i];
    }
  }

  lemma {:induction false} HeadersBack(buf: bytes, b: Index, k: nat)
    requires ImageStands(buf, b) && Producible(b) && End(b) < MAX_SIZE && k <= |b.buckets|
    ensures var r := ParseHeaders(b.game, buf, b.bigEndian, Directory(b.buckets, Runs(b, |b.buckets|)), k);
      r.Ok? && |r.value| == FirstFile(b.buckets, k) && HeadersMatch(b, r.value, 0)
  {
    hide ParseRun, ImageStands, Producible, End, HeadersAt, HeaderOf, HeadersMatch;
    if k == 0 {
      NoMatches(b);
    } else {
      HeadersBack(buf, b, k - 1);
      TilesBound(b, k);
      RunInside(buf, b, k - 1);
      RunBack(buf, b, FirstFile(b.buckets, k - 1), b.buckets[k - 1].count);
      var d := Directory(b.buckets, Runs(b, |b.buckets|));
      MatchJoins(b, ParseHeaders(b.game, buf, b.bigEndian, d, k - 1).value,
                 ParseRun(b.game, buf, HeaderRun(b, k - 1), b.bigEndian, b.buckets[k - 1].count).value);
    }
  }

  lemma NoMatches(b: Index)
    ensures HeadersMatch(b, [], 0)
  {
  }

  lemma MatchJoins(b: Index, s: seq<Header>, t: seq<Header>)
    requires HeadersMatch(b, s, 0) && HeadersMatch(b, t, |s|)
    ensures HeadersMatch(b, s + t, 0) && (t == [] ==> s + t == s)
  {
    hide ShaAt, AesAt;
    forall i | 0 <= i < |s + t|
      ensures (s + t)[i] == HeaderOf(b, 0 + i)
    {
      if i < |s| {
        assert s[i] == HeaderOf(b, 0 + i);
      } else {
        var k := i - |s|;
        assert t[k] == HeaderOf(b, |s| + k);
      }
    }
  }

  lemma TilesBound(b: Index, k: nat)
    requires Producible(b) && 0 < k <= |b.buckets|
    ensures FirstFile(b.buckets, k) == FirstFile(b.buckets, k - 1) + b.buckets[k - 1].count <= |b.files|
  {
    hide FileOk, SaltOk, Fits;
    FirstFileMonotone(b.buckets, k, |b.buckets|);
  }

  lemma RunInside(buf: bytes, b: Index, i: nat)
    requires ImageStands(buf, b) && Producible(b) && i <= |b.buckets|
    ensures SeekTo(buf, HeaderRun(b, i)) == Ok(HeaderRun(b, i))
    ensures HeaderRun(b, i) == HeadersAt(b) + HEADER_SIZE * FirstFile(b.buckets, i)
  {
    hide At, HeadersAt, Producible, HeadStands;
    RunBound(b, i);
  }

  // ------------------------------------------------------------------ range records

  lemma RangesBack(buf: bytes, pos: nat, be: bool, ranges: seq<Range>)
    requires At(buf, pos, Flatten(RangeRows(be, ranges)))
    requires forall i :: 0 <= i < |ranges| ==> Fits(ranges[i].start, 8) && Fits(ranges[i].end, 8)
    ensures pos + 16 * |ranges| <= |buf| && ReadRanges(buf, pos, be, |ranges|) == ranges
  {
    hide Enc, Dec, Fits, Flatten;
    FlattenUniform(RangeRows(be, ranges), 16);
    forall i | 0 <= i < |ranges|
      ensures ReadRange(buf, pos + 16 * i, be) == ranges[i]
    {
      var p := pos + 16 * i;
      RowStands(buf, pos, RangeRows(be, ranges), 16, i);
      AtSplit(buf, p, Enc(be, ranges[i].start, 8), Enc(be, ranges[i].end, 8));
      EncSigned(be, ranges[i].start, 8);
      EncSigned(be, ranges[i].end, 8);
    }
  }

  lemma SealedBack(buf: bytes, off: nat, be: bool, s: Option<Sealed>, keySize: nat)
    requires SealedOk(s, keySize) && (s.None? ==> off == 0)
    requires s.Some? ==> off > 0 && At(buf, off, SealedBytes(be, s))
    ensures ParseSealed(buf, off, keySize, be) == Ok(s)
  {
    hide Enc, Fits, Flatten, NonNeg, RangeRows, ReadRanges;
    if s.Some? {
      var key, ranges := s.value.key, s.value.ranges;
      AtSplit3(buf, off, key, Enc(be, |ranges|, 4), Flatten(RangeRows(be, ranges)));
      SmallFits(|ranges|);
      NonNegBack(buf, off + keySize, be, |ranges|);
      RangesBack(buf, off + keySize + 4, be, ranges);
    }
  }

  lemma FileBack(buf: bytes, b: Index, i: nat)
    requires ImageStands(buf, b) && Producible(b) && i < |b.files|
    ensures ParseFile(buf, b.bigEndian, HeaderOf(b, i)) == Ok(b.files[i])
  {
    hide At, BucketBytes, HeaderBytes, SealedBytes, ImageStands, HeaderRun, Producible, ParseSealed, Fits;
    FileFacts(b, i);
    RecordsStand(buf, b);
    SealedBack(buf, ShaAt(b.files, MetaAt(b), i), b.bigEndian, b.files[i].sha, SHA_SIZE);
    SealedBack(buf, AesAt(b.files, MetaAt(b), i), b.bigEndian, b.files[i].aes, AES_SIZE);
  }

  lemma {:induction false} FilesBack(buf: bytes, b: Index, hs: seq<Header>, k: nat)
    requires ImageStands(buf, b) && Producible(b) && HeadersMatch(b, hs, 0) && k <= |hs|
    ensures ParseFiles(buf, b.bigEndian, hs, k) == Ok(b.files[..k])
  {
    hide ParseFile, ImageStands, Producible, HeaderOf;
    if k > 0 {
      FilesBack(buf, b, hs, k - 1);
      FileBack(buf, b, k - 1);
      assert b.files[..k] == b.files[..k - 1] + [b.files[k - 1]];
    }
  }

  // ------------------------------------------------------------------ the round trip

  lemma WideRoundTrip(buf: bytes, b: Index)
    requires ImageStands(buf, b) && Producible(b) && End(b) < MAX_SIZE && !b.bigEndian && Recognised(b)
    ensures ParseIndex(b.game, buf) == Ok(b)
  {
    hide At, ParseLead, ParseCounts, ParseSalt, ParseDirectory, ParseHeaders, ParseFiles, NonNeg, Recognised, End, HeadStands,
      BucketRows, HeaderRows, MetaRows, FileOk, SaltOk, Partition, HeaderOf, FirstFile, ImageStands, Producible;
    PiecesOf(buf, b);
    LeadBack(buf, b);
    CountsBack(buf, b);
    SaltBack(buf, b);
    DirectoryBack(buf, b, |b.buckets|);
    HeadersBack(buf, b, |b.buckets|);
    var hs := ParseHeaders(b.game, buf, b.bigEndian, Directory(b.buckets, Runs(b, |b.buckets|)), |b.buckets|).value;
    FilesBack(buf, b, hs, |hs|);
    assert b.buckets[..|b.buckets|] == b.buckets;
    assert b.files[..|b.files|] == b.files;
  }

  lemma PiecesOf(buf: bytes, b: Index)
    requires ImageStands(buf, b) && Producible(b)
    ensures HeadStands(buf, b) && At(buf, HEAD_SIZE, b.salt) && SaltOk(b.salt) && BucketsAt(b) <= |buf| == End(b)
    ensures FirstFile(b.buckets, |b.buckets|) == |b.files|
  {
    hide HeadStands, Flatten, BucketRows, HeaderRows, MetaRows, FileOk, SaltOk;
  }

  /** A short little-endian image is misread as 32 bits wide, and then runs out of bytes. */
  lemma ShortFails(buf: bytes, b: Index)
    requires ImageStands(buf, b) && Producible(b) && End(b) < MAX_SIZE && !b.bigEndian && !Recognised(b)
    ensures ParseIndex(b.game, buf).Err?
  {
    hide At, HeadStands, ParseLead, ParseCounts, ParseDirectory, ParseHeaders, ParseFiles, NonNeg, FileOk, SaltOk, BucketRows, HeaderRows, MetaRows;
    PiecesOf(buf, b);
    LeadBack(buf, b);
    CountsBack(buf, b);
    assert |buf| == HEAD_SIZE + |b.salt|;
  }

  /** A big-endian image is read as having no buckets and no salt, whatever was written. */
  lemma BigEndianBlind(buf: bytes, b: Index)
    requires ImageStands(buf, b) && Producible(b) && End(b) < MAX_SIZE && b.bigEndian
    ensures ParseIndex(b.game, buf)
         == var at :- SeekTo(buf, |b.buckets|); Ok(Index(b.game, true, b.unk05, [], [], []))
  {
    hide At, HeadStands, ParseLead, ParseCounts, NonNeg, FileOk, SaltOk, BucketRows, HeaderRows, MetaRows;
    PiecesOf(buf, b);
    LeadBack(buf, b);
    CountsBack(buf, b);
    NothingHere(b.game, buf, |b.buckets|);
  }

  lemma NothingHere(game: Game, buf: bytes, at: nat)
    requires |buf| >= 28 && NonNeg(buf, 24, true) == Ok(0)
    ensures ParseSalt(buf, 24, true) == Ok([])
    ensures ParseDirectory(buf, at, true, false, 0) == Ok(Directory([], []))
    ensures ParseHeaders(game, buf, true, Directory([], []), 0) == Ok([])
    ensures ParseFiles(buf, true, [], 0) == Ok([])
  {
    assert buf[28..28] == [];
  }

  /** Any index a reader can have produced, of any game, comes back from its image exactly when the
      reader's width guess recognises the image. */
  lemma RoundTrip(b: Index)
    requires Producible(b) && End(b) < MAX_SIZE
    ensures ParseIndex(b.game, Image(b)) == Ok(b) <==> Recognised(b)
  {
    hide At, ImageStands, ParseIndex, Image, End, FileOk, SaltOk;
    ImagePieces(b);
    if b.bigEndian {
      BigEndianBlind(Image(b), b);
      PiecesOf(Image(b), b);
      assert b.buckets == [] ==> b.files == [];
    } else if Recognised(b) {
      WideRoundTrip(Image(b), b);
    } else {
      ShortFails(Image(b), b);
    }
  }

  /** Reading, writing and reading again: the second reading agrees with the first exactly when the
      written image is recognised. */
  lemma ReadWriteRead(game: Game, buf: bytes)
    requires var r := ParseIndex(game, buf); r.Ok? && End(r.value) < MAX_SIZE
    ensures var b := ParseIndex(game, buf).value;
      ParseIndex(game, Image(b)) == Ok(b) <==> Recognised(b)
  {
    hide ParseLead, ParseCounts, ParseSalt, ParseDirectory, ParseHeaders, ParseFiles, Image, Producible, Recognised, End;
    ParsedIsProducible(game, buf);
    RoundTrip(ParseIndex(game, buf).value);
  }

  /** A big-endian index with one empty bucket is one a reader can have produced, and is not read back. */
  lemma BigEndianLost(b: Index)
    requires b.bigEndian && b.salt == [] && b.buckets == [Bucket(0, 0)] && b.files == []
    ensures Producible(b) && End(b) < MAX_SIZE && ParseIndex(b.game, Image(b)) != Ok(b)
  {
    hide ParseIndex, Image;
    assert FirstFile(b.buckets, 1) == FirstFile(b.buckets, 0) == 0;
    RoundTrip(b);
  }
}
