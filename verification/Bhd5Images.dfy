/** The two images of a BHD5 index, word by word: the one that is written, with 64-bit counts and offsets,
    and the 32-bit one that older archives have and that is only read. */
module Bhd5Images {
  import opened Bytes
  import opened Reading
  import opened Words
  import opened Bhd5
  import opened Bhd5Parsing
  import opened Bhd5Words
  import opened Bhd5RoundTrip
  import Bhd5Writing

  // ------------------------------------------------------------------ the 32-bit image

  function ShortBucketsAt(b: Index): nat { 28 + |b.salt| }
  function ShortHeadersAt(b: Index): nat { ShortBucketsAt(b) + 8 * |b.buckets| }
  function ShortMetaAt(b: Index): nat { ShortHeadersAt(b) + 40 * |b.files| }
  function ShortEnd(b: Index): nat { MetaPos(b.files, ShortMetaAt(b), |b.files|) }

  function ShortRun(b: Index, i: nat): nat
    requires i <= |b.buckets|
  {
    ShortHeadersAt(b) + 40 * FirstFile(b.buckets, i)
  }

  function ShortHead(b: Index): (s: bytes)
    ensures |s| == 28
  {
    [0x42, 0x48, 0x44, 0x35] + [if b.bigEndian then 0 else 0xFF, Bool(b.unk05), 0, 0]
    + (Enc(b.bigEndian, 1, 4) + Enc(b.bigEndian, ShortEnd(b), 4))
    + (Enc(b.bigEndian, |b.buckets|, 4) + Enc(b.bigEndian, ShortBucketsAt(b), 4) + Enc(b.bigEndian, |b.salt|, 4))
  }

  function ShortBuckets(b: Index): (rows: seq<bytes>)
    ensures |rows| == |b.buckets| && AllSized(rows, 8)
    ensures forall i :: 0 <= i < |rows| ==> rows[i] == Enc(b.bigEndian, b.buckets[i].count, 4) + Enc(b.bigEndian, ShortRun(b, i), 4)
  {
    seq(|b.buckets|, i requires 0 <= i < |b.buckets| =>
      Enc(b.bigEndian, b.buckets[i].count, 4) + Enc(b.bigEndian, ShortRun(b, i), 4))
  }

  function ShortHeaders(b: Index): (rows: seq<bytes>)
    ensures |rows| == |b.files| && AllSized(rows, 40)
    ensures forall i :: 0 <= i < |rows| ==>
      rows[i] == HeaderBytes(b.game, b.bigEndian, b.files[i], ShaAt(b.files, ShortMetaAt(b), i), AesAt(b.files, ShortMetaAt(b), i))
  {
    seq(|b.files|, i requires 0 <= i < |b.files| =>
      HeaderBytes(b.game, b.bigEndian, b.files[i], ShaAt(b.files, ShortMetaAt(b), i), AesAt(b.files, ShortMetaAt(b), i)))
  }

  function ShortImage(b: Index): bytes {
    (ShortHead(b) + b.salt) + Flatten(ShortBuckets(b)) + Flatten(ShortHeaders(b)) + Flatten(MetaRows(b.bigEndian, b.files))
  }

  ghost predicate ShortStands(buf: bytes, b: Index) {
    && At(buf, 0, ShortHead(b)) && At(buf, 28, b.salt)
    && At(buf, ShortBucketsAt(b), Flatten(ShortBuckets(b)))
    && At(buf, ShortHeadersAt(b), Flatten(ShortHeaders(b)))
    && At(buf, ShortMetaAt(b), Flatten(MetaRows(b.bigEndian, b.files)))
    && |buf| == ShortEnd(b)
  }

  lemma ShortPieces(b: Index)
    ensures ShortStands(ShortImage(b), b)
  {
    hide At, Enc, ShortHead, ShortBuckets, ShortHeaders, MetaRows, Flatten, AllSized;
    var buf := ShortImage(b);
    AtWhole(buf);
    FlattenUniform(ShortBuckets(b), 8);
    FlattenUniform(ShortHeaders(b), 40);
    MetaSize(b.bigEndian, b.files, ShortMetaAt(b), |b.files|);
    assert MetaRows(b.bigEndian, b.files)[..|b.files|] == MetaRows(b.bigEndian, b.files);
    AtSplit4(buf, 0, ShortHead(b) + b.salt, Flatten(ShortBuckets(b)), Flatten(ShortHeaders(b)), Flatten(MetaRows(b.bigEndian, b.files)));
    AtSplit(buf, 0, ShortHead(b), b.salt);
  }

  /** The words of its head. */
  lemma ShortHeadWords(buf: bytes, b: Index)
    requires ShortStands(buf, b) && Producible(b) && ShortEnd(b) < MAX_SIZE
    ensures Mark(buf, b.bigEndian, b.unk05) && Counted(buf, b.bigEndian, false, |b.buckets|, ShortBucketsAt(b))
    ensures Salted(buf, 24, b.bigEndian, b.salt) && I32(buf, 12, b.bigEndian) == |buf| && !IsWide(buf, b.bigEndian)
  {
    hide Enc, U32, I32, I64, ShortBuckets, ShortHeaders, MetaRows, Flatten, Partition, FileOk, MetaPos;
    var be := b.bigEndian;
    MetaMonotone(b.files, ShortMetaAt(b), 0, |b.files|);
    MetaFirst(b.files, ShortMetaAt(b));
    var mark: bytes := [if be then 0 else 0xFF, Bool(b.unk05), 0, 0];
    AtSplit4(buf, 0, [0x42, 0x48, 0x44, 0x35], mark, Enc(be, 1, 4) + Enc(be, ShortEnd(b), 4),
             Enc(be, |b.buckets|, 4) + Enc(be, ShortBucketsAt(b), 4) + Enc(be, |b.salt|, 4));
    AtSplit(buf, 8, Enc(be, 1, 4), Enc(be, ShortEnd(b), 4));
    AtSplit3(buf, 16, Enc(be, |b.buckets|, 4), Enc(be, ShortBucketsAt(b), 4), Enc(be, |b.salt|, 4));
    Stored32(buf, 8, be, 1);
    Stored32(buf, 12, be, ShortEnd(b));
    Stored32(buf, 16, be, |b.buckets|);
    Stored32(buf, 20, be, ShortBucketsAt(b));
    Stored32(buf, 24, be, |b.salt|);
    SameBytes(buf, 0, [0x42, 0x48, 0x44, 0x35]);
    SameBytes(buf, 4, mark);
    SameBytes(buf, 28, b.salt);
    assert buf[..4] == buf[0..4];
  }

  lemma MetaFirst(files: seq<File>, base: nat)
    ensures MetaPos(files, base, 0) == base
  {
  }

  lemma ShortRunBound(b: Index, i: nat)
    requires Producible(b) && i < |b.buckets|
    ensures ShortRun(b, i) <= ShortMetaAt(b) <= ShortEnd(b)
    ensures 0 <= b.buckets[i].count < 0x8000_0000
  {
    hide FileOk, SaltOk, MetaPos;
    Widths();
    FirstFileMonotone(b.buckets, i, |b.buckets|);
    MetaMonotone(b.files, ShortMetaAt(b), 0, |b.files|);
    MetaFirst(b.files, ShortMetaAt(b));
  }

  lemma ShortBucketWords(buf: bytes, b: Index, i: nat)
    requires ShortStands(buf, b) && Producible(b) && ShortEnd(b) < MAX_SIZE && i < |b.buckets|
    ensures BucketWords(buf, ShortBucketsAt(b), i, b.bigEndian, false, b.buckets[i].count, ShortRun(b, i)) && ShortRun(b, i) <= |buf|
  {
    hide At, Enc, U32, I32, I64, ShortHead, ShortHeaders, ShortRun, MetaRows, Flatten, FileOk, ShortEnd, SaltOk, Fits, FirstFile;
    var be := b.bigEndian;
    ShortRunBound(b, i);
    RowStands(buf, ShortBucketsAt(b), ShortBuckets(b), 8, i);
    AtSplit(buf, ShortBucketsAt(b) + 8 * i, Enc(be, b.buckets[i].count, 4), Enc(be, ShortRun(b, i), 4));
    Stored32(buf, ShortBucketsAt(b) + 8 * i, be, b.buckets[i].count);
    Stored32(buf, ShortBucketsAt(b) + 8 * i + 4, be, ShortRun(b, i));
  }

  /** A file whose header and records stand in the buffer is found there. */
  lemma FileSpelled(game: Game, buf: bytes, pos: nat, be: bool, f: File, shaAt: nat, aesAt: nat)
    requires FileOk(game, f) && shaAt < MAX_SIZE && aesAt < MAX_SIZE
    requires At(buf, pos, HeaderBytes(game, be, f, shaAt, aesAt))
    requires f.sha.None? ==> shaAt == 0
    requires f.sha.Some? ==> shaAt > 0 && At(buf, shaAt, SealedBytes(be, f.sha))
    requires f.aes.None? ==> aesAt == 0
    requires f.aes.Some? ==> aesAt > 0 && At(buf, aesAt, SealedBytes(be, f.aes))
    ensures FileWords(game, buf, pos, be, f)
  {
    hide At, HeaderBytes, SealedBytes, ParseHeader, ParseSealed, HeaderWords, FileOf, SealedOk, Fits;
    if Narrow(game) {
      NarrowBack(game, buf, pos, be, f, shaAt, aesAt);
    } else {
      WideBack(game, buf, pos, be, f, shaAt, aesAt);
    }
    SealedBack(buf, shaAt, be, f.sha, SHA_SIZE);
    SealedBack(buf, aesAt, be, f.aes, AES_SIZE);
    var h := Header(f.pathHash, f.padded, f.unpadded, f.offset, shaAt, aesAt);
    HeaderRead(game, buf, pos, be, h);
    FileRead(buf, be, h, f);
  }

  lemma ShortFileWords(buf: bytes, b: Index, k: nat)
    requires ShortStands(buf, b) && Producible(b) && ShortEnd(b) < MAX_SIZE && k < |b.files|
    ensures FileWords(b.game, buf, ShortHeadersAt(b) + 40 * k, b.bigEndian, b.files[k])
  {
    hide At, Enc, ShortHead, ShortBuckets, HeaderBytes, SealedBytes, MetaRows, Flatten, FileOk, MetaPos, SaltOk, Partition, FileWords, SealedSize;
    var be, base := b.bigEndian, ShortMetaAt(b);
    RowStands(buf, ShortHeadersAt(b), ShortHeaders(b), 40, k);
    ShortMetaStands(buf, b, k);
    MetaMonotone(b.files, base, k + 1, |b.files|);
    FileSpelled(b.game, buf, ShortHeadersAt(b) + 40 * k, be, b.files[k], ShaAt(b.files, base, k), AesAt(b.files, base, k));
  }

  lemma ShortMetaStands(buf: bytes, b: Index, k: nat)
    requires ShortStands(buf, b) && k < |b.files|
    ensures var p := MetaPos(b.files, ShortMetaAt(b), k);
      && At(buf, p, SealedBytes(b.bigEndian, b.files[k].sha))
      && At(buf, p + SealedSize(b.files[k].sha), SealedBytes(b.bigEndian, b.files[k].aes))
      && MetaPos(b.files, ShortMetaAt(b), k + 1) == p + SealedSize(b.files[k].sha) + SealedSize(b.files[k].aes)
  {
    hide At, Enc, ShortHead, ShortBuckets, ShortHeaders, SealedBytes, Flatten, MetaPos, ShortMetaAt;
    MetaStep(b.files, ShortMetaAt(b), k);
    MetaSize(b.bigEndian, b.files, ShortMetaAt(b), k);
    PartStands(buf, ShortMetaAt(b), MetaRows(b.bigEndian, b.files), k);
    AtSplit(buf, MetaPos(b.files, ShortMetaAt(b), k), SealedBytes(b.bigEndian, b.files[k].sha), SealedBytes(b.bigEndian, b.files[k].aes));
  }

  lemma IsConsecutive(b: Index)
    requires Producible(b)
    ensures Consecutive(b.buckets, |b.files|) && Placed(b.buckets) && FirstFile(b.buckets, |b.buckets|) == |b.files|
  {
    hide FileOk, SaltOk, Fits;
    ConsecutiveIs(b.buckets, |b.files|);
  }

  /** The 32-bit image carries the index. */
  lemma ShortCarries(b: Index)
    requires Producible(b) && ShortEnd(b) < MAX_SIZE
    ensures Carries(ShortImage(b), b, false) && !IsWide(ShortImage(b), b.bigEndian)
  {
    hide Mark, Counted, Salted, IsWide, BucketWords, FileWords, ShortStands, Producible, ShortImage, ShortBucketsAt, ShortHeadersAt, ShortEnd,
      Consecutive, Placed, FirstFile;
    var buf := ShortImage(b);
    ShortPieces(b);
    ShortHeadWords(buf, b);
    IsConsecutive(b);
    ShortBound(buf, b);
    forall i | 0 <= i < |b.buckets|
      ensures BucketCarried(buf, b, ShortBucketsAt(b), false, i)
    {
      ShortBucketWords(buf, b, i);
      BucketWithin(b.buckets, i);
      forall j | 0 <= j < b.buckets[i].count
        ensures FileCarried(buf, b, i, ShortRun(b, i), j)
      {
        ShortFileWords(buf, b, b.buckets[i].firstFile + j);
        assert ShortRun(b, i) + 40 * j == ShortHeadersAt(b) + 40 * (b.buckets[i].firstFile + j);
      }
    }
  }

  lemma ShortBound(buf: bytes, b: Index)
    requires ShortStands(buf, b)
    ensures ShortBucketsAt(b) <= |buf|
  {
    hide Flatten, ShortBuckets, ShortHeaders, MetaRows, ShortHead, ShortHeadersAt, ShortEnd;
  }

  /** Every index that a reader can have produced, of any game and in either byte order, is read from its
      32-bit image. */
  lemma ShortRoundTrip(b: Index)
    requires Producible(b) && ShortEnd(b) < MAX_SIZE
    ensures ParseIndex(b.game, ShortImage(b)) == Ok(b)
  {
    hide Producible, ShortImage, Carries, IsWide, ParseIndex, ShortEnd;
    ShortCarries(b);
    ReadExactly(b.game, ShortImage(b), b);
  }

  /** One file of Sekiro in 76 bytes, spelled out. */
  lemma ShortSample(b: Index, f: File)
    requires f == File(0xDEADBEEF, 64, 33, 4096, None, None)
    requires b == Index(Sekiro, false, false, [], [Bucket(1, 0)], [f])
    ensures ShortImage(b) ==
      [0x42, 0x48, 0x44, 0x35, 0xFF, 0, 0, 0, 1, 0, 0, 0, 76, 0, 0, 0, 1, 0, 0, 0, 28, 0, 0, 0, 0, 0, 0, 0]
      + [1, 0, 0, 0, 36, 0, 0, 0]
      + ([0xEF, 0xBE, 0xAD, 0xDE, 64, 0, 0, 0, 0, 0x10, 0, 0, 0, 0, 0, 0] + Fill(16, 0) + [33, 0, 0, 0, 0, 0, 0, 0])
    ensures ParseIndex(Sekiro, ShortImage(b)) == Ok(b)
  {
    hide ShortImage, Producible, ParseIndex;
    SampleImage(b, f);
    SampleProducible(b, f);
    ShortRoundTrip(b);
  }

  lemma SampleImage(b: Index, f: File)
    requires f == File(0xDEADBEEF, 64, 33, 4096, None, None)
    requires b == Index(Sekiro, false, false, [], [Bucket(1, 0)], [f])
    ensures ShortImage(b) ==
      [0x42, 0x48, 0x44, 0x35, 0xFF, 0, 0, 0, 1, 0, 0, 0, 76, 0, 0, 0, 1, 0, 0, 0, 28, 0, 0, 0, 0, 0, 0, 0]
      + [1, 0, 0, 0, 36, 0, 0, 0]
      + ([0xEF, 0xBE, 0xAD, 0xDE, 64, 0, 0, 0, 0, 0x10, 0, 0, 0, 0, 0, 0] + Fill(16, 0) + [33, 0, 0, 0, 0, 0, 0, 0])
  {
    hide Enc, HeaderBytes, MetaRows, Flatten;
    assert FirstFile(b.buckets, 0) == 0 && FirstFile(b.buckets, 1) == 1;
    assert MetaPos(b.files, 76, 0) == 76 && MetaPos(b.files, 76, 1) == 76;
    Bytes4(1);
    Bytes4(76);
    Bytes4(28);
    Bytes4(0);
    Bytes4(36);
    SampleHeader(f);
    SampleTables(b, f);
  }

  lemma SampleTables(b: Index, f: File)
    requires f.sha.None? && f.aes.None? && b.files == [f] && |b.buckets| == 1 && !b.bigEndian
    ensures Flatten(ShortBuckets(b)) == ShortBuckets(b)[0] && Flatten(ShortHeaders(b)) == ShortHeaders(b)[0]
    ensures Flatten(MetaRows(false, b.files)) == []
  {
    hide Enc, HeaderBytes;
    assert ShortBuckets(b)[..0] == [] && ShortHeaders(b)[..0] == [] && MetaRows(false, b.files)[..0] == [];
  }

  lemma SampleHeader(f: File)
    requires f == File(0xDEADBEEF, 64, 33, 4096, None, None)
    ensures HeaderBytes(Sekiro, false, f, 0, 0)
         == [0xEF, 0xBE, 0xAD, 0xDE, 64, 0, 0, 0, 0, 0x10, 0, 0, 0, 0, 0, 0] + Fill(16, 0) + [33, 0, 0, 0, 0, 0, 0, 0]
  {
    hide Enc;
    SampleWords();
  }

  lemma SampleWords()
    ensures Enc(false, 0xDEADBEEF, 4) == [0xEF, 0xBE, 0xAD, 0xDE] && Enc(false, 64, 4) == [64, 0, 0, 0]
    ensures Enc(false, 4096, 8) == [0, 0x10, 0, 0, 0, 0, 0, 0] && Enc(false, 33, 8) == [33, 0, 0, 0, 0, 0, 0, 0]
    ensures Enc(false, 0, 8) == Fill(8, 0)
  {
    hide Enc;
    Bytes4(0xDEADBEEF);
    Bytes4(64);
    Bytes4(4096);
    Bytes8(4096);
    Bytes4(33);
    Bytes8(33);
    Bytes4(0);
    Bytes8(0);
  }

  lemma SampleProducible(b: Index, f: File)
    requires f == File(0xDEADBEEF, 64, 33, 4096, None, None)
    requires b == Index(Sekiro, false, false, [], [Bucket(1, 0)], [f])
    ensures Producible(b) && ShortEnd(b) < MAX_SIZE
  {
    Widths();
    assert FirstFile(b.buckets, 0) == 0 && FirstFile(b.buckets, 1) == 1;
    assert MetaPos(b.files, ShortMetaAt(b), 0) == ShortMetaAt(b);
  }

  // ------------------------------------------------------------------ the 64-bit image

  lemma LongHeadWords(buf: bytes, b: Index)
    requires ImageStands(buf, b) && Producible(b) && End(b) < MAX_SIZE
    ensures Mark(buf, b.bigEndian, b.unk05) && Counted(buf, b.bigEndian, true, |b.buckets|, 36 + |b.salt|)
    ensures Salted(buf, 32, b.bigEndian, b.salt) && I32(buf, 12, b.bigEndian) == |buf|
  {
    hide Enc, U32, I32, I64, BucketRows, HeaderRows, MetaRows, Flatten, Partition, FileOk, End, HeadersAt, MetaAt;
    Lengths(buf, b);
    var be := b.bigEndian;
    var mark: bytes := [if be then 0 else 0xFF, Bool(b.unk05), 0, 0];
    Stored32(buf, 8, be, 1);
    Stored32(buf, 12, be, End(b));
    Stored64(buf, 16, be, |b.buckets|);
    Stored64(buf, 24, be, BucketsAt(b));
    Stored32(buf, 32, be, |b.salt|);
    SameBytes(buf, 0, MAGIC);
    SameBytes(buf, 4, mark);
    SameBytes(buf, 36, b.salt);
    assert buf[..4] == buf[0..4];
  }

  lemma LongBucketWords(buf: bytes, b: Index, i: nat)
    requires ImageStands(buf, b) && Producible(b) && End(b) < MAX_SIZE && i < |b.buckets|
    ensures BucketWords(buf, 36 + |b.salt|, i, b.bigEndian, true, b.buckets[i].count, HeaderRun(b, i)) && HeaderRun(b, i) <= |buf|
  {
    hide At, ImageStands, Producible, BucketBytes, ParseBucket, HeaderRun, End;
    BucketStands(buf, b, i);
    BucketBack(buf, BucketsAt(b) + BUCKET_SIZE * i, b.bigEndian, b.buckets[i].count, HeaderRun(b, i));
    BucketRead(buf, 36 + |b.salt|, i, b.bigEndian, true, b.buckets[i].count, HeaderRun(b, i));
    RunInside(buf, b, i);
  }

  lemma LongFileWords(buf: bytes, b: Index, k: nat)
    requires ImageStands(buf, b) && Producible(b) && End(b) < MAX_SIZE && k < |b.files|
    ensures FileWords(b.game, buf, HeadersAt(b) + 40 * k, b.bigEndian, b.files[k])
  {
    hide ImageStands, Producible, ParseHeader, ParseFile, HeaderWords, FileOf, End, HeadersAt;
    HeaderBack(buf, b, k);
    FileBack(buf, b, k);
    HeaderRead(b.game, buf, HeadersAt(b) + 40 * k, b.bigEndian, HeaderOf(b, k));
    FileRead(buf, b.bigEndian, HeaderOf(b, k), b.files[k]);
  }

  /** What is written, to the word: the image carries the index in 64-bit width, in either byte order, with
      its own length at 12 and the buckets right behind the salt. */
  lemma WrittenWords(b: Index)
    requires Producible(b) && End(b) < MAX_SIZE
    ensures Carries(Image(b), b, true)
    ensures I32(Image(b), 12, b.bigEndian) == |Image(b)| && I64(Image(b), 24, b.bigEndian) == 36 + |b.salt|
  {
    hide Mark, Salted, BucketWords, FileWords, ImageStands, Producible, Image, BucketsAt, HeadersAt, End, Consecutive, Placed, FirstFile, I32, I64;
    var buf := Image(b);
    ImagePieces(b);
    LongHeadWords(buf, b);
    IsConsecutive(b);
    LongBound(buf, b);
    var at := 36 + |b.salt|;
    forall i | 0 <= i < |b.buckets|
      ensures BucketCarried(buf, b, at, true, i)
    {
      LongBucketWords(buf, b, i);
      BucketWithin(b.buckets, i);
      RunInside(buf, b, i);
      var run := HeaderRun(b, i);
      forall j | 0 <= j < b.buckets[i].count
        ensures FileCarried(buf, b, i, run, j)
      {
        LongFileWords(buf, b, b.buckets[i].firstFile + j);
        assert run + 40 * j == HeadersAt(b) + 40 * (b.buckets[i].firstFile + j);
      }
    }
  }

  lemma LongBound(buf: bytes, b: Index)
    requires ImageStands(buf, b)
    ensures 36 + |b.salt| <= |buf|
  {
    hide Flatten, BucketRows, HeaderRows, MetaRows, HeadStands, HeadersAt, End;
  }

  /** What can be written: an image of less than 2^31 bytes, and sizes for which the headers have room. */
  lemma WritableMeans(b: Index)
    ensures Bhd5Writing.Writable(b) <==>
      && |b.buckets| <= 0x7FF_FFFF_FFFF_FFFF && |b.salt| < 0x8000_0000 && |Image(b)| < 0x8000_0000
      && forall i :: 0 <= i < |b.files| ==>
           b.files[i].unpadded < if b.game == DarkSouls3 || b.game == Sekiro then 0x8000_0000_0000_0000 else 0x1_0000_0000
  {
    hide Image, HeadStands, BucketRows, HeaderRows, MetaRows, Flatten, End;
    ImagePieces(b);
  }
}
