/** BHD5: the index of an encrypted archive pair, and its image as a closed form in which every
    offset is computed from the sizes of what precedes the record it points to. */
module Bhd5 {
  import opened Bytes
  import opened Reading

  datatype Game = Sekiro | EldenRing | Nightreign | ArmoredCore6 | DarkSouls3

  /** Games with 32-bit path hashes and 64-bit unpadded sizes. */
  predicate Narrow(game: Game) {
    game.Sekiro? || game.DarkSouls3?
  }

  datatype Range = Range(start: int, end: int)

  /** A SHA hash or an AES key, with the ranges of the file it applies to. */
  datatype Sealed = Sealed(key: bytes, ranges: seq<Range>)

  datatype File = File(
    pathHash: nat,
    padded: nat,
    unpadded: nat,
    offset: int,
    sha: Option<Sealed>,
    aes: Option<Sealed>
  )

  /** A bucket owns `count` files beginning with `firstFile`. */
  datatype Bucket = Bucket(count: nat, firstFile: nat)

  datatype Index = Index(
    game: Game,
    bigEndian: bool,
    unk05: bool,
    salt: bytes,
    buckets: seq<Bucket>,
    files: seq<File>
  )

  const MAGIC: bytes := [0x42, 0x48, 0x44, 0x35]
  const HEAD_SIZE: nat := 0x24
  const BUCKET_SIZE: nat := 16
  const HEADER_SIZE: nat := 40
  const SHA_SIZE: nat := 32
  const AES_SIZE: nat := 16
  const MAX_RANGES: nat := 1_000_000
  const INT32_MAX: nat := 0x7FFF_FFFF
  const INT64_MAX: nat := 0x7FFF_FFFF_FFFF_FFFF
  const UINT32_MAX: nat := 0xFFFF_FFFF

  // ------------------------------------------------------------------ offsets

  function BucketsAt(b: Index): nat { HEAD_SIZE + |b.salt| }
  function HeadersAt(b: Index): nat { BucketsAt(b) + BUCKET_SIZE * |b.buckets| }
  function MetaAt(b: Index): nat { HeadersAt(b) + HEADER_SIZE * |b.files| }

  /** How many files the first `k` buckets own. */
  function FirstFile(buckets: seq<Bucket>, k: nat): nat
    requires k <= |buckets|
  {
    if k == 0 then 0 else FirstFile(buckets, k - 1) + buckets[k - 1].count
  }

  /** Where the file headers of bucket `i` begin. */
  function HeaderRun(b: Index, i: nat): nat
    requires i <= |b.buckets|
  {
    HeadersAt(b) + HEADER_SIZE * FirstFile(b.buckets, i)
  }

  function SealedSize(s: Option<Sealed>): nat {
    if s.None? then 0 else |s.value.key| + 4 + 16 * |s.value.ranges|
  }

  /** Where the SHA record of file `k` stands, or would stand. */
  function MetaPos(files: seq<File>, base: nat, k: nat): (p: nat)
    requires k <= |files|
    ensures p >= base
  {
    if k == 0 then base else MetaPos(files, base, k - 1) + SealedSize(files[k - 1].sha) + SealedSize(files[k - 1].aes)
  }

  function ShaAt(files: seq<File>, base: nat, i: nat): nat
    requires i < |files|
  {
    if files[i].sha.None? then 0 else MetaPos(files, base, i)
  }

  function AesAt(files: seq<File>, base: nat, i: nat): nat
    requires i < |files|
  {
    if files[i].aes.None? then 0 else MetaPos(files, base, i) + SealedSize(files[i].sha)
  }

  function End(b: Index): nat { MetaPos(b.files, MetaAt(b), |b.files|) }

  // ------------------------------------------------------------------ records

  function RangeBytes(be: bool, r: Range): (s: bytes)
    ensures |s| == 16
  {
    Enc(be, r.start, 8) + Enc(be, r.end, 8)
  }

  function RangeRows(be: bool, ranges: seq<Range>): (rows: seq<bytes>)
    ensures |rows| == |ranges| && AllSized(rows, 16)
    ensures forall i :: 0 <= i < |rows| ==> rows[i] == RangeBytes(be, ranges[i])
  {
    seq(|ranges|, i requires 0 <= i < |ranges| => RangeBytes(be, ranges[i]))
  }

  function SealedBytes(be: bool, s: Option<Sealed>): (t: bytes)
    ensures |t| == SealedSize(s)
  {
    if s.None? then []
    else
      FlattenUniform(RangeRows(be, s.value.ranges), 16);
      s.value.key + Enc(be, |s.value.ranges|, 4) + Flatten(RangeRows(be, s.value.ranges))
  }

  function HeaderBytes(game: Game, be: bool, f: File, shaAt: nat, aesAt: nat): (s: bytes)
    ensures |s| == HEADER_SIZE
  {
    if Narrow(game) then
      (Enc(be, f.pathHash, 4) + Enc(be, f.padded, 4) + Enc(be, f.offset, 8))
      + (Enc(be, shaAt, 8) + Enc(be, aesAt, 8) + Enc(be, f.unpadded, 8))
    else
      (Enc(be, f.pathHash, 8) + Enc(be, f.padded, 4) + Enc(be, f.unpadded, 4))
      + (Enc(be, f.offset, 8) + Enc(be, shaAt, 8) + Enc(be, aesAt, 8))
  }

  function BucketBytes(be: bool, count: nat, at: nat): (s: bytes)
    ensures |s| == BUCKET_SIZE
  {
    Enc(be, count, 4) + Enc(be, 1, 4) + Enc(be, at, 8)
  }

  function BucketRows(b: Index): (rows: seq<bytes>)
    ensures |rows| == |b.buckets| && AllSized(rows, BUCKET_SIZE)
    ensures forall i :: 0 <= i < |rows| ==>
              rows[i] == BucketBytes(b.bigEndian, b.buckets[i].count, HeaderRun(b, i))
  {
    seq(|b.buckets|, i requires 0 <= i < |b.buckets| =>
      BucketBytes(b.bigEndian, b.buckets[i].count, HeaderRun(b, i)))
  }

  function HeaderRows(b: Index): (rows: seq<bytes>)
    ensures |rows| == |b.files| && AllSized(rows, HEADER_SIZE)
    ensures forall i :: 0 <= i < |rows| ==>
              rows[i] == HeaderBytes(b.game, b.bigEndian, b.files[i], ShaAt(b.files, MetaAt(b), i), AesAt(b.files, MetaAt(b), i))
  {
    seq(|b.files|, i requires 0 <= i < |b.files| =>
      HeaderBytes(b.game, b.bigEndian, b.files[i], ShaAt(b.files, MetaAt(b), i), AesAt(b.files, MetaAt(b), i)))
  }

  function MetaRows(be: bool, files: seq<File>): (rows: seq<bytes>)
    ensures |rows| == |files|
    ensures forall i :: 0 <= i < |rows| ==> rows[i] == SealedBytes(be, files[i].sha) + SealedBytes(be, files[i].aes)
  {
    seq(|files|, i requires 0 <= i < |files| => SealedBytes(be, files[i].sha) + SealedBytes(be, files[i].aes))
  }

  // ------------------------------------------------------------------ image

  function HeadFlags(b: Index): (s: bytes)
    ensures |s| == 8
  {
    MAGIC + [if b.bigEndian then 0 else 0xFF, Bool(b.unk05), 0, 0]
  }

  function HeadSizes(b: Index): (s: bytes)
    ensures |s| == 28
  {
    Enc(b.bigEndian, 1, 4) + Enc(b.bigEndian, End(b), 4)
    + (Enc(b.bigEndian, |b.buckets|, 8) + Enc(b.bigEndian, BucketsAt(b), 8) + Enc(b.bigEndian, |b.salt|, 4))
  }

  function Image(b: Index): bytes {
    (HeadFlags(b) + HeadSizes(b) + b.salt)
    + Flatten(BucketRows(b)) + Flatten(HeaderRows(b)) + Flatten(MetaRows(b.bigEndian, b.files))
  }

  /** A buffer carries the image piece by piece, each at its computed offset. */
  ghost predicate ImageStands(buf: bytes, b: Index) {
    var be := b.bigEndian;
    && HeadStands(buf, b)
    && At(buf, HEAD_SIZE, b.salt)
    && At(buf, BucketsAt(b), Flatten(BucketRows(b)))
    && At(buf, HeadersAt(b), Flatten(HeaderRows(b)))
    && At(buf, MetaAt(b), Flatten(MetaRows(be, b.files)))
    && |buf| == End(b)
  }

  ghost predicate HeadStands(buf: bytes, b: Index) {
    var be := b.bigEndian;
    && At(buf, 0, MAGIC) && At(buf, 4, [if be then 0 else 0xFF, Bool(b.unk05), 0, 0])
    && At(buf, 8, Enc(be, 1, 4)) && At(buf, 12, Enc(be, End(b), 4))
    && At(buf, 16, Enc(be, |b.buckets|, 8)) && At(buf, 24, Enc(be, BucketsAt(b), 8)) && At(buf, 32, Enc(be, |b.salt|, 4))
  }

  /** The precomputed position of a file's records is where its part of the concatenation begins. */
  lemma {:induction false} MetaSize(be: bool, files: seq<File>, base: nat, k: nat)
    requires k <= |files|
    ensures MetaPos(files, base, k) == base + |Flatten(MetaRows(be, files)[..k])|
  {
    hide SealedBytes, SealedSize;
    var rows := MetaRows(be, files);
    if k > 0 {
      MetaSize(be, files, base, k - 1);
      assert rows[..k][..k - 1] == rows[..k - 1];
    }
  }

  lemma HeadPieces(buf: bytes, b: Index)
    requires At(buf, 0, HeadFlags(b)) && At(buf, 8, HeadSizes(b))
    ensures HeadStands(buf, b)
  {
    hide At, Enc, End, BucketsAt;
    var be := b.bigEndian;
    AtSplit(buf, 0, MAGIC, [if be then 0 else 0xFF, Bool(b.unk05), 0, 0]);
    AtSplit3(buf, 8, Enc(be, 1, 4), Enc(be, End(b), 4), Enc(be, |b.buckets|, 8) + Enc(be, BucketsAt(b), 8) + Enc(be, |b.salt|, 4));
    AtSplit3(buf, 16, Enc(be, |b.buckets|, 8), Enc(be, BucketsAt(b), 8), Enc(be, |b.salt|, 4));
  }

  /** The image carries its pieces where the offsets say. */
  lemma ImagePieces(b: Index)
    ensures ImageStands(Image(b), b)
  {
    hide At, Enc, HeadFlags, HeadSizes, HeadStands, BucketRows, HeaderRows, MetaRows, Flatten, AllSized;
    var buf, be := Image(b), b.bigEndian;
    AtWhole(buf);
    FlattenUniform(BucketRows(b), BUCKET_SIZE);
    FlattenUniform(HeaderRows(b), HEADER_SIZE);
    MetaSize(be, b.files, MetaAt(b), |b.files|);
    assert MetaRows(be, b.files)[..|b.files|] == MetaRows(be, b.files);
    AtSplit4(buf, 0, HeadFlags(b) + HeadSizes(b) + b.salt, Flatten(BucketRows(b)), Flatten(HeaderRows(b)), Flatten(MetaRows(be, b.files)));
    AtSplit3(buf, 0, HeadFlags(b), HeadSizes(b), b.salt);
    HeadPieces(buf, b);
  }

  lemma MetaStep(files: seq<File>, base: nat, i: nat)
    requires i < |files|
    ensures MetaPos(files, base, 0) == base
    ensures MetaPos(files, base, i + 1) == MetaPos(files, base, i) + SealedSize(files[i].sha) + SealedSize(files[i].aes)
  {
    hide SealedSize;
  }

  lemma MetaStands(buf: bytes, b: Index, i: nat)
    requires ImageStands(buf, b) && i < |b.files|
    ensures var p := MetaPos(b.files, MetaAt(b), i);
      && At(buf, p, SealedBytes(b.bigEndian, b.files[i].sha))
      && At(buf, p + SealedSize(b.files[i].sha), SealedBytes(b.bigEndian, b.files[i].aes))
      && MetaPos(b.files, MetaAt(b), i + 1) == p + SealedSize(b.files[i].sha) + SealedSize(b.files[i].aes)
  {
    hide At, Enc, SealedBytes, MetaAt, HeadersAt, BucketsAt, MetaPos, HeadStands, Flatten, BucketRows, HeaderRows, AllSized, End;
    MetaStep(b.files, MetaAt(b), i);
    MetaSize(b.bigEndian, b.files, MetaAt(b), i);
    PartStands(buf, MetaAt(b), MetaRows(b.bigEndian, b.files), i);
    AtSplit(buf, MetaPos(b.files, MetaAt(b), i), SealedBytes(b.bigEndian, b.files[i].sha), SealedBytes(b.bigEndian, b.files[i].aes));
  }

  /** Every bucket record, file header and range record of the image stands at the offset that
      was computed for it before anything was written. */
  lemma RecordsStand(buf: bytes, b: Index)
    requires ImageStands(buf, b)
    ensures forall i :: 0 <= i < |b.buckets| ==>
      At(buf, BucketsAt(b) + BUCKET_SIZE * i,
         BucketBytes(b.bigEndian, b.buckets[i].count, HeaderRun(b, i)))
    ensures forall i :: 0 <= i < |b.files| ==>
      At(buf, HeadersAt(b) + HEADER_SIZE * i,
         HeaderBytes(b.game, b.bigEndian, b.files[i], ShaAt(b.files, MetaAt(b), i), AesAt(b.files, MetaAt(b), i)))
    ensures forall i :: 0 <= i < |b.files| && b.files[i].sha.Some? ==>
      At(buf, ShaAt(b.files, MetaAt(b), i), SealedBytes(b.bigEndian, b.files[i].sha))
    ensures forall i :: 0 <= i < |b.files| && b.files[i].aes.Some? ==>
      At(buf, AesAt(b.files, MetaAt(b), i), SealedBytes(b.bigEndian, b.files[i].aes))
  {
    hide At, Enc, BucketBytes, HeaderBytes, SealedBytes, HeadersAt, MetaAt, BucketsAt, HeaderRun, MetaPos, HeadStands, Flatten, AllSized;
    forall i | 0 <= i < |b.buckets|
      ensures At(buf, BucketsAt(b) + BUCKET_SIZE * i, BucketRows(b)[i])
    {
      RowStands(buf, BucketsAt(b), BucketRows(b), BUCKET_SIZE, i);
    }
    forall i | 0 <= i < |b.files|
      ensures At(buf, HeadersAt(b) + HEADER_SIZE * i, HeaderRows(b)[i])
    {
      RowStands(buf, HeadersAt(b), HeaderRows(b), HEADER_SIZE, i);
    }
    forall i | 0 <= i < |b.files|
      ensures At(buf, MetaPos(b.files, MetaAt(b), i), SealedBytes(b.bigEndian, b.files[i].sha))
      ensures At(buf, MetaPos(b.files, MetaAt(b), i) + SealedSize(b.files[i].sha), SealedBytes(b.bigEndian, b.files[i].aes))
    {
      MetaStands(buf, b, i);
    }
  }
}
