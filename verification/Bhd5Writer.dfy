/** The BHD5 writer: all offsets first, into arrays, then a single pass of appends; proved to
    produce the closed-form image. */
module Bhd5Writing {
  import opened Bytes
  import opened Reading
  import opened Reservations
  import opened Writing
  import opened Emitting
  import opened Bhd5

  lemma RunStep(b: Index, i: nat)
    requires i < |b.buckets|
    ensures HeaderRun(b, i + 1) == HeaderRun(b, i) + HEADER_SIZE * b.buckets[i].count
  {
    hide HeadersAt;
  }

  lemma NoRuns(b: Index)
    ensures HeaderRun(b, 0) == HeadersAt(b)
  {
  }

  /** The keys have their fixed sizes. */
  ghost predicate KeysSized(b: Index) {
    forall i :: 0 <= i < |b.files| ==>
      && (b.files[i].sha.Some? ==> |b.files[i].sha.value.key| == SHA_SIZE)
      && (b.files[i].aes.Some? ==> |b.files[i].aes.value.key| == AES_SIZE)
  }

  method PlanRuns(b: Index) returns (runs: array<nat>)
    ensures fresh(runs) && runs.Length == |b.buckets| && forall i :: 0 <= i < |b.buckets| ==> runs[i] == HeaderRun(b, i)
  {
    hide HeadersAt, HeaderRun;
    NoRuns(b);
    runs := new nat[|b.buckets|];
    var cur := HeadersAt(b);
    for i := 0 to |b.buckets|
      invariant cur == HeaderRun(b, i)
      invariant forall j :: 0 <= j < i ==> runs[j] == HeaderRun(b, j)
    {
      RunStep(b, i);
      runs[i] := cur;
      cur := cur + HEADER_SIZE * b.buckets[i].count;
    }
  }

  method PlanMeta(b: Index) returns (shas: array<nat>, aess: array<nat>, end: nat)
    requires KeysSized(b)
    ensures fresh(shas) && fresh(aess) && shas.Length == aess.Length == |b.files| && end == End(b)
    ensures forall i :: 0 <= i < |b.files| ==>
              shas[i] == ShaAt(b.files, MetaAt(b), i) && aess[i] == AesAt(b.files, MetaAt(b), i)
  {
    hide MetaAt, MetaPos;
    shas := new nat[|b.files|](_ => 0);
    aess := new nat[|b.files|](_ => 0);
    end := MetaAt(b);
    assert MetaPos(b.files, MetaAt(b), 0) == MetaAt(b) by { NoMeta(b.files, MetaAt(b)); }
    for i := 0 to |b.files|
      invariant end == MetaPos(b.files, MetaAt(b), i)
      invariant forall j :: i <= j < |b.files| ==> shas[j] == 0 && aess[j] == 0
      invariant forall j :: 0 <= j < i ==> shas[j] == ShaAt(b.files, MetaAt(b), j) && aess[j] == AesAt(b.files, MetaAt(b), j)
    {
      MetaStep(b.files, MetaAt(b), i);
      if b.files[i].sha.Some? {
        shas[i] := end;
        end := end + 36 + |b.files[i].sha.value.ranges| * 16;
      }
      if b.files[i].aes.Some? {
        aess[i] := end;
        end := end + 20 + |b.files[i].aes.value.ranges| * 16;
      }
    }
  }

  lemma NoMeta(files: seq<File>, base: nat)
    ensures MetaPos(files, base, 0) == base
  {
  }

  // ------------------------------------------------------------------ emission

  method WriteHead(w: BinaryWriter, b: Index, end: nat)
    requires Live(w, b.bigEndian, map[]) && |w.buf| == 0 && end == End(b) && HeadStands(w.target, b) && At(w.target, HEAD_SIZE, b.salt)
    modifies w`buf, w`pos
    ensures |w.buf| == BucketsAt(b) && Live(w, b.bigEndian, map[])
  {
    hide Live, At, Enc, End;
    ghost var be := b.bigEndian;
    Emit(w, MAGIC, be, map[]);
    Emit(w, [if b.bigEndian then 0 else 0xFF, Bool(b.unk05), 0, 0], be, map[]);
    EmitInt(w, 1, 4, be, map[]);
    EmitInt(w, end, 4, be, map[]);
    EmitInt(w, |b.buckets|, 8, be, map[]);
    EmitInt(w, BucketsAt(b), 8, be, map[]);
    EmitInt(w, |b.salt|, 4, be, map[]);
    Emit(w, b.salt, be, map[]);
  }

  method WriteBuckets(w: BinaryWriter, b: Index, runs: array<nat>)
    requires Live(w, b.bigEndian, map[]) && |w.buf| == BucketsAt(b) && ImageStands(w.target, b)
    requires runs.Length == |b.buckets| && forall i :: 0 <= i < |b.buckets| ==> runs[i] == HeaderRun(b, i)
    modifies w`buf, w`pos
    ensures |w.buf| == HeadersAt(b) && Live(w, b.bigEndian, map[])
  {
    hide Live, At, Enc, HeaderRun, BucketsAt, ImageStands, SealedBytes, HeaderBytes;
    ghost var be := b.bigEndian;
    RecordsStand(w.target, b);
    for i := 0 to |b.buckets|
      invariant |w.buf| == BucketsAt(b) + BUCKET_SIZE * i && Live(w, be, map[])
    {
      AtSplit3(w.target, |w.buf|, Enc(be, b.buckets[i].count, 4), Enc(be, 1, 4), Enc(be, HeaderRun(b, i), 8));
      EmitInt(w, b.buckets[i].count, 4, be, map[]);
      EmitInt(w, 1, 4, be, map[]);
      EmitInt(w, runs[i], 8, be, map[]);
    }
  }

  /** A size the header has no room for. */
  predicate Unpackable(game: Game, f: File) {
    f.unpadded > if Narrow(game) then INT64_MAX else UINT32_MAX
  }

  method WriteHeader(w: BinaryWriter, game: Game, f: File, shaAt: nat, aesAt: nat, ghost be: bool) returns (r: Result<()>)
    requires Live(w, be, map[]) && At(w.target, |w.buf|, HeaderBytes(game, be, f, shaAt, aesAt))
    modifies w`buf, w`pos
    ensures r == if Unpackable(game, f) then Err(OutOfRange) else Ok(())
    ensures r.Ok? ==> |w.buf| == old(|w.buf|) + HEADER_SIZE && Live(w, be, map[])
  {
    hide Live, At, Enc;
    ghost var pos := |w.buf|;
    if Narrow(game) {
      AtSplit(w.target, pos, Enc(be, f.pathHash, 4) + Enc(be, f.padded, 4) + Enc(be, f.offset, 8),
              Enc(be, shaAt, 8) + Enc(be, aesAt, 8) + Enc(be, f.unpadded, 8));
      AtSplit3(w.target, pos, Enc(be, f.pathHash, 4), Enc(be, f.padded, 4), Enc(be, f.offset, 8));
      AtSplit3(w.target, pos + 16, Enc(be, shaAt, 8), Enc(be, aesAt, 8), Enc(be, f.unpadded, 8));
      EmitInt(w, f.pathHash, 4, be, map[]);
      EmitInt(w, f.padded, 4, be, map[]);
      EmitInt(w, f.offset, 8, be, map[]);
      EmitInt(w, shaAt, 8, be, map[]);
      EmitInt(w, aesAt, 8, be, map[]);
      if f.unpadded > INT64_MAX {
        return Err(OutOfRange);
      }
      EmitInt(w, f.unpadded, 8, be, map[]);
    } else {
      AtSplit(w.target, pos, Enc(be, f.pathHash, 8) + Enc(be, f.padded, 4) + Enc(be, f.unpadded, 4),
              Enc(be, f.offset, 8) + Enc(be, shaAt, 8) + Enc(be, aesAt, 8));
      AtSplit3(w.target, pos, Enc(be, f.pathHash, 8), Enc(be, f.padded, 4), Enc(be, f.unpadded, 4));
      AtSplit3(w.target, pos + 16, Enc(be, f.offset, 8), Enc(be, shaAt, 8), Enc(be, aesAt, 8));
      EmitInt(w, f.pathHash, 8, be, map[]);
      EmitInt(w, f.padded, 4, be, map[]);
      if f.unpadded > UINT32_MAX {
        return Err(OutOfRange);
      }
      EmitInt(w, f.unpadded, 4, be, map[]);
      EmitInt(w, f.offset, 8, be, map[]);
      EmitInt(w, shaAt, 8, be, map[]);
      EmitInt(w, aesAt, 8, be, map[]);
    }
    return Ok(());
  }

  method WriteHeaders(w: BinaryWriter, b: Index, shas: array<nat>, aess: array<nat>) returns (r: Result<()>)
    requires Live(w, b.bigEndian, map[]) && |w.buf| == HeadersAt(b) && ImageStands(w.target, b)
    requires shas.Length == aess.Length == |b.files|
    requires forall i :: 0 <= i < |b.files| ==>
               shas[i] == ShaAt(b.files, MetaAt(b), i) && aess[i] == AesAt(b.files, MetaAt(b), i)
    modifies w`buf, w`pos
    ensures r == if exists i :: 0 <= i < |b.files| && Unpackable(b.game, b.files[i]) then Err(OutOfRange) else Ok(())
    ensures r.Ok? ==> |w.buf| == MetaAt(b) && Live(w, b.bigEndian, map[])
  {
    hide Live, At, Enc, HeaderRun, HeadersAt, ImageStands, SealedBytes, HeaderBytes, BucketBytes, ShaAt, AesAt, Unpackable;
    RecordsStand(w.target, b);
    for i := 0 to |b.files|
      invariant |w.buf| == HeadersAt(b) + HEADER_SIZE * i && Live(w, b.bigEndian, map[])
      invariant forall j :: 0 <= j < i ==> !Unpackable(b.game, b.files[j])
    {
      var _ :- WriteHeader(w, b.game, b.files[i], shas[i], aess[i], b.bigEndian);
    }
    return Ok(());
  }

  method WriteSealed(w: BinaryWriter, s: Sealed, ghost be: bool)
    requires Live(w, be, map[]) && At(w.target, |w.buf|, SealedBytes(be, Some(s)))
    modifies w`buf, w`pos
    ensures |w.buf| == old(|w.buf|) + SealedSize(Some(s)) && Live(w, be, map[])
  {
    hide Live, At, Enc, Flatten;
    ghost var pos := |w.buf|;
    ghost var rows := RangeRows(be, s.ranges);
    AtSplit3(w.target, pos, s.key, Enc(be, |s.ranges|, 4), Flatten(rows));
    Emit(w, s.key, be, map[]);
    EmitInt(w, |s.ranges|, 4, be, map[]);
    ghost var at := |w.buf|;
    for j := 0 to |s.ranges|
      invariant |w.buf| == at + 16 * j && Live(w, be, map[])
    {
      RowStands(w.target, at, rows, 16, j);
      AtSplit(w.target, |w.buf|, Enc(be, s.ranges[j].start, 8), Enc(be, s.ranges[j].end, 8));
      EmitInt(w, s.ranges[j].start, 8, be, map[]);
      EmitInt(w, s.ranges[j].end, 8, be, map[]);
    }
  }

  method WriteMeta(w: BinaryWriter, b: Index)
    requires Live(w, b.bigEndian, map[]) && |w.buf| == MetaAt(b) && ImageStands(w.target, b)
    modifies w`buf, w`pos
    ensures |w.buf| == End(b) && Live(w, b.bigEndian, map[])
  {
    hide Live, At, MetaAt, MetaPos, ImageStands, SealedBytes;
    NoMeta(b.files, MetaAt(b));
    for i := 0 to |b.files|
      invariant |w.buf| == MetaPos(b.files, MetaAt(b), i) && Live(w, b.bigEndian, map[])
    {
      MetaStands(w.target, b, i);
      if b.files[i].sha.Some? {
        WriteSealed(w, b.files[i].sha.value, b.bigEndian);
      }
      if b.files[i].aes.Some? {
        WriteSealed(w, b.files[i].aes.value, b.bigEndian);
      }
    }
  }

  /** The checks in front of a write, and what the headers have no room for. */
  ghost predicate Writable(b: Index) {
    && |b.buckets| <= INT64_MAX / 16 && |b.salt| <= INT32_MAX && End(b) <= INT32_MAX
    && forall i :: 0 <= i < |b.files| ==> !Unpackable(b.game, b.files[i])
  }

  /** Writing succeeds exactly for writable indices, and then every record stands at the offset that
      was computed for it beforehand. */
  method WriteIndex(b: Index) returns (r: Result<bytes>)
    requires KeysSized(b)
    ensures r == if Writable(b) then Ok(Image(b)) else Err(OutOfRange)
  {
    hide Live, Image, ImageStands, HeadStands, KeysSized, Unpackable, End, HeadersAt, MetaAt, ShaAt, AesAt, HeaderRun;
    if |b.buckets| > INT64_MAX / 16 {
      return Err(OutOfRange);
    }
    if |b.salt| > INT32_MAX {
      return Err(OutOfRange);
    }
    var runs := PlanRuns(b);
    var shas, aess, end := PlanMeta(b);
    if end > INT32_MAX {
      return Err(OutOfRange);
    }
    ImagePieces(b);
    HeadHere(Image(b), b);
    var w := Start(b.bigEndian, Image(b));
    WriteHead(w, b, end);
    WriteBuckets(w, b, runs);
    var _ :- WriteHeaders(w, b, shas, aess);
    WriteMeta(w, b);
    r := Complete(w, b.bigEndian);
  }

  lemma HeadHere(buf: bytes, b: Index)
    requires ImageStands(buf, b)
    ensures HeadStands(buf, b) && At(buf, HEAD_SIZE, b.salt) && |buf| == End(b)
  {
    hide HeadStands;
  }
}
