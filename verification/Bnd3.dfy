/** BND3: the archive, and its image as a closed form. */
module Bnd3 {
  import opened Bytes
  import opened Format
  import opened Reading
  import opened Texts
  import opened Binder

  datatype Archive = Archive(
    version: Option<bytes>,
    format: byte,
    bigEndian: bool,
    bitBigEndian: bool,
    unk18: int,
    writeHeadersEnd: bool,
    files: seq<BinderFile>
  )

  const MAGIC: bytes := [0x42, 0x4E, 0x44, 0x33]
  const HEAD_SIZE: nat := 0x20
  const VERSION_SIZE: nat := 8
  const UNK18_OPTIONS: set<int> := {0, -0x8000_0000}

  /** The byte order in force behind the first sixteen bytes: asked for, or forced by the format. */
  function HostOrder(bigEndian: bool, format: byte): bool {
    bigEndian || ForcesBigEndian(format)
  }

  function Geo(b: Archive): Geometry {
    Geometry(false, b.format, b.bitBigEndian, HostOrder(b.bigEndian, b.format))
  }

  /** An archive ready to be laid down. */
  datatype Plan = Plan(
    geo: Geometry,
    bigEndian: bool,
    version: bytes,
    unk18: int,
    writeHeadersEnd: bool,
    files: seq<StoredFile>
  )

  function PlanOf(env: Env, b: Archive): Plan {
    Plan(Geo(b), b.bigEndian, FixedText(OrEmpty(env.sjis.encode(TextOf(b.version))), VERSION_SIZE),
         b.unk18, b.writeHeadersEnd, StoreAll(env, env.sjis, false, b.format, b.files))
  }

  function NameBase(p: Plan): nat { EntryPos(p.geo, HEAD_SIZE, |p.files|) }
  function NamesEnd(p: Plan): nat { NamePos(p.files, NameBase(p), |p.files|) }
  function RecordedEnd(p: Plan): nat { if p.writeHeadersEnd then NamesEnd(p) else 0 }

  function HeadBytes(p: Plan): (s: bytes)
    ensures |s| == 8 + |p.version|
  {
    MAGIC + p.version + [WriteFormat(p.geo.format, p.geo.bitBig), Bool(p.bigEndian), Bool(p.geo.bitBig), 0]
  }

  function HeadInts(p: Plan): (s: bytes)
    ensures |s| == 16
  {
    Enc(p.geo.be, |p.files|, 4) + Enc(p.geo.be, RecordedEnd(p), 4) + Enc(p.geo.be, p.unk18, 4) + Enc(p.geo.be, 0, 4)
  }

  function Front(p: Plan): bytes {
    HeadBytes(p) + HeadInts(p) + EntryTable(p.geo, p.files, NameBase(p), NamesEnd(p), |p.files|)
  }

  function Image(p: Plan): bytes {
    Front(p) + NameTable(p.files, |p.files|) + DataTable(p.files, NamesEnd(p), |p.files|)
  }

  /** A buffer carries the image piece by piece, each at its computed offset. */
  ghost predicate ImageStands(buf: bytes, p: Plan) {
    && At(buf, 0, MAGIC) && At(buf, 4, p.version)
    && At(buf, 12, [WriteFormat(p.geo.format, p.geo.bitBig), Bool(p.bigEndian), Bool(p.geo.bitBig), 0])
    && At(buf, 16, Enc(p.geo.be, |p.files|, 4)) && At(buf, 20, Enc(p.geo.be, RecordedEnd(p), 4))
    && At(buf, 24, Enc(p.geo.be, p.unk18, 4)) && At(buf, 28, Enc(p.geo.be, 0, 4))
    && HEAD_SIZE <= |buf|
    && BodyStands(buf, p.geo, p.files, HEAD_SIZE, NameBase(p), NamesEnd(p))
    && |buf| == DataEnd(p.files, NamesEnd(p), |p.files|)
  }

  /** The image carries its pieces where the offsets say. */
  lemma ImagePieces(p: Plan)
    requires |p.version| == VERSION_SIZE
    ensures ImageStands(Image(p), p)
  {
    hide At, Enc, EntryTable, NameTable, DataTable, EntryPos, NamePos, DataEnd, RecordedEnd, WriteFormat;
    var buf := Image(p);
    AtWhole(buf);
    TableSizes(p.geo, p.files, NameBase(p), NamesEnd(p), HEAD_SIZE, |p.files|);
    AtSplit3(buf, 0, Front(p), NameTable(p.files, |p.files|), DataTable(p.files, NamesEnd(p), |p.files|));
    AtSplit3(buf, 0, HeadBytes(p), HeadInts(p), EntryTable(p.geo, p.files, NameBase(p), NamesEnd(p), |p.files|));
    AtSplit3(buf, 0, MAGIC, p.version, [WriteFormat(p.geo.format, p.geo.bitBig), Bool(p.bigEndian), Bool(p.geo.bitBig), 0]);
    AtSplit4(buf, 16, Enc(p.geo.be, |p.files|, 4), Enc(p.geo.be, RecordedEnd(p), 4), Enc(p.geo.be, p.unk18, 4), Enc(p.geo.be, 0, 4));
  }

  /** Every payload stands in the image behind all entries, names, in file order and without
      overlap, on a 16-byte boundary unless its file is empty; the entries, and with them every field
      that is filled later, lie in front of the names. */
  lemma PayloadsInImage(p: Plan, i: nat)
    requires |p.version| == VERSION_SIZE && i < |p.files|
    ensures var at, payload := DataPos(p.files, NamesEnd(p), i), p.files[i].payload;
      && NameBase(p) <= NamesEnd(p) <= at
      && At(Image(p), at, payload)
      && (p.files[i].size > 0 ==> at % 16 == 0)
      && forall j :: i < j < |p.files| ==> at + |payload| <= DataPos(p.files, NamesEnd(p), j)
    ensures HEAD_SIZE <= EntryPos(p.geo, HEAD_SIZE, i) && EntryPos(p.geo, HEAD_SIZE, i) + EntrySize(p.geo) <= NameBase(p)
  {
    hide At, Image, EntrySize, EntryPos, NamePos, DataPos, DataEnd, EntryTable, NameTable, DataTable, RecordedEnd;
    EntriesInFront(p.geo, HEAD_SIZE, i, |p.files|);
    ImagePieces(p);
    PayloadsLaidOut(p.files, NamesEnd(p), i);
    RecordsStand(Image(p), p.geo, p.files, HEAD_SIZE, NameBase(p), NamesEnd(p), i);
  }
}
