/** BND4: the archive, and its image as a closed form. Every offset in the image is computed
    from the sizes of what precedes it; nothing is back-patched here. */
module Bnd4 {
  import opened Bytes
  import opened Format
  import opened Reading
  import opened Texts
  import opened Binder
  import opened PathHashing
  import opened HashTableCodec
  import HashIndex

  datatype Archive = Archive(
    version: Option<bytes>,
    format: byte,
    unk04: bool,
    unk05: bool,
    bigEndian: bool,
    bitBigEndian: bool,
    unicode: bool,
    extended: byte,
    files: seq<BinderFile>
  )

  const MAGIC: bytes := [0x42, 0x4E, 0x44, 0x34]
  const HEAD_SIZE: nat := 0x40
  const VERSION_SIZE: nat := 8
  const HASHED: byte := 4
  const EXTENDED_OPTIONS: set<int> := {0, 1, 4, 0x80}

  function Geo(b: Archive): Geometry {
    Geometry(true, b.format, b.bitBigEndian, b.bigEndian)
  }

  function CodecOf(env: Env, b: Archive): Codec {
    NameCodec(env, b.unicode, b.bigEndian)
  }

  function Hashes(files: seq<BinderFile>): (hs: seq<nat>)
    ensures |hs| == |files|
    ensures forall i :: 0 <= i < |hs| ==> hs[i] == PathHash(TextOf(files[i].name)) < 0x1_0000_0000
  {
    seq(|files|, i requires 0 <= i < |files| => PathHash(TextOf(files[i].name)))
  }

  /** An archive ready to be laid down: everything encoded, the index built. */
  datatype Plan = Plan(
    geo: Geometry,
    unk04: bool,
    unk05: bool,
    unicode: bool,
    extended: byte,
    version: bytes,
    files: seq<StoredFile>,
    hashes: seq<nat>,
    groups: nat,
    order: seq<HashIndex.Entry>
  )

  function PlanOf(env: Env, b: Archive, groups: nat, order: seq<HashIndex.Entry>): Plan {
    Plan(Geo(b), b.unk04, b.unk05, b.unicode, b.extended,
         FixedText(OrEmpty(env.sjis.encode(TextOf(b.version))), VERSION_SIZE),
         StoreAll(env, CodecOf(env, b), b.unicode, b.format, b.files), Hashes(b.files), groups, order)
  }

  // ------------------------------------------------------------------ offsets

  function NameBase(p: Plan): nat { EntryPos(p.geo, HEAD_SIZE, |p.files|) }
  function NamesEnd(p: Plan): nat { NamePos(p.files, NameBase(p), |p.files|) }
  function TableAt(p: Plan): nat { AlignUp(NamesEnd(p), 8) }

  function HeadersEnd(p: Plan): nat {
    if p.extended == HASHED then TableAt(p) + TableSize(p.groups, |p.order|) else NamesEnd(p)
  }

  function TableOffset(p: Plan): nat {
    if p.extended == HASHED then TableAt(p) else 0
  }

  // ------------------------------------------------------------------ image

  function HeadFlags(p: Plan): (s: bytes)
    ensures |s| == 12
  {
    MAGIC + [Bool(p.unk04), Bool(p.unk05), 0, 0, 0, Bool(p.geo.be), Bool(!p.geo.bitBig), 0]
  }

  function HeadSizes(p: Plan): (s: bytes)
    ensures |s| == 20 + |p.version|
  {
    Enc(p.geo.be, |p.files|, 4) + Enc(p.geo.be, HEAD_SIZE, 8) + p.version + Enc(p.geo.be, EntrySize(p.geo), 8)
  }

  function HeadOffsets(p: Plan): (s: bytes)
    ensures |s| == 24
  {
    Enc(p.geo.be, HeadersEnd(p), 8)
    + [Bool(p.unicode), WriteFormat(p.geo.format, p.geo.bitBig), p.extended, 0]
    + Enc(p.geo.be, 0, 4)
    + Enc(p.geo.be, TableOffset(p), 8)
  }

  function Head(p: Plan): bytes {
    HeadFlags(p) + HeadSizes(p) + HeadOffsets(p)
  }

  function TableRegion(p: Plan): bytes {
    Opt(p.extended == HASHED,
        Fill(TableAt(p) - NamesEnd(p), 0) + TableBytes(p.geo.be, TableAt(p), HashIndex.Entries(p.hashes), p.groups, p.order))
  }

  /** Everything in front of the hash table. */
  function Front(p: Plan): bytes {
    Head(p) + EntryTable(p.geo, p.files, NameBase(p), HeadersEnd(p), |p.files|) + NameTable(p.files, |p.files|)
  }

  function Image(p: Plan): bytes {
    Front(p) + TableRegion(p) + DataTable(p.files, HeadersEnd(p), |p.files|)
  }

  /** A buffer carries the image piece by piece, each at its computed offset. */
  ghost predicate ImageStands(buf: bytes, p: Plan) {
    && At(buf, 0, HeadFlags(p)) && At(buf, 12, HeadSizes(p)) && At(buf, 0x28, HeadOffsets(p))
    && At(buf, HEAD_SIZE, EntryTable(p.geo, p.files, NameBase(p), HeadersEnd(p), |p.files|))
    && At(buf, NameBase(p), NameTable(p.files, |p.files|))
    && (p.extended == HASHED ==>
          && At(buf, NamesEnd(p), Fill(TableAt(p) - NamesEnd(p), 0))
          && At(buf, TableAt(p), TableBytes(p.geo.be, TableAt(p), HashIndex.Entries(p.hashes), p.groups, p.order)))
    && At(buf, HeadersEnd(p), DataTable(p.files, HeadersEnd(p), |p.files|))
    && |buf| == DataEnd(p.files, HeadersEnd(p), |p.files|)
  }

  lemma FrontSize(p: Plan)
    requires |p.version| == VERSION_SIZE
    ensures |Head(p)| == HEAD_SIZE
    ensures |Front(p)| == NamesEnd(p)
  {
    hide HeadFlags, HeadSizes, HeadOffsets, HeadersEnd, EntryTable, NameTable, EntryPos, NamePos;
    TableSizes(p.geo, p.files, NameBase(p), HeadersEnd(p), HEAD_SIZE, |p.files|);
  }

  /** The image carries its pieces where the offsets say. */
  lemma ImagePieces(p: Plan)
    requires |p.version| == VERSION_SIZE
    ensures ImageStands(Image(p), p)
  {
    hide At, HeadFlags, HeadSizes, HeadOffsets, EntryTable, NameTable, DataTable, EntryPos, NamePos, DataEnd, TableBytes;
    var buf := Image(p);
    AtWhole(buf);
    FrontSize(p);
    TableSizes(p.geo, p.files, NameBase(p), HeadersEnd(p), HEAD_SIZE, |p.files|);
    AtSplit3(buf, 0, Front(p), TableRegion(p), DataTable(p.files, HeadersEnd(p), |p.files|));
    AtSplit3(buf, 0, Head(p), EntryTable(p.geo, p.files, NameBase(p), HeadersEnd(p), |p.files|), NameTable(p.files, |p.files|));
    AtSplit3(buf, 0, HeadFlags(p), HeadSizes(p), HeadOffsets(p));
    if p.extended == HASHED {
      AtSplit(buf, NamesEnd(p), Fill(TableAt(p) - NamesEnd(p), 0),
              TableBytes(p.geo.be, TableAt(p), HashIndex.Entries(p.hashes), p.groups, p.order));
    }
  }

  lemma OffsetsIndependent(p: Plan, order: seq<HashIndex.Entry>)
    requires |order| == |p.order|
    ensures var q := p.(order := order);
      && NameBase(q) == NameBase(p) && NamesEnd(q) == NamesEnd(p) && TableAt(q) == TableAt(p)
      && HeadersEnd(q) == HeadersEnd(p) && TableOffset(q) == TableOffset(p)
  {
    hide EntryPos, NamePos, AlignUp, TableSize;
  }

  /** Rebuilding the index changes nothing in front of it. */
  lemma FrontIndependent(p: Plan, order: seq<HashIndex.Entry>)
    requires |order| == |p.order|
    ensures Front(p.(order := order)) == Front(p)
  {
    hide EntryTable, NameTable, NameBase, NamesEnd, TableAt, HeadersEnd, TableOffset, Enc;
    OffsetsIndependent(p, order);
  }

  lemma FrontStands(p: Plan)
    ensures At(Image(p), 0, Front(p))
  {
    hide At, Front, TableRegion, DataTable, HeadersEnd;
    AtWhole(Image(p));
    AtSplit3(Image(p), 0, Front(p), TableRegion(p), DataTable(p.files, HeadersEnd(p), |p.files|));
  }

  /** With an index, the image begins with everything up to the table, padding included. */
  lemma FrontAndPadStand(p: Plan)
    requires p.extended == HASHED && |p.version| == VERSION_SIZE
    ensures At(Image(p), 0, Front(p) + Fill(TableAt(p) - NamesEnd(p), 0))
    ensures |Front(p) + Fill(TableAt(p) - NamesEnd(p), 0)| == TableAt(p)
  {
    hide At, Image, Front, Head, HeadFlags, HeadSizes, HeadOffsets, EntryTable, NameTable, DataTable, DataEnd, HeadersEnd, TableBytes,
      NamesEnd, NameBase, TableAt;
    FrontSize(p);
    FrontStands(p);
    ImagePieces(p);
    TableAfterNames(p);
    AtSplit(Image(p), 0, Front(p), Fill(TableAt(p) - NamesEnd(p), 0));
  }

  lemma TableAfterNames(p: Plan)
    ensures NamesEnd(p) <= TableAt(p) < NamesEnd(p) + 8
  {
  }

  /** Every payload stands in the image behind all entries, names and the index, in file order and without
      overlap, on a 16-byte boundary unless its file is empty; the entries, and with them every field
      that is filled later, lie in front of the names. */
  lemma PayloadsInImage(p: Plan, i: nat)
    requires |p.version| == VERSION_SIZE && i < |p.files|
    ensures var at, payload := DataPos(p.files, HeadersEnd(p), i), p.files[i].payload;
      && NameBase(p) <= NamesEnd(p) <= HeadersEnd(p) <= at
      && At(Image(p), at, payload)
      && (p.files[i].size > 0 ==> at % 16 == 0)
      && forall j :: i < j < |p.files| ==> at + |payload| <= DataPos(p.files, HeadersEnd(p), j)
    ensures HEAD_SIZE <= EntryPos(p.geo, HEAD_SIZE, i) && EntryPos(p.geo, HEAD_SIZE, i) + EntrySize(p.geo) <= NameBase(p)
  {
    hide At, Image, EntrySize, EntryPos, NamePos, DataPos, DataEnd, EntryTable, NameTable, DataTable, HeadFlags, HeadSizes, HeadOffsets, TableBytes;
    EntriesInFront(p.geo, HEAD_SIZE, i, |p.files|);
    ImagePieces(p);
    PayloadsLaidOut(p.files, HeadersEnd(p), i);
    RecordsStand(Image(p), p.geo, p.files, HEAD_SIZE, NameBase(p), HeadersEnd(p), i);
  }
}
