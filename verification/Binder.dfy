/** What BND3 and BND4 share: files, text and compression codecs, the flag-dependent entry
    record, and the layout of entries, names and padded payloads. */
module Binder {
  import opened Bytes
  import opened Format
  import opened Reading
  import opened Texts

  /** Compression presets; the reader reports `ZLIB` for files that are not compressed. */
  datatype Info = Info(kind: nat, options: seq<int>)

  const ZLIB := Info(2, [])

  /** The foreign code the archives rely on: the platform's encoders and the DCX compressor. */
  datatype Env = Env(
    sjis: Codec,
    utf16le: Codec,
    utf16be: Codec,
    compress: (bytes, Info) -> Result<bytes>,
    decompress: bytes -> Result<(bytes, Info)>
  )

  /** A file of an archive. Names are UTF-8 text without a NUL; None is the missing name. */
  datatype BinderFile = BinderFile(id: int, name: Option<bytes>, data: bytes, flags: byte, info: Info)

  /** A file as it is laid down: encoded name with its terminator, raw size, stored payload. */
  datatype StoredFile = StoredFile(flags: byte, id: int, name: bytes, size: nat, payload: bytes)

  function NameCodec(env: Env, unicode: bool, be: bool): Codec {
    if !unicode then env.sjis else if be then env.utf16be else env.utf16le
  }

  function StoreName(c: Codec, wide: bool, format: byte, f: BinderFile): Result<bytes> {
    if HasNames(format) then StoreText(c, wide, TextOf(f.name)) else Ok([])
  }

  function StorePayload(env: Env, f: BinderFile): Result<bytes> {
    if IsCompressed(f.flags) then env.compress(f.data, f.info) else Ok(f.data)
  }

  /** The stored form; a part that cannot be encoded is left empty, and the write then fails. */
  function Store(env: Env, c: Codec, wide: bool, format: byte, f: BinderFile): StoredFile {
    StoredFile(f.flags, f.id, OrEmpty(StoreName(c, wide, format, f)), |f.data|, OrEmpty(StorePayload(env, f)))
  }

  function StoreAll(env: Env, c: Codec, wide: bool, format: byte, files: seq<BinderFile>): (s: seq<StoredFile>)
    ensures |s| == |files|
    ensures forall i :: 0 <= i < |s| ==> s[i] == Store(env, c, wide, format, files[i])
  {
    seq(|files|, i requires 0 <= i < |files| => Store(env, c, wide, format, files[i]))
  }

  // ------------------------------------------------------------------ entry records

  /** Everything the shape of an entry record depends on. */
  datatype Geometry = Geometry(v4: bool, format: byte, bitBig: bool, be: bool)

  function Opt(c: bool, s: bytes): bytes {
    if c then s else []
  }

  function OffsetWidth(f: byte): (w: nat) {
    if HasLongOffsets(f) then 8 else 4
  }

  /** Where the fields stand inside an entry, in both generations of the format. */
  function CompressedAt(g: Geometry): nat { if g.v4 then 8 else 4 }
  function SizeWidth(g: Geometry): nat { if g.v4 then 8 else 4 }
  function DataAt(g: Geometry): nat {
    if g.v4 then 16 + (if HasCompression(g.format) then 8 else 0) else 8
  }
  function IdAt(g: Geometry): nat { DataAt(g) + OffsetWidth(g.format) }
  function NameAt(g: Geometry): nat { IdAt(g) + if HasIds(g.format) then 4 else 0 }
  function TailAt(g: Geometry): nat { NameAt(g) + if HasNames(g.format) then 4 else 0 }
  function UncompressedAt(g: Geometry): nat { if g.v4 then 16 else TailAt(g) }

  function EntrySize(g: Geometry): (n: nat) {
    TailAt(g) + if g.v4 then (if g.format == NAMES1_ONLY then 8 else 0) else if HasCompression(g.format) then 4 else 0
  }

  /** The values an entry records. */
  datatype Fields = Fields(flags: byte, id: int, compressed: nat, uncompressed: nat, dataPos: nat, namePos: nat)

  /** Flags, three zero bytes, in BND4 a -1, and the stored size. */
  function EntryFront(g: Geometry, v: Fields): bytes {
    [WriteFlags(v.flags, g.bitBig)] + Fill(3, 0) + Opt(g.v4, Enc(g.be, -1, 4)) + Enc(g.be, v.compressed, SizeWidth(g))
  }

  function EntryMiddle(g: Geometry, v: Fields): bytes {
    Opt(g.v4 && HasCompression(g.format), Enc(g.be, v.uncompressed, 8))
    + Enc(g.be, v.dataPos, OffsetWidth(g.format))
    + Opt(HasIds(g.format), Enc(g.be, v.id, 4))
    + Opt(HasNames(g.format), Enc(g.be, v.namePos, 4))
  }

  function EntryTail(g: Geometry, v: Fields): bytes {
    if g.v4 then Opt(g.format == NAMES1_ONLY, Enc(g.be, v.id, 4) + Enc(g.be, 0, 4))
    else Opt(HasCompression(g.format), Enc(g.be, v.uncompressed, 4))
  }

  function Entry(g: Geometry, v: Fields): (s: bytes)
    ensures |s| == EntrySize(g)
  {
    EntryFront(g, v) + EntryMiddle(g, v) + EntryTail(g, v)
  }

  /** An entry in a buffer, field by field. */
  ghost predicate EntryStands(buf: bytes, pos: int, g: Geometry, v: Fields) {
    && At(buf, pos, [WriteFlags(v.flags, g.bitBig)])
    && At(buf, pos + 1, Fill(3, 0))
    && (g.v4 ==> At(buf, pos + 4, Enc(g.be, -1, 4)))
    && At(buf, pos + CompressedAt(g), Enc(g.be, v.compressed, SizeWidth(g)))
    && (HasCompression(g.format) ==> At(buf, pos + UncompressedAt(g), Enc(g.be, v.uncompressed, SizeWidth(g))))
    && At(buf, pos + DataAt(g), Enc(g.be, v.dataPos, OffsetWidth(g.format)))
    && (HasIds(g.format) ==> At(buf, pos + IdAt(g), Enc(g.be, v.id, 4)))
    && (HasNames(g.format) ==> At(buf, pos + NameAt(g), Enc(g.be, v.namePos, 4)))
    && (g.v4 && g.format == NAMES1_ONLY ==> At(buf, pos + TailAt(g), Enc(g.be, v.id, 4)) && At(buf, pos + TailAt(g) + 4, Enc(g.be, 0, 4)))
  }

  lemma EntryFieldsStand(buf: bytes, pos: int, g: Geometry, v: Fields)
    requires At(buf, pos, Entry(g, v))
    ensures EntryStands(buf, pos, g, v)
  {
    hide At, Enc, Fill, WriteFlags, HasNames, HasIds, HasCompression, HasLongOffsets;
    AtSplit3(buf, pos, EntryFront(g, v), EntryMiddle(g, v), EntryTail(g, v));
    AtSplit4(buf, pos, [WriteFlags(v.flags, g.bitBig)], Fill(3, 0), Opt(g.v4, Enc(g.be, -1, 4)), Enc(g.be, v.compressed, SizeWidth(g)));
    var mid := pos + |EntryFront(g, v)|;
    AtSplit4(buf, mid, Opt(g.v4 && HasCompression(g.format), Enc(g.be, v.uncompressed, 8)),
             Enc(g.be, v.dataPos, OffsetWidth(g.format)), Opt(HasIds(g.format), Enc(g.be, v.id, 4)),
             Opt(HasNames(g.format), Enc(g.be, v.namePos, 4)));
    AtSplit(buf, mid + |EntryMiddle(g, v)|, Enc(g.be, v.id, 4), Enc(g.be, 0, 4));
  }

  // ------------------------------------------------------------------ layout

  function EntryPos(g: Geometry, base: nat, i: nat): nat {
    if i == 0 then base else EntryPos(g, base, i - 1) + EntrySize(g)
  }

  /** Where name `k` begins: names follow each other without gaps. */
  function NamePos(files: seq<StoredFile>, base: nat, k: nat): (p: nat)
    requires k <= |files|
    ensures p >= base
  {
    if k == 0 then base else NamePos(files, base, k - 1) + |files[k - 1].name|
  }

  /** Where the payloads of the first `k` files end. */
  function DataEnd(files: seq<StoredFile>, base: nat, k: nat): (p: nat)
    requires k <= |files|
    ensures p >= base
    decreases k, 0
  {
    if k == 0 then base else DataPos(files, base, k - 1) + |files[k - 1].payload|
  }

  /** Where payload `k` begins: on a 16-byte boundary unless the file is empty. */
  function DataPos(files: seq<StoredFile>, base: nat, k: nat): (p: nat)
    requires k < |files|
    ensures p >= DataEnd(files, base, k)
    decreases k, 1
  {
    var e := DataEnd(files, base, k);
    if files[k].size > 0 then AlignUp(e, 16) else e
  }

  function FieldsOf(files: seq<StoredFile>, nameBase: nat, dataBase: nat, i: nat): Fields
    requires i < |files|
  {
    Fields(files[i].flags, files[i].id, |files[i].payload|, files[i].size, DataPos(files, dataBase, i), NamePos(files, nameBase, i))
  }

  function EntryTable(g: Geometry, files: seq<StoredFile>, nameBase: nat, dataBase: nat, k: nat): (s: bytes)
    requires k <= |files|
  {
    if k == 0 then []
    else EntryTable(g, files, nameBase, dataBase, k - 1) + Entry(g, FieldsOf(files, nameBase, dataBase, k - 1))
  }

  function NameTable(files: seq<StoredFile>, k: nat): (s: bytes)
    requires k <= |files|
  {
    if k == 0 then [] else NameTable(files, k - 1) + files[k - 1].name
  }

  function DataTable(files: seq<StoredFile>, base: nat, k: nat): (s: bytes)
    requires k <= |files|
  {
    if k == 0 then []
    else DataTable(files, base, k - 1) + Padded(files, base, k - 1)
  }

  /** A payload with the zero bytes in front of it. */
  function Padded(files: seq<StoredFile>, base: nat, i: nat): (s: bytes)
    requires i < |files|
    ensures |s| == DataPos(files, base, i) - DataEnd(files, base, i) + |files[i].payload|
  {
    Fill(DataPos(files, base, i) - DataEnd(files, base, i), 0) + files[i].payload
  }

  lemma TableSteps(g: Geometry, files: seq<StoredFile>, nameBase: nat, dataBase: nat, base: nat, k: nat)
    requires k < |files|
    ensures EntryTable(g, files, nameBase, dataBase, k + 1)
         == EntryTable(g, files, nameBase, dataBase, k) + Entry(g, FieldsOf(files, nameBase, dataBase, k))
    ensures EntryPos(g, base, k + 1) == EntryPos(g, base, k) + EntrySize(g)
    ensures NameTable(files, k + 1) == NameTable(files, k) + files[k].name
    ensures NamePos(files, nameBase, k + 1) == NamePos(files, nameBase, k) + |files[k].name|
    ensures DataTable(files, dataBase, k + 1) == DataTable(files, dataBase, k) + Padded(files, dataBase, k)
    ensures DataEnd(files, dataBase, k + 1) == DataPos(files, dataBase, k) + |files[k].payload|
  {
  }

  lemma TablesBegin(g: Geometry, files: seq<StoredFile>, nameBase: nat, dataBase: nat, base: nat)
    ensures EntryTable(g, files, nameBase, dataBase, 0) == [] && EntryPos(g, base, 0) == base
    ensures NameTable(files, 0) == [] && NamePos(files, nameBase, 0) == nameBase
    ensures DataTable(files, dataBase, 0) == [] && DataEnd(files, dataBase, 0) == dataBase
  {
  }

  lemma {:induction false} TableSizes(g: Geometry, files: seq<StoredFile>, nameBase: nat, dataBase: nat, base: nat, k: nat)
    requires k <= |files|
    ensures EntryPos(g, base, k) == base + |EntryTable(g, files, nameBase, dataBase, k)|
    ensures NamePos(files, nameBase, k) == nameBase + |NameTable(files, k)|
    ensures DataEnd(files, dataBase, k) == dataBase + |DataTable(files, dataBase, k)|
  {
    hide *;
    if k == 0 {
      TablesBegin(g, files, nameBase, dataBase, base);
    } else {
      TableSizes(g, files, nameBase, dataBase, base, k - 1);
      TableSteps(g, files, nameBase, dataBase, base, k - 1);
    }
  }

  lemma {:induction false} EntryCountBound(g: Geometry, base: nat, k: nat)
    ensures EntryPos(g, base, k) >= base + k
  {
    if k > 0 {
      EntryCountBound(g, base, k - 1);
    }
  }

  lemma {:induction false} EntriesMultiply(g: Geometry, base: nat, k: nat)
    ensures EntryPos(g, base, k) == base + k * EntrySize(g)
  {
    hide EntrySize;
    if k > 0 {
      EntriesMultiply(g, base, k - 1);
      Distribute(k - 1, EntrySize(g));
    }
  }

  lemma Distribute(k: nat, n: nat)
    ensures (k + 1) * n == k * n + n
  {
  }

  lemma AtExtend(s: bytes, pos: int, t: bytes, u: bytes)
    requires At(s, pos, t)
    ensures At(s + u, pos, t)
  {
    AtSplit(s + u, 0, s, u);
    AtTrans(s + u, 0, s, pos, t);
  }

  lemma AtEnd(s: bytes, t: bytes)
    ensures At(s + t, |s|, t)
  {
    AtSplit(s + t, 0, s, t);
  }

  lemma {:induction false} EntryInTable(g: Geometry, files: seq<StoredFile>, nameBase: nat, dataBase: nat, k: nat, i: nat)
    requires i < k <= |files|
    ensures At(EntryTable(g, files, nameBase, dataBase, k), |EntryTable(g, files, nameBase, dataBase, i)|,
               Entry(g, FieldsOf(files, nameBase, dataBase, i)))
  {
    hide *;
    TableSteps(g, files, nameBase, dataBase, 0, k - 1);
    var s, e := EntryTable(g, files, nameBase, dataBase, k - 1), Entry(g, FieldsOf(files, nameBase, dataBase, k - 1));
    if i == k - 1 {
      AtEnd(s, e);
    } else {
      EntryInTable(g, files, nameBase, dataBase, k - 1, i);
      AtExtend(s, |EntryTable(g, files, nameBase, dataBase, i)|, Entry(g, FieldsOf(files, nameBase, dataBase, i)), e);
    }
  }

  lemma {:induction false} NameInTable(files: seq<StoredFile>, k: nat, i: nat)
    requires i < k <= |files|
    ensures At(NameTable(files, k), |NameTable(files, i)|, files[i].name)
  {
    if i == k - 1 {
      AtEnd(NameTable(files, k - 1), files[k - 1].name);
    } else {
      NameInTable(files, k - 1, i);
      AtExtend(NameTable(files, k - 1), |NameTable(files, i)|, files[i].name, files[k - 1].name);
    }
  }

  lemma {:induction false} DataInTable(g: Geometry, files: seq<StoredFile>, base: nat, k: nat, i: nat)
    requires i < k <= |files|
    ensures At(DataTable(files, base, k), |DataTable(files, base, i)|, Padded(files, base, i))
  {
    hide *;
    TableSteps(g, files, 0, base, 0, k - 1);
    var s, t := DataTable(files, base, k - 1), Padded(files, base, k - 1);
    if i == k - 1 {
      AtEnd(s, t);
    } else {
      DataInTable(g, files, base, k - 1, i);
      AtExtend(s, |DataTable(files, base, i)|, Padded(files, base, i), t);
    }
  }

  /** A buffer that carries the three tables carries every record at its computed position. */
  lemma RecordsStand(buf: bytes, g: Geometry, files: seq<StoredFile>, base: nat, nameBase: nat, dataBase: nat, i: nat)
    requires i < |files|
    requires At(buf, base, EntryTable(g, files, nameBase, dataBase, |files|))
    requires At(buf, nameBase, NameTable(files, |files|))
    requires At(buf, dataBase, DataTable(files, dataBase, |files|))
    ensures At(buf, EntryPos(g, base, i), Entry(g, FieldsOf(files, nameBase, dataBase, i)))
    ensures At(buf, NamePos(files, nameBase, i), files[i].name)
    ensures At(buf, DataEnd(files, dataBase, i), Fill(DataPos(files, dataBase, i) - DataEnd(files, dataBase, i), 0))
    ensures At(buf, DataPos(files, dataBase, i), files[i].payload)
  {
    hide At, Entry, EntryTable, NameTable, DataTable, DataPos, DataEnd, NamePos, EntryPos;
    TableSizes(g, files, nameBase, dataBase, base, i);
    EntryInTable(g, files, nameBase, dataBase, |files|, i);
    AtTrans(buf, base, EntryTable(g, files, nameBase, dataBase, |files|), |EntryTable(g, files, nameBase, dataBase, i)|,
            Entry(g, FieldsOf(files, nameBase, dataBase, i)));
    NameInTable(files, |files|, i);
    AtTrans(buf, nameBase, NameTable(files, |files|), |NameTable(files, i)|, files[i].name);
    DataInTable(g, files, dataBase, |files|, i);
    var pad := Fill(DataPos(files, dataBase, i) - DataEnd(files, dataBase, i), 0);
    AtTrans(buf, dataBase, DataTable(files, dataBase, |files|), |DataTable(files, dataBase, i)|, pad + files[i].payload);
    AtSplit(buf, DataEnd(files, dataBase, i), pad, files[i].payload);
  }

  lemma {:induction false} DataEndMonotone(files: seq<StoredFile>, base: nat, i: nat, j: nat)
    requires i <= j <= |files|
    ensures DataEnd(files, base, i) <= DataEnd(files, base, j)
    decreases j
  {
    hide DataEnd, DataPos;
    if i < j {
      DataEndMonotone(files, base, i, j - 1);
      DataEndStep(files, base, j - 1);
    }
  }

  lemma DataEndStep(files: seq<StoredFile>, base: nat, i: nat)
    requires i < |files|
    ensures DataEnd(files, base, i + 1) == DataPos(files, base, i) + |files[i].payload|
  {
  }

  /** Payloads lie behind `base`, in file order, without overlap, inside the data area; those of
      files that are not empty begin on a 16-byte boundary. */
  lemma PayloadsLaidOut(files: seq<StoredFile>, base: nat, i: nat)
    requires i < |files|
    ensures base <= DataPos(files, base, i)
    ensures files[i].size > 0 ==> DataPos(files, base, i) % 16 == 0
    ensures DataPos(files, base, i) + |files[i].payload| <= DataEnd(files, base, |files|)
    ensures forall j :: i < j < |files| ==> DataPos(files, base, i) + |files[i].payload| <= DataPos(files, base, j)
  {
    DataEndMonotone(files, base, i + 1, |files|);
    DataEndStep(files, base, i);
    forall j | i < j < |files|
      ensures DataPos(files, base, i) + |files[i].payload| <= DataPos(files, base, j)
    {
      DataEndMonotone(files, base, i + 1, j);
    }
  }

  lemma {:induction false} EntriesInFront(g: Geometry, base: nat, i: nat, n: nat)
    requires i < n
    ensures base <= EntryPos(g, base, i) && EntryPos(g, base, i) + EntrySize(g) <= EntryPos(g, base, n)
    decreases n
  {
    hide EntrySize;
    if i < n - 1 {
      EntriesInFront(g, base, i, n - 1);
    } else if i > 0 {
      EntriesInFront(g, base, i - 1, i);
    }
  }

  /** A whole archive body: entries, names and payloads stand where the layout puts them. */
  ghost predicate BodyStands(buf: bytes, g: Geometry, files: seq<StoredFile>, base: nat, nameBase: nat, dataBase: nat) {
    && At(buf, base, EntryTable(g, files, nameBase, dataBase, |files|))
    && At(buf, nameBase, NameTable(files, |files|))
    && At(buf, dataBase, DataTable(files, dataBase, |files|))
  }

  /** Entry, name and padded payload of one file in a buffer that carries the body. */
  lemma FileStands(buf: bytes, g: Geometry, files: seq<StoredFile>, base: nat, nameBase: nat, dataBase: nat, i: nat)
    requires BodyStands(buf, g, files, base, nameBase, dataBase) && i < |files|
    ensures var v := FieldsOf(files, nameBase, dataBase, i);
      && EntryStands(buf, EntryPos(g, base, i), g, v)
      && v.flags == files[i].flags && v.id == files[i].id
      && (HasNames(g.format) ==> At(buf, EntryPos(g, base, i) + NameAt(g), Enc(g.be, NamePos(files, nameBase, i), 4)))
      && At(buf, NamePos(files, nameBase, i), files[i].name)
      && At(buf, DataEnd(files, dataBase, i), Padded(files, dataBase, i))
  {
    hide At, Enc, Entry, EntryTable, NameTable, DataTable, EntryPos, NamePos, DataPos, DataEnd,
      WriteFlags, HasNames, HasIds, HasCompression, HasLongOffsets;
    RecordsStand(buf, g, files, base, nameBase, dataBase, i);
    EntryFieldsStand(buf, EntryPos(g, base, i), g, FieldsOf(files, nameBase, dataBase, i));
    AtSplit(buf, DataEnd(files, dataBase, i), Fill(DataPos(files, dataBase, i) - DataEnd(files, dataBase, i), 0), files[i].payload);
  }

  /** The encodings of one file are the parts of its stored form. */
  lemma StoredParts(env: Env, c: Codec, wide: bool, format: byte, files: seq<BinderFile>, i: nat)
    requires i < |files|
    ensures var f := StoreAll(env, c, wide, format, files)[i];
      && f.flags == files[i].flags && f.id == files[i].id && f.size == |files[i].data|
      && f.name == (if HasNames(format) then OrEmpty(StoreText(c, wide, TextOf(files[i].name))) else [])
      && f.payload == OrEmpty(StorePayload(env, files[i]))
    ensures StoreName(c, wide, format, files[i]) == if HasNames(format) then StoreText(c, wide, TextOf(files[i].name)) else Ok([])
  {
  }

  /** Both tables start out empty. */
  lemma LayoutBegins(g: Geometry, files: seq<StoredFile>, base: nat)
    ensures EntryPos(g, base, 0) == base && NamePos(files, base, 0) == base && DataEnd(files, base, 0) == base
  {
  }

  lemma NextName(files: seq<StoredFile>, base: nat, i: nat)
    requires i < |files|
    ensures NamePos(files, base, i + 1) == NamePos(files, base, i) + |files[i].name|
  {
  }
}
