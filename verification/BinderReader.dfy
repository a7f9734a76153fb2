/** The shared reading steps of BND3 and BND4: entry records, names reached by their offsets,
    and payloads; and the fact that they undo what the writer laid down. */
module BinderReading {
  import opened Bytes
  import opened Format
  import opened Reading
  import opened Texts
  import opened Binder

  /** An entry record as read, before its payload is fetched. */
  datatype FileHeader = FileHeader(flags: byte, id: int, name: Option<bytes>, compressed: nat, dataPos: int)

  // ------------------------------------------------------------------ entries as functions

  function GetName(c: Codec, wide: bool, buf: bytes, off: int): Result<Option<bytes>> {
    var s :- GetText(c, wide, buf, off);
    Ok(Some(s))
  }

  /** Flags, the three zero bytes, and in BND4 the -1. */
  function GetEntryFlags(buf: bytes, pos: nat, g: Geometry): Result<byte> {
    var raw :- GetUInt(buf, pos, false, 1);
    var _ :- ExpectByte(buf, pos + 1, {0});
    var _ :- ExpectByte(buf, pos + 2, {0});
    var _ :- ExpectByte(buf, pos + 3, {0});
    if g.v4 then
      var _ :- ExpectSInt(buf, pos + 4, g.be, 4, -1);
      Ok(ReadFlags(raw % 256, g.bitBig))
    else Ok(ReadFlags(raw % 256, g.bitBig))
  }

  function GetOffset(buf: bytes, pos: nat, g: Geometry): Result<int> {
    if HasLongOffsets(g.format) then GetSInt(buf, pos, g.be, 8) else GetUInt(buf, pos, g.be, 4)
  }

  function GetId(buf: bytes, pos: nat, g: Geometry): Result<int> {
    if HasIds(g.format) then GetSInt(buf, pos, g.be, 4) else Ok(-1)
  }

  function GetEntryName(c: Codec, wide: bool, buf: bytes, pos: nat, g: Geometry): Result<Option<bytes>> {
    if !HasNames(g.format) then Ok(None)
    else if g.v4 then
      var off :- GetUInt(buf, pos, g.be, 4);
      GetName(c, wide, buf, off)
    else
      var off :- GetSInt(buf, pos, g.be, 4);
      GetName(c, wide, buf, off)
  }

  /** The repeated id and the zero of the Names1-only format. */
  function GetTailId(buf: bytes, pos: nat, g: Geometry, id: int): Result<int> {
    if g.format == NAMES1_ONLY then
      var tail :- GetSInt(buf, pos, g.be, 4);
      var _ :- ExpectSInt(buf, pos + 4, g.be, 4, 0);
      Ok(tail)
    else Ok(id)
  }

  function GetSizeIf(c: bool, buf: bytes, pos: nat, g: Geometry): Result<nat> {
    if c then GetUInt(buf, pos, g.be, SizeWidth(g)) else Ok(0)
  }

  function ParseEntry4(c: Codec, wide: bool, buf: bytes, pos: nat, g: Geometry): Result<FileHeader> {
    var flags :- GetEntryFlags(buf, pos, g);
    var compressed :- GetUInt(buf, pos + 8, g.be, 8);
    var _ :- GetSizeIf(HasCompression(g.format), buf, pos + 16, g);
    var off :- GetOffset(buf, pos + DataAt(g), g);
    var id :- GetId(buf, pos + IdAt(g), g);
    var name :- GetEntryName(c, wide, buf, pos + NameAt(g), g);
    var id' :- GetTailId(buf, pos + TailAt(g), g, id);
    Ok(FileHeader(flags, id', name, compressed, off))
  }

  /** Flags, stored size, payload offset and id, which stand in front of the name. */
  function ParseFront(buf: bytes, pos: nat, g: Geometry): Result<FileHeader> {
    var flags :- GetEntryFlags(buf, pos, g);
    var compressed :- GetUInt(buf, pos + 8, g.be, 8);
    var _ :- GetSizeIf(HasCompression(g.format), buf, pos + 16, g);
    var off :- GetOffset(buf, pos + DataAt(g), g);
    var id :- GetId(buf, pos + IdAt(g), g);
    Ok(FileHeader(flags, id, None, compressed, off))
  }

  function ParseEntry3(c: Codec, buf: bytes, pos: nat, g: Geometry): Result<FileHeader> {
    var flags :- GetEntryFlags(buf, pos, g);
    var compressed :- GetUInt(buf, pos + 4, g.be, 4);
    var off :- GetOffset(buf, pos + 8, g);
    var id :- GetId(buf, pos + IdAt(g), g);
    var name :- GetEntryName(c, false, buf, pos + NameAt(g), g);
    var _ :- GetSizeIf(HasCompression(g.format), buf, pos + TailAt(g), g);
    Ok(FileHeader(flags, id, name, compressed, off))
  }

  function ParseEntry(c: Codec, wide: bool, buf: bytes, pos: nat, g: Geometry): Result<FileHeader> {
    if g.v4 then ParseEntry4(c, wide, buf, pos, g) else ParseEntry3(c, buf, pos, g)
  }

  lemma EntrySplits(c: Codec, wide: bool, buf: bytes, pos: nat, g: Geometry)
    requires g.v4
    ensures ParseEntry(c, wide, buf, pos, g)
         == var front :- ParseFront(buf, pos, g);
            var name :- GetEntryName(c, wide, buf, pos + NameAt(g), g);
            var id :- GetTailId(buf, pos + TailAt(g), g, front.id);
            Ok(front.(name := name, id := id))
  {
    hide GetEntryFlags, GetUInt, GetSizeIf, GetOffset, GetId, GetEntryName, GetTailId, DataAt, IdAt, NameAt, TailAt;
  }

  function ParseEntries(c: Codec, wide: bool, buf: bytes, g: Geometry, base: nat, n: nat): (r: Result<seq<FileHeader>>)
    ensures r.Ok? ==> |r.value| == n
  {
    if n == 0 then Ok([])
    else
      var init :- ParseEntries(c, wide, buf, g, base, n - 1);
      var last :- ParseEntry(c, wide, buf, EntryPos(g, base, n - 1), g);
      Ok(init + [last])
  }

  function ExtractData(env: Env, buf: bytes, h: FileHeader): Result<(bytes, Info)> {
    var raw :- if h.compressed > 0 then GetAt(buf, h.dataPos, h.compressed) else Ok([]);
    if IsCompressed(h.flags) then env.decompress(raw) else Ok((raw, ZLIB))
  }

  function ExtractAll(env: Env, buf: bytes, hs: seq<FileHeader>, n: nat): (r: Result<seq<BinderFile>>)
    requires n <= |hs|
    ensures r.Ok? ==> |r.value| == n
  {
    if n == 0 then Ok([])
    else
      var init :- ExtractAll(env, buf, hs, n - 1);
      var d :- ExtractData(env, buf, hs[n - 1]);
      Ok(init + [BinderFile(hs[n - 1].id, hs[n - 1].name, d.0, hs[n - 1].flags, d.1)])
  }

  // ------------------------------------------------------------------ reading undoes writing

  /** What a file is after writing and reading: names and ids only where the format has them,
      a missing name becomes the empty one, and an uncompressed file is reported as ZLIB. */
  function Restored(g: Geometry, f: BinderFile): BinderFile {
    BinderFile(
      if HasIds(g.format) || (g.v4 && g.format == NAMES1_ONLY) then f.id else -1,
      if HasNames(g.format) then Some(TextOf(f.name)) else None,
      f.data,
      f.flags,
      if IsCompressed(f.flags) then f.info else ZLIB)
  }

  /** The foreign code restores what belongs to this file. */
  ghost predicate Restorable(env: Env, c: Codec, wide: bool, g: Geometry, f: BinderFile) {
    && Fits(f.id, 4)
    && (HasNames(g.format) ==> Encodable(c, wide, TextOf(f.name)))
    && (IsCompressed(f.flags) ==>
          env.compress(f.data, f.info).Ok? && env.decompress(env.compress(f.data, f.info).value) == Ok((f.data, f.info)))
  }

  lemma ZeroBytesRead(buf: bytes, pos: nat, k: nat)
    requires At(buf, pos, Fill(3, 0)) && k < 3
    ensures ExpectByte(buf, pos + k, {0}) == Ok(0)
  {
    assert buf[pos..pos + 3][k] == 0;
    assert buf[pos + k..pos + k + 1] == [0];
    PlacedByte(buf, pos + k, 0);
  }

  lemma FlagsRead(buf: bytes, pos: nat, g: Geometry, v: Fields)
    requires At(buf, pos, [WriteFlags(v.flags, g.bitBig)]) && At(buf, pos + 1, Fill(3, 0))
    requires g.v4 ==> At(buf, pos + 4, Enc(g.be, -1, 4))
    ensures GetEntryFlags(buf, pos, g) == Ok(v.flags)
  {
    hide At, Enc, Fill, WriteFlags, ReadFlags;
    PlacedByte(buf, pos, WriteFlags(v.flags, g.bitBig));
    ZeroBytesRead(buf, pos + 1, 0);
    ZeroBytesRead(buf, pos + 1, 1);
    ZeroBytesRead(buf, pos + 1, 2);
    FlagsSurvive(v.flags, g.bitBig);
    if g.v4 {
      Widths();
      PlacedSInt(buf, pos + 4, g.be, -1, 4);
    }
  }

  lemma NameRead(c: Codec, wide: bool, buf: bytes, pos: nat, g: Geometry, namePos: nat, text: bytes)
    requires HasNames(g.format) && Encodable(c, wide, text) && |buf| < MAX_SIZE
    requires At(buf, pos, Enc(g.be, namePos, 4))
    requires At(buf, namePos, c.encode(text).value + Terminator(wide))
    ensures GetEntryName(c, wide, buf, pos, g) == Ok(Some(text))
  {
    PlacedText(buf, namePos, c.encode(text).value, wide);
    SmallFits(namePos);
    hide At, Enc, Terminated;
    if g.v4 {
      PlacedUInt(buf, pos, g.be, namePos, 4);
    } else {
      PlacedSInt(buf, pos, g.be, namePos, 4);
    }
  }

  lemma OffsetRead(buf: bytes, pos: nat, g: Geometry, off: nat)
    requires At(buf, pos, Enc(g.be, off, OffsetWidth(g.format))) && off < MAX_SIZE
    ensures GetOffset(buf, pos, g) == Ok(off)
  {
    hide At, Enc;
    SmallFits(off);
    if HasLongOffsets(g.format) {
      PlacedSInt(buf, pos, g.be, off, 8);
    } else {
      PlacedUInt(buf, pos, g.be, off, 4);
    }
  }

  lemma SizeRead(buf: bytes, pos: nat, g: Geometry, size: nat)
    requires At(buf, pos, Enc(g.be, size, SizeWidth(g))) && size < MAX_SIZE
    ensures GetUInt(buf, pos, g.be, SizeWidth(g)) == Ok(size)
  {
    hide At, Enc;
    SmallFits(size);
    PlacedUInt(buf, pos, g.be, size, SizeWidth(g));
  }

  lemma PlacedIsThere(buf: bytes, pos: nat, be: bool, v: int, n: nat)
    requires At(buf, pos, Enc(be, v, n))
    ensures GetUInt(buf, pos, be, n).Ok?
  {
  }

  lemma IdRead(buf: bytes, pos: nat, g: Geometry, id: int)
    requires HasIds(g.format) ==> At(buf, pos, Enc(g.be, id, 4)) && Fits(id, 4)
    ensures GetId(buf, pos, g) == Ok(if HasIds(g.format) then id else -1)
  {
    hide At, Enc;
    if HasIds(g.format) {
      PlacedSInt(buf, pos, g.be, id, 4);
    }
  }

  lemma TailRead(buf: bytes, pos: nat, g: Geometry, id: int, tail: int)
    requires g.format == NAMES1_ONLY ==> At(buf, pos, Enc(g.be, tail, 4)) && At(buf, pos + 4, Enc(g.be, 0, 4)) && Fits(tail, 4)
    ensures GetTailId(buf, pos, g, id) == Ok(if g.format == NAMES1_ONLY then tail else id)
  {
    hide At, Enc;
    if g.format == NAMES1_ONLY {
      Widths();
      PlacedSInt(buf, pos, g.be, tail, 4);
      PlacedSInt(buf, pos + 4, g.be, 0, 4);
    }
  }

  /** The header a reader finds in an entry written with fields `v` for file `f`. */
  function HeaderOf(g: Geometry, f: BinderFile, v: Fields): FileHeader {
    FileHeader(v.flags, Restored(g, f).id, Restored(g, f).name, v.compressed, v.dataPos)
  }

  lemma Entry4Assembles(c: Codec, wide: bool, buf: bytes, pos: nat, g: Geometry, h: FileHeader, id: int)
    requires GetEntryFlags(buf, pos, g) == Ok(h.flags)
    requires GetUInt(buf, pos + 8, g.be, 8) == Ok(h.compressed)
    requires GetSizeIf(HasCompression(g.format), buf, pos + 16, g).Ok?
    requires GetOffset(buf, pos + DataAt(g), g) == Ok(h.dataPos)
    requires GetId(buf, pos + IdAt(g), g) == Ok(id)
    requires GetEntryName(c, wide, buf, pos + NameAt(g), g) == Ok(h.name)
    requires GetTailId(buf, pos + TailAt(g), g, id) == Ok(h.id)
    ensures ParseEntry4(c, wide, buf, pos, g) == Ok(h)
  {
  }

  lemma Entry3Assembles(c: Codec, buf: bytes, pos: nat, g: Geometry, h: FileHeader)
    requires GetEntryFlags(buf, pos, g) == Ok(h.flags)
    requires GetUInt(buf, pos + 4, g.be, 4) == Ok(h.compressed)
    requires GetOffset(buf, pos + 8, g) == Ok(h.dataPos)
    requires GetId(buf, pos + IdAt(g), g) == Ok(h.id)
    requires GetEntryName(c, false, buf, pos + NameAt(g), g) == Ok(h.name)
    requires GetSizeIf(HasCompression(g.format), buf, pos + TailAt(g), g).Ok?
    ensures ParseEntry3(c, buf, pos, g) == Ok(h)
  {
  }

  /** Reading an entry gives back what was written into it. */
  lemma EntryRoundTrip(env: Env, c: Codec, wide: bool, buf: bytes, pos: nat, g: Geometry, v: Fields, f: BinderFile)
    requires EntryStands(buf, pos, g, v) && Restorable(env, c, wide, g, f) && |buf| < MAX_SIZE
    requires !g.v4 ==> !wide
    requires v.id == f.id && v.compressed < MAX_SIZE && v.dataPos < MAX_SIZE
    requires HasNames(g.format) ==> At(buf, v.namePos, c.encode(TextOf(f.name)).value + Terminator(wide))
    ensures ParseEntry(c, wide, buf, pos, g) == Ok(HeaderOf(g, f, v))
  {
    hide At, Enc, Fill, Encodable, HasNames, HasIds, HasCompression, HasLongOffsets, OffsetWidth,
      GetEntryFlags, GetUInt, GetId, GetEntryName, GetTailId, GetOffset, IdAt, NameAt, TailAt;
    FlagsRead(buf, pos, g, v);
    SizeRead(buf, pos + CompressedAt(g), g, v.compressed);
    if HasCompression(g.format) {
      PlacedIsThere(buf, pos + UncompressedAt(g), g.be, v.uncompressed, SizeWidth(g));
    }
    OffsetRead(buf, pos + DataAt(g), g, v.dataPos);
    IdRead(buf, pos + IdAt(g), g, f.id);
    if HasNames(g.format) {
      NameRead(c, wide, buf, pos + NameAt(g), g, v.namePos, TextOf(f.name));
    } else {
      NoName(c, wide, buf, pos + NameAt(g), g);
    }
    var h := HeaderOf(g, f, v);
    if g.v4 {
      TailRead(buf, pos + TailAt(g), g, if HasIds(g.format) then f.id else -1, f.id);
      Entry4Assembles(c, wide, buf, pos, g, h, if HasIds(g.format) then f.id else -1);
    } else {
      Entry3Assembles(c, buf, pos, g, h);
    }
  }

  lemma NoName(c: Codec, wide: bool, buf: bytes, pos: nat, g: Geometry)
    requires !HasNames(g.format)
    ensures GetEntryName(c, wide, buf, pos, g) == Ok(None)
  {
  }

  ghost predicate AllRestorable(env: Env, c: Codec, wide: bool, g: Geometry, files: seq<BinderFile>) {
    forall i :: 0 <= i < |files| ==> Restorable(env, c, wide, g, files[i])
  }

  lemma StoredNameOf(env: Env, c: Codec, wide: bool, g: Geometry, f: BinderFile)
    requires Restorable(env, c, wide, g, f) && HasNames(g.format)
    ensures Store(env, c, wide, g.format, f).name == c.encode(TextOf(f.name)).value + Terminator(wide)
  {
  }

  lemma OneEntryRoundTrip(env: Env, c: Codec, wide: bool, buf: bytes, g: Geometry, files: seq<BinderFile>, stored: seq<StoredFile>,
                          base: nat, nameBase: nat, dataBase: nat, i: nat)
    requires stored == StoreAll(env, c, wide, g.format, files) && i < |files|
    requires BodyStands(buf, g, stored, base, nameBase, dataBase) && |buf| < MAX_SIZE
    requires AllRestorable(env, c, wide, g, files) && (!g.v4 ==> !wide)
    ensures ParseEntry(c, wide, buf, EntryPos(g, base, i), g) == Ok(HeaderOf(g, files[i], FieldsOf(stored, nameBase, dataBase, i)))
    ensures ExtractData(env, buf, HeaderOf(g, files[i], FieldsOf(stored, nameBase, dataBase, i)))
         == Ok((files[i].data, Restored(g, files[i]).info))
  {
    hide At, EntryTable, NameTable, DataTable, DataPos, DataEnd, NamePos, EntryPos, Entry, EntryStands, Terminator, ParseEntry, Store;
    var v := FieldsOf(stored, nameBase, dataBase, i);
    RecordsStand(buf, g, stored, base, nameBase, dataBase, i);
    EntryFieldsStand(buf, EntryPos(g, base, i), g, v);
    PlacedBound(buf, DataPos(stored, dataBase, i), stored[i].payload);
    StoredShape(env, c, wide, g.format, files[i]);
    if HasNames(g.format) {
      StoredNameOf(env, c, wide, g, files[i]);
    }
    EntryRoundTrip(env, c, wide, buf, EntryPos(g, base, i), g, v, files[i]);
  }

  lemma StoredShape(env: Env, c: Codec, wide: bool, format: byte, f: BinderFile)
    ensures var s := Store(env, c, wide, format, f);
      s.id == f.id && s.flags == f.flags && s.size == |f.data| && s.payload == OrEmpty(StorePayload(env, f))
  {
  }

  lemma {:induction false} EntriesRoundTrip(env: Env, c: Codec, wide: bool, buf: bytes, g: Geometry, files: seq<BinderFile>, stored: seq<StoredFile>,
                                            base: nat, nameBase: nat, dataBase: nat, n: nat)
    requires stored == StoreAll(env, c, wide, g.format, files) && n <= |files|
    requires BodyStands(buf, g, stored, base, nameBase, dataBase) && |buf| < MAX_SIZE
    requires AllRestorable(env, c, wide, g, files) && (!g.v4 ==> !wide)
    ensures ParseEntries(c, wide, buf, g, base, n).Ok?
    ensures forall i :: 0 <= i < n ==>
              ParseEntries(c, wide, buf, g, base, n).value[i] == HeaderOf(g, files[i], FieldsOf(stored, nameBase, dataBase, i))
  {
    hide BodyStands, ParseEntry, EntryPos, FieldsOf, HeaderOf, StoreAll, AllRestorable;
    if n > 0 {
      EntriesRoundTrip(env, c, wide, buf, g, files, stored, base, nameBase, dataBase, n - 1);
      OneEntryRoundTrip(env, c, wide, buf, g, files, stored, base, nameBase, dataBase, n - 1);
    }
  }

  function RestoredAll(g: Geometry, files: seq<BinderFile>): (s: seq<BinderFile>)
    ensures |s| == |files|
    ensures forall i :: 0 <= i < |s| ==> s[i] == Restored(g, files[i])
  {
    seq(|files|, i requires 0 <= i < |files| => Restored(g, files[i]))
  }

  lemma {:induction false} FilesRoundTrip(env: Env, c: Codec, wide: bool, buf: bytes, g: Geometry, files: seq<BinderFile>, stored: seq<StoredFile>,
                                          base: nat, nameBase: nat, dataBase: nat, hs: seq<FileHeader>, n: nat)
    requires stored == StoreAll(env, c, wide, g.format, files) && n <= |files| == |hs|
    requires BodyStands(buf, g, stored, base, nameBase, dataBase) && |buf| < MAX_SIZE
    requires AllRestorable(env, c, wide, g, files) && (!g.v4 ==> !wide)
    requires forall i :: 0 <= i < |hs| ==> hs[i] == HeaderOf(g, files[i], FieldsOf(stored, nameBase, dataBase, i))
    ensures ExtractAll(env, buf, hs, n) == Ok(RestoredAll(g, files)[..n])
  {
    hide *;
    if n == 0 {
      ExtractNothing(env, buf, hs, g, files);
    } else {
      FilesRoundTrip(env, c, wide, buf, g, files, stored, base, nameBase, dataBase, hs, n - 1);
      OneEntryRoundTrip(env, c, wide, buf, g, files, stored, base, nameBase, dataBase, n - 1);
      ExtractStep(env, buf, hs, n - 1, RestoredAll(g, files)[..n - 1], (files[n - 1].data, Restored(g, files[n - 1]).info));
      StoredFlags(env, c, wide, g.format, files, nameBase, dataBase, n - 1);
      RestoredFrom(g, files[n - 1], FieldsOf(stored, nameBase, dataBase, n - 1));
      assert RestoredAll(g, files)[..n] == RestoredAll(g, files)[..n - 1] + [Restored(g, files[n - 1])];
    }
  }

  lemma ExtractNothing(env: Env, buf: bytes, hs: seq<FileHeader>, g: Geometry, files: seq<BinderFile>)
    ensures ExtractAll(env, buf, hs, 0) == Ok(RestoredAll(g, files)[..0])
  {
  }

  lemma ExtractStep(env: Env, buf: bytes, hs: seq<FileHeader>, n: nat, fs: seq<BinderFile>, d: (bytes, Info))
    requires n < |hs| && ExtractAll(env, buf, hs, n) == Ok(fs) && ExtractData(env, buf, hs[n]) == Ok(d)
    ensures ExtractAll(env, buf, hs, n + 1) == Ok(fs + [BinderFile(hs[n].id, hs[n].name, d.0, hs[n].flags, d.1)])
  {
  }

  lemma RestoredFrom(g: Geometry, f: BinderFile, v: Fields)
    requires v.flags == f.flags
    ensures var h := HeaderOf(g, f, v);
      BinderFile(h.id, h.name, f.data, h.flags, Restored(g, f).info) == Restored(g, f)
  {
  }

  lemma StoredFlags(env: Env, c: Codec, wide: bool, format: byte, files: seq<BinderFile>, nameBase: nat, dataBase: nat, i: nat)
    requires i < |files|
    ensures FieldsOf(StoreAll(env, c, wide, format, files), nameBase, dataBase, i).flags == files[i].flags
  {
  }

  /** Reading the body of a written archive gives back every file, in order. */
  lemma BodyRoundTrip(env: Env, c: Codec, wide: bool, buf: bytes, g: Geometry, files: seq<BinderFile>, stored: seq<StoredFile>,
                      base: nat, nameBase: nat, dataBase: nat)
    requires stored == StoreAll(env, c, wide, g.format, files)
    requires BodyStands(buf, g, stored, base, nameBase, dataBase) && |buf| < MAX_SIZE
    requires AllRestorable(env, c, wide, g, files) && (!g.v4 ==> !wide)
    ensures ParseEntries(c, wide, buf, g, base, |files|).Ok?
    ensures ExtractAll(env, buf, ParseEntries(c, wide, buf, g, base, |files|).value, |files|) == Ok(RestoredAll(g, files))
  {
    EntriesRoundTrip(env, c, wide, buf, g, files, stored, base, nameBase, dataBase, |files|);
    FilesRoundTrip(env, c, wide, buf, g, files, stored, base, nameBase, dataBase,
                   ParseEntries(c, wide, buf, g, base, |files|).value, |files|);
    assert RestoredAll(g, files)[..|files|] == RestoredAll(g, files);
  }

  // ------------------------------------------------------------------ what was read needs no restoring

  /** A header as any reading leaves it. */
  ghost predicate NormalHeader(g: Geometry, h: FileHeader) {
    && h.name.Some? == HasNames(g.format)
    && (HasIds(g.format) || (g.v4 && g.format == NAMES1_ONLY) || h.id == -1)
  }

  lemma ParsedHeaderNormal(c: Codec, wide: bool, buf: bytes, pos: nat, g: Geometry)
    ensures var r := ParseEntry(c, wide, buf, pos, g); r.Ok? ==> NormalHeader(g, r.value)
  {
    hide GetEntryFlags, GetUInt, GetSInt, GetSizeIf, GetOffset, GetText, HasNames, HasIds, HasCompression;
  }

  lemma {:induction false} ParsedHeadersNormal(c: Codec, wide: bool, buf: bytes, g: Geometry, base: nat, n: nat)
    ensures var r := ParseEntries(c, wide, buf, g, base, n);
      r.Ok? ==> forall i :: 0 <= i < n ==> NormalHeader(g, r.value[i])
  {
    hide ParseEntry, NormalHeader, EntryPos;
    if n > 0 {
      ParsedHeadersNormal(c, wide, buf, g, base, n - 1);
      ParsedHeaderNormal(c, wide, buf, EntryPos(g, base, n - 1), g);
    }
  }

  lemma ExtractedNormal(env: Env, buf: bytes, g: Geometry, h: FileHeader)
    requires NormalHeader(g, h)
    ensures var d := ExtractData(env, buf, h);
      d.Ok? ==> var f := BinderFile(h.id, h.name, d.value.0, h.flags, d.value.1); Restored(g, f) == f
  {
    hide GetAt, HasNames, HasIds;
  }

  /** Files that have been read are what writing and reading would make of them. */
  lemma {:induction false} ReadFilesNormal(env: Env, buf: bytes, g: Geometry, hs: seq<FileHeader>, n: nat)
    requires n <= |hs| && forall i :: 0 <= i < |hs| ==> NormalHeader(g, hs[i])
    ensures var r := ExtractAll(env, buf, hs, n); r.Ok? ==> RestoredAll(g, r.value) == r.value
  {
    hide ExtractData, NormalHeader, Restored;
    if n > 0 {
      ReadFilesNormal(env, buf, g, hs, n - 1);
      ExtractedNormal(env, buf, g, hs[n - 1]);
      var r := ExtractAll(env, buf, hs, n);
      if r.Ok? {
        var init := ExtractAll(env, buf, hs, n - 1).value;
        RestoredSnoc(g, init, r.value[n - 1]);
        assert r.value == init + [r.value[n - 1]];
      }
    }
  }

  lemma RestoredSnoc(g: Geometry, files: seq<BinderFile>, f: BinderFile)
    ensures RestoredAll(g, files + [f]) == RestoredAll(g, files) + [Restored(g, f)]
  {
    hide Restored;
  }

  /** The files of a body that has been read need no restoring. */
  lemma ReadBodyNormal(env: Env, c: Codec, wide: bool, buf: bytes, g: Geometry, base: nat, n: nat)
    ensures var hs := ParseEntries(c, wide, buf, g, base, n);
      hs.Ok? ==>
        && |hs.value| == n
        && (ExtractAll(env, buf, hs.value, n).Ok? ==>
              var files := ExtractAll(env, buf, hs.value, n).value; RestoredAll(g, files) == files)
  {
    hide ParseEntry, ExtractData, NormalHeader, Restored;
    ParsedHeadersNormal(c, wide, buf, g, base, n);
    var hs := ParseEntries(c, wide, buf, g, base, n);
    if hs.Ok? {
      ReadFilesNormal(env, buf, g, hs.value, n);
    }
  }

  // ------------------------------------------------------------------ the reading methods

  method ReadEntryFlags(rd: BinaryReader, g: Geometry) returns (r: Result<byte>)
    requires rd.Valid() && rd.bigEndian == g.be
    modifies rd`pos
    ensures rd.Valid()
    ensures r == GetEntryFlags(rd.buf, old(rd.pos), g)
    ensures r.Ok? ==> rd.pos == old(rd.pos) + if g.v4 then 8 else 4
  {
    var raw :- rd.ReadByte();
    var _ :- rd.AssertByte({0});
    var _ :- rd.AssertByte({0});
    var _ :- rd.AssertByte({0});
    if g.v4 {
      var _ :- rd.AssertSInt(4, -1);
    }
    return Ok(ReadFlags(raw % 256, g.bitBig));
  }

  method ReadOffset(rd: BinaryReader, g: Geometry) returns (r: Result<int>)
    requires rd.Valid() && rd.bigEndian == g.be
    modifies rd`pos
    ensures rd.Valid()
    ensures r == GetOffset(rd.buf, old(rd.pos), g)
    ensures r.Ok? ==> rd.pos == old(rd.pos) + OffsetWidth(g.format)
  {
    if HasLongOffsets(g.format) {
      var off :- rd.ReadSInt(8);
      return Ok(off);
    }
    var off :- rd.ReadUInt(4);
    return Ok(off);
  }

  method ReadSizeIf(rd: BinaryReader, c: bool, g: Geometry) returns (r: Result<nat>)
    requires rd.Valid() && rd.bigEndian == g.be
    modifies rd`pos
    ensures rd.Valid()
    ensures r == GetSizeIf(c, rd.buf, old(rd.pos), g)
    ensures r.Ok? ==> rd.pos == old(rd.pos) + if c then SizeWidth(g) else 0
  {
    if !c {
      return Ok(0);
    }
    r := rd.ReadUInt(SizeWidth(g));
  }

  method ReadId(rd: BinaryReader, g: Geometry) returns (r: Result<int>)
    requires rd.Valid() && rd.bigEndian == g.be
    modifies rd`pos
    ensures rd.Valid()
    ensures r == GetId(rd.buf, old(rd.pos), g)
    ensures r.Ok? ==> rd.pos == old(rd.pos) + if HasIds(g.format) then 4 else 0
  {
    if !HasIds(g.format) {
      return Ok(-1);
    }
    r := rd.ReadSInt(4);
  }

  method ReadEntryName(rd: BinaryReader, c: Codec, wide: bool, g: Geometry) returns (r: Result<Option<bytes>>)
    requires rd.Valid() && rd.bigEndian == g.be
    modifies rd`pos
    ensures rd.Valid()
    ensures r == GetEntryName(c, wide, rd.buf, old(rd.pos), g)
    ensures r.Ok? ==> rd.pos == old(rd.pos) + if HasNames(g.format) then 4 else 0
  {
    if !HasNames(g.format) {
      return Ok(None);
    }
    if g.v4 {
      var off :- rd.ReadUInt(4);
      var s :- ReadText(rd, c, wide, off);
      r := Ok(Some(s));
    } else {
      var off :- rd.ReadSInt(4);
      var s :- ReadText(rd, c, wide, off);
      r := Ok(Some(s));
    }
  }

  method ReadTailId(rd: BinaryReader, g: Geometry, id: int) returns (r: Result<int>)
    requires rd.Valid() && rd.bigEndian == g.be
    modifies rd`pos
    ensures rd.Valid()
    ensures r == GetTailId(rd.buf, old(rd.pos), g, id)
    ensures r.Ok? ==> rd.pos == old(rd.pos) + if g.format == NAMES1_ONLY then 8 else 0
  {
    if g.format != NAMES1_ONLY {
      return Ok(id);
    }
    var tail :- rd.ReadSInt(4);
    var _ :- rd.AssertSInt(4, 0);
    return Ok(tail);
  }

  method ReadEntry4(rd: BinaryReader, c: Codec, wide: bool, g: Geometry) returns (r: Result<FileHeader>)
    requires rd.Valid() && rd.bigEndian == g.be && g.v4
    modifies rd`pos
    ensures rd.Valid()
    ensures r == ParseEntry4(c, wide, rd.buf, old(rd.pos), g)
    ensures r.Ok? ==> rd.pos == old(rd.pos) + EntrySize(g)
  {
    hide GetEntryFlags, GetOffset, GetEntryName, GetUInt, GetSizeIf, GetId, GetTailId,
      HasNames, HasIds, HasCompression, HasLongOffsets;
    var flags :- ReadEntryFlags(rd, g);
    var compressed :- rd.ReadUInt(8);
    var _ :- ReadSizeIf(rd, HasCompression(g.format), g);
    var off :- ReadOffset(rd, g);
    var id :- ReadId(rd, g);
    var name :- ReadEntryName(rd, c, wide, g);
    id :- ReadTailId(rd, g, id);
    return Ok(FileHeader(flags, id, name, compressed, off));
  }

  method ReadEntry3(rd: BinaryReader, c: Codec, g: Geometry) returns (r: Result<FileHeader>)
    requires rd.Valid() && rd.bigEndian == g.be && !g.v4
    modifies rd`pos
    ensures rd.Valid()
    ensures r == ParseEntry3(c, rd.buf, old(rd.pos), g)
    ensures r.Ok? ==> rd.pos == old(rd.pos) + EntrySize(g)
  {
    hide GetEntryFlags, GetOffset, GetEntryName, GetUInt, GetSizeIf, GetId,
      HasNames, HasIds, HasCompression, HasLongOffsets;
    var flags :- ReadEntryFlags(rd, g);
    var compressed :- rd.ReadUInt(4);
    var off :- ReadOffset(rd, g);
    var id :- ReadId(rd, g);
    var name :- ReadEntryName(rd, c, false, g);
    var _ :- ReadSizeIf(rd, HasCompression(g.format), g);
    return Ok(FileHeader(flags, id, name, compressed, off));
  }

  lemma {:induction false} FailsEarly(c: Codec, wide: bool, buf: bytes, g: Geometry, base: nat, k: nat, n: nat)
    requires k <= n && ParseEntries(c, wide, buf, g, base, k).Err?
    ensures ParseEntries(c, wide, buf, g, base, n) == ParseEntries(c, wide, buf, g, base, k)
    decreases n - k
  {
    hide ParseEntry;
    if k < n {
      FailsEarly(c, wide, buf, g, base, k + 1, n);
    }
  }

  /** The entry loop of a header. */
  method ReadEntries(rd: BinaryReader, c: Codec, wide: bool, g: Geometry, n: nat) returns (r: Result<seq<FileHeader>>)
    requires rd.Valid() && rd.bigEndian == g.be && (!g.v4 ==> !wide)
    modifies rd`pos
    ensures rd.Valid()
    ensures r == ParseEntries(c, wide, rd.buf, g, old(rd.pos), n)
  {
    hide ParseEntry3, ParseEntry4, EntrySize;
    ghost var base := rd.pos;
    var hs: seq<FileHeader> := [];
    for i := 0 to n
      invariant rd.Valid() && rd.pos == EntryPos(g, base, i)
      invariant ParseEntries(c, wide, rd.buf, g, base, i) == Ok(hs)
    {
      var e;
      if g.v4 {
        e := ReadEntry4(rd, c, wide, g);
      } else {
        e := ReadEntry3(rd, c, g);
      }
      if e.Err? {
        FailsEarly(c, wide, rd.buf, g, base, i + 1, n);
        return Err(e.error);
      }
      hs := hs + [e.value];
    }
    return Ok(hs);
  }

  lemma {:induction false} ExtractFailsEarly(env: Env, buf: bytes, hs: seq<FileHeader>, k: nat, n: nat)
    requires k <= n <= |hs| && ExtractAll(env, buf, hs, k).Err?
    ensures ExtractAll(env, buf, hs, n) == ExtractAll(env, buf, hs, k)
    decreases n - k
  {
    hide ExtractData;
    if k < n {
      ExtractFailsEarly(env, buf, hs, k + 1, n);
    }
  }

  method ReadData(rd: BinaryReader, env: Env, h: FileHeader) returns (r: Result<(bytes, Info)>)
    requires rd.Valid()
    modifies rd`pos
    ensures rd.Valid()
    ensures r == ExtractData(env, rd.buf, h)
  {
    var raw: bytes := [];
    if h.compressed > 0 {
      raw :- rd.GetBytes(h.dataPos, h.compressed);
    }
    if IsCompressed(h.flags) {
      r := env.decompress(raw);
    } else {
      r := Ok((raw, ZLIB));
    }
  }

  /** The payload loop of a read. */
  method ReadAllData(rd: BinaryReader, env: Env, hs: seq<FileHeader>) returns (r: Result<seq<BinderFile>>)
    requires rd.Valid()
    modifies rd`pos
    ensures rd.Valid()
    ensures r == ExtractAll(env, rd.buf, hs, |hs|)
  {
    hide ExtractData;
    var files: seq<BinderFile> := [];
    for i := 0 to |hs|
      invariant rd.Valid()
      invariant ExtractAll(env, rd.buf, hs, i) == Ok(files)
    {
      var d := ReadData(rd, env, hs[i]);
      if d.Err? {
        ExtractFailsEarly(env, rd.buf, hs, i + 1, |hs|);
        return Err(d.error);
      }
      files := files + [BinderFile(hs[i].id, hs[i].name, d.value.0, hs[i].flags, d.value.1)];
    }
    return Ok(files);
  }
}
