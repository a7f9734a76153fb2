/** BND4 read after write: exactly which archives come back, and as what. */
module Bnd4RoundTrip {
  import opened Bytes
  import opened Format
  import opened Reading
  import opened Texts
  import opened Binder
  import opened BinderReading
  import opened PathHashing
  import opened HashTableCodec
  import opened Bnd4
  import opened Bnd4Writing
  import opened Bnd4Reading
  import HashIndex

  lemma FlagsRoundTrip(buf: bytes, p: Plan)
    requires HeadStands(buf, p)
    ensures ParseFlags(buf) == Ok(Flags(p.unk04, p.unk05, p.geo.be, p.geo.bitBig))
  {
    hide Enc, GetUInt, GetBool, ExpectByte, HeadersEnd, TableOffset, WriteFormat, EntrySize;
    var s := [Bool(p.unk04), Bool(p.unk05), 0, 0, 0, Bool(p.geo.be), Bool(!p.geo.bitBig), 0];
    ByteRead(buf, 4, s, 0);
    ByteRead(buf, 4, s, 1);
    ByteRead(buf, 4, s, 2);
    ByteRead(buf, 4, s, 3);
    ByteRead(buf, 4, s, 4);
    ByteRead(buf, 4, s, 5);
    ByteRead(buf, 4, s, 6);
    ByteRead(buf, 4, s, 7);
  }

  /** A version survives its eight-byte field when its code fits and comes back. */
  ghost predicate VersionFits(env: Env, b: Archive) {
    Encodable(env.sjis, false, TextOf(b.version)) && |env.sjis.encode(TextOf(b.version)).value| <= VERSION_SIZE
  }

  lemma SizesRoundTrip(env: Env, b: Archive, buf: bytes, p: Plan)
    requires p == PlanOf(env, b, p.groups, p.order) && HeadStands(buf, p)
    requires VersionFits(env, b) && |p.files| < MAX_SIZE
    ensures ParseSizes(env, buf, p.geo.be) == Ok(Sizes(|p.files|, TextOf(b.version), EntrySize(p.geo)))
  {
    hide At, Enc, GetSInt, GetFixedText, HeadersEnd, TableOffset, WriteFormat, EntrySize, StoreAll, Hashes, FixedText, Encodable;
    SmallEntry(p.geo);
    SmallFits(|p.files|);
    SmallFits(HEAD_SIZE);
    SmallFits(EntrySize(p.geo));
    PlacedSInt(buf, 12, p.geo.be, |p.files|, 4);
    PlacedSInt(buf, 16, p.geo.be, HEAD_SIZE, 8);
    VersionHere(env, b, p);
    FixedTextRead(env.sjis, buf, 24, VERSION_SIZE, TextOf(b.version));
    PlacedSInt(buf, 32, p.geo.be, EntrySize(p.geo), 8);
  }

  lemma SmallEntry(g: Geometry)
    ensures EntrySize(g) < 100
  {
  }

  lemma VersionHere(env: Env, b: Archive, p: Plan)
    requires p == PlanOf(env, b, p.groups, p.order) && VersionFits(env, b)
    ensures p.version == FixedText(env.sjis.encode(TextOf(b.version)).value, VERSION_SIZE)
  {
  }

  /** The format byte as a reader sees it. */
  function FormatRead(p: Plan): byte {
    ReadFormat(WriteFormat(p.geo.format, p.geo.bitBig), p.geo.bitBig)
  }

  lemma ShapeRoundTrip(buf: bytes, p: Plan)
    requires HeadStands(buf, p) && HeadersEnd(p) < MAX_SIZE
    ensures ParseShape(buf, p.geo.be, p.geo.bitBig)
         == if p.extended in EXTENDED_OPTIONS then Ok(Shape(p.unicode, FormatRead(p), p.extended)) else Err(BadMagic)
  {
    hide At, Enc, GetSInt, GetUInt, GetBool, ExpectByte, HeadersEnd, TableOffset, WriteFormat, ReadFormat, EntrySize;
    var s := [Bool(p.unicode), WriteFormat(p.geo.format, p.geo.bitBig), p.extended, 0];
    SmallFits(HeadersEnd(p));
    SmallFits(0);
    PlacedSInt(buf, 40, p.geo.be, HeadersEnd(p), 8);
    ByteRead(buf, 0x30, s, 0);
    ByteRead(buf, 0x30, s, 1);
    ByteRead(buf, 0x30, s, 2);
    ByteRead(buf, 0x30, s, 3);
    PlacedSInt(buf, 52, p.geo.be, 0, 4);
  }

  /** A table's markers satisfy the reader. */
  lemma MarkersCheck(buf: bytes, be: bool, at: nat, records: nat, groups: nat)
    requires at < MAX_SIZE && records < MAX_SIZE && groups < MAX_SIZE && at <= |buf|
    requires At(buf, 56, Enc(be, at, 8)) && At(buf, at, Enc(be, records, 8)) && At(buf, at + 8, Enc(be, groups, 4))
    requires At(buf, at + 12, [0x10, 0x08, 0x08, 0x00])
    ensures CheckTable(buf, be, HASHED) == Ok(())
  {
    hide At, Enc, GetSInt, GetUInt, ExpectByte;
    SmallFits(at);
    SmallFits(records);
    SmallFits(groups);
    PlacedSInt(buf, 56, be, at, 8);
    PlacedSInt(buf, at, be, records, 8);
    PlacedSInt(buf, at + 8, be, groups, 4);
    ByteRead(buf, at + 12, [0x10, 0x08, 0x08, 0x00], 0);
    ByteRead(buf, at + 12, [0x10, 0x08, 0x08, 0x00], 1);
    ByteRead(buf, at + 12, [0x10, 0x08, 0x08, 0x00], 2);
    ByteRead(buf, at + 12, [0x10, 0x08, 0x08, 0x00], 3);
  }

  lemma TableCheck(buf: bytes, p: Plan)
    requires ImageStands(buf, p) && HeadStands(buf, p) && |buf| < MAX_SIZE
    ensures CheckTable(buf, p.geo.be, p.extended) == Ok(())
  {
    hide At, Enc, GetSInt, CheckTable, HeadFlags, HeadSizes, HeadOffsets, WriteFormat, EntrySize, EntryTable, NameTable, DataTable,
      DataEnd, NamesEnd, NameBase, HeadersEnd, TableAt, TableBytes;
    if p.extended == HASHED {
      var at := TableAt(p);
      TableStands(buf, at, p.geo.be, HashIndex.Entries(p.hashes), p.groups, p.order);
      PlacedBound(buf, at, TableBytes(p.geo.be, at, HashIndex.Entries(p.hashes), p.groups, p.order));
      TableSizeShape(p.groups, |p.order|);
      MarkersCheck(buf, p.geo.be, at, at + 16 + 8 * p.groups, p.groups);
    } else {
      NoTableCheck(buf, p.geo.be, p.extended);
    }
  }

  lemma NoTableCheck(buf: bytes, be: bool, extended: byte)
    requires At(buf, 56, Enc(be, 0, 8)) && extended != HASHED
    ensures CheckTable(buf, be, extended) == Ok(())
  {
    hide At, Enc, GetSInt;
    SmallFits(0);
    PlacedSInt(buf, 56, be, 0, 8);
  }

  lemma TableSizeShape(g: nat, n: nat)
    ensures TableSize(g, n) == 16 + 8 * g + 8 * n
  {
  }

  // ------------------------------------------------------------------ the round trip

  /** An archive as it comes back: no missing version, every file restored. */
  function RestoredArchive(b: Archive): Archive {
    b.(version := Some(TextOf(b.version)), files := RestoredAll(Geo(b), b.files))
  }

  /** The foreign encoders and the compressor restore what this archive hands them. */
  ghost predicate Recoverable(env: Env, b: Archive) {
    VersionFits(env, b) && AllRestorable(env, CodecOf(env, b), b.unicode, Geo(b), b.files)
  }

  lemma HeaderRoundTrip(env: Env, b: Archive, p: Plan)
    requires p == PlanOf(env, b, p.groups, p.order) && VersionFits(env, b) && |Image(p)| < MAX_SIZE
    ensures var r := ParseHeader(env, Image(p));
      var h := Header(Flags(b.unk04, b.unk05, b.bigEndian, b.bitBigEndian), Sizes(|b.files|, TextOf(b.version), EntrySize(Geo(b))),
                      Shape(b.unicode, FormatRead(p), b.extended));
      && (b.extended in EXTENDED_OPTIONS && FormatStable(b.format, b.bitBigEndian) ==> r == Ok(h))
      && (r.Ok? ==> b.extended in EXTENDED_OPTIONS && r.value == h)
  {
    hide At, Enc, ImageStands, HeadStands, ParseFlags, ParseSizes, ParseShape, CheckTable, EntrySize, Image, StoreAll, Hashes, FixedText,
      VersionFits, HeadersEnd, ReadFormat, WriteFormat, FormatStable;
    var buf := Image(p);
    VersionSize(env, b, p);
    ImagePieces(p);
    TargetReady(p);
    CountBound(p);
    FlagsRoundTrip(buf, p);
    SizesRoundTrip(env, b, buf, p);
    ShapeRoundTrip(buf, p);
    TableCheck(buf, p);
    FormatSurvives(b.format, b.bitBigEndian);
  }

  lemma VersionSize(env: Env, b: Archive, p: Plan)
    requires p == PlanOf(env, b, p.groups, p.order)
    ensures |p.version| == VERSION_SIZE
  {
    hide StoreAll, Hashes;
  }

  /** An image has room for every file's entry, and for its own headers. */
  lemma CountBound(p: Plan)
    requires |p.version| == VERSION_SIZE
    ensures |p.files| <= |Image(p)| && HeadersEnd(p) <= |Image(p)|
  {
    hide Image, HeadersEnd, EntryTable, NameTable, DataTable;
    EntryCountBound(p.geo, HEAD_SIZE, |p.files|);
    ImagePieces(p);
    assert NameBase(p) + |NameTable(p.files, |p.files|)| <= |Image(p)|;
  }

  /** Reading what was written gives the restored archive, exactly when the format byte is stable
      and the extended byte is one the reader knows. */
  lemma RoundTrip(env: Env, b: Archive, p: Plan)
    requires p == PlanOf(env, b, p.groups, p.order) && Recoverable(env, b) && |Image(p)| < MAX_SIZE
    ensures ParseArchive(env, Image(p)) == Ok(RestoredArchive(b))
       <==> FormatStable(b.format, b.bitBigEndian) && b.extended in EXTENDED_OPTIONS
  {
    hide At, Enc, ImageStands, HeadStands, ParseHeader, EntrySize, Image, StoreAll, Hashes, FixedText, VersionFits, HeadersEnd, NameBase,
      ReadFormat, WriteFormat, FormatStable, ExtractAll, ParseEntries, BodyStands, AllRestorable, RestoredAll, CodecOf, EXTENDED_OPTIONS;
    HeaderRoundTrip(env, b, p);
    FormatSurvives(b.format, b.bitBigEndian);
    if FormatStable(b.format, b.bitBigEndian) && b.extended in EXTENDED_OPTIONS {
      CodecIs(env, b);
      PlanBody(env, b, p);
      BodyRoundTrip(env, CodecOf(env, b), b.unicode, Image(p), Geo(b), b.files, p.files, HEAD_SIZE, NameBase(p), HeadersEnd(p));
    }
  }

  lemma CodecIs(env: Env, b: Archive)
    ensures CodecOf(env, b) == NameCodec(env, b.unicode, b.bigEndian)
  {
  }

  lemma PlanBody(env: Env, b: Archive, p: Plan)
    requires p == PlanOf(env, b, p.groups, p.order)
    ensures p.files == StoreAll(env, CodecOf(env, b), b.unicode, Geo(b).format, b.files)
    ensures BodyStands(Image(p), Geo(b), p.files, HEAD_SIZE, NameBase(p), HeadersEnd(p))
  {
    hide At, Image, StoreAll, Hashes, EntryTable, NameTable, DataTable, HeadersEnd, NameBase, HeadFlags, HeadSizes, HeadOffsets, TableBytes,
      DataEnd, TableAt, NamesEnd;
    VersionSize(env, b, p);
    ImagePieces(p);
  }

  /** Nothing is lost exactly when the version is there, every kind of information the files carry has its
      place in the format, and uncompressed files carry no other preset. */
  lemma Lossless(b: Archive)
    ensures RestoredArchive(b) == b <==>
      && b.version.Some?
      && (forall i :: 0 <= i < |b.files| ==> b.files[i].name.Some? == HasNames(b.format))
      && (HasIds(b.format) || b.format == NAMES1_ONLY || forall i :: 0 <= i < |b.files| ==> b.files[i].id == -1)
      && (forall i :: 0 <= i < |b.files| ==> IsCompressed(b.files[i].flags) || b.files[i].info == ZLIB)
  {
    hide HasNames, HasIds;
    var g := Geo(b);
    if RestoredArchive(b) == b {
      assert forall i :: 0 <= i < |b.files| ==> Restored(g, b.files[i]) == RestoredAll(g, b.files)[i] == b.files[i];
    }
    if forall i :: 0 <= i < |b.files| ==> Restored(g, b.files[i]) == b.files[i] {
      assert RestoredAll(g, b.files) == b.files;
    }
  }

  /** An archive for which nothing needs to be assumed of foreign code: single-byte texts without NUL,
      no compressed files. */
  ghost predicate Plain(b: Archive) {
    && !b.unicode && Unterminated(TextOf(b.version), false) && |TextOf(b.version)| <= VERSION_SIZE
    && forall i :: 0 <= i < |b.files| ==>
         Fits(b.files[i].id, 4) && !IsCompressed(b.files[i].flags) && Unterminated(TextOf(b.files[i].name), false)
  }

  lemma PlainRoundTrip(env: Env, b: Archive, p: Plan)
    requires env.sjis == PLAIN && Plain(b) && p == PlanOf(env, b, p.groups, p.order) && |Image(p)| < MAX_SIZE
    ensures ParseArchive(env, Image(p)) == Ok(RestoredArchive(b))
       <==> FormatStable(b.format, b.bitBigEndian) && b.extended in EXTENDED_OPTIONS
  {
    hide Image, ParseArchive, PlanOf, FormatStable, RestoredArchive, EXTENDED_OPTIONS, Unterminated, Encodable, PLAIN;
    PlainTexts(TextOf(b.version), false);
    PlainCode(TextOf(b.version));
    forall i | 0 <= i < |b.files|
      ensures Restorable(env, env.sjis, false, Geo(b), b.files[i])
    {
      PlainTexts(TextOf(b.files[i].name), false);
    }
    RoundTrip(env, b, p);
  }

  lemma PlainCode(text: bytes)
    ensures PLAIN.encode(text) == Ok(text)
  {
  }

  lemma ParsedExtended(env: Env, buf: bytes)
    ensures var r := ParseHeader(env, buf); r.Ok? ==> r.value.shape.extended in EXTENDED_OPTIONS
  {
    hide ParseFlags, ParseSizes, GetSInt, GetBool, GetUInt, ExpectSInt, CheckTable, EntrySize, ReadFormat;
  }

  /** Whatever has been read needs no restoring. */
  lemma ParsedIsRestored(env: Env, buf: bytes)
    ensures var r := ParseArchive(env, buf); r.Ok? ==> RestoredArchive(r.value) == r.value && r.value.extended in EXTENDED_OPTIONS
  {
    hide ParseHeader, ParseEntries, ExtractAll, RestoredAll, EXTENDED_OPTIONS;
    var r := ParseArchive(env, buf);
    if r.Ok? {
      var h := ParseHeader(env, buf).value;
      ParsedExtended(env, buf);
      ReadBodyNormal(env, NameCodec(env, h.shape.unicode, h.flags.be), h.shape.unicode, buf, GeoOf(h), HEAD_SIZE, h.sizes.count);
    }
  }

  /** An archive that has been read, from whatever bytes, is the same after writing and reading again,
      exactly when its format byte is stable. */
  lemma ReadWriteRead(env: Env, buf: bytes, p: Plan)
    requires ParseArchive(env, buf).Ok?
    requires var b := ParseArchive(env, buf).value;
      p == PlanOf(env, b, p.groups, p.order) && Recoverable(env, b) && |Image(p)| < MAX_SIZE
    ensures var b := ParseArchive(env, buf).value;
      ParseArchive(env, Image(p)) == Ok(b) <==> FormatStable(b.format, b.bitBigEndian)
  {
    hide Image, ParseArchive, PlanOf, Recoverable, FormatStable, RestoredArchive, EXTENDED_OPTIONS;
    ParsedIsRestored(env, buf);
    RoundTrip(env, ParseArchive(env, buf).value, p);
  }

  /** Looking a name's hash up in the bytes of a written archive finds exactly the files the
      linear scan would accept, and its answer is the first of them. */
  lemma LookupRefinesScan(env: Env, b: Archive, p: Plan, h: nat)
    requires p == PlanOf(env, b, p.groups, p.order) && Indexed(p) && b.extended == HASHED && |Image(p)| < MAX_SIZE
    ensures GroupOf(Image(p), TableAt(p), b.bigEndian, h).Ok?
    ensures var (pos, length) := GroupOf(Image(p), TableAt(p), b.bigEndian, h).value;
            var found := IndicesIn(Image(p), pos, length, b.bigEndian, h);
            && found == HashIndex.Matching(Hashes(b.files), h)
            && match HashIndex.Scan(Hashes(b.files), h, 0)
               case None => found == {}
               case Some(i) => i in found && forall j :: j in found ==> i <= j
  {
    hide At, Enc, Image, StoreAll, TableBytes, TableAt, HashIndex.IsIndex, HashIndex.Slice, GroupOf;
    VersionSize(env, b, p);
    TargetReady(p);
    LookupInBytes(Image(p), TableAt(p), b.bigEndian, p.hashes, p.groups, p.order, h);
    IndexLength(p.order, p.hashes, p.groups);
    HashIndex.FoundIsMatching(p.order, p.hashes, p.groups, h);
    HashIndex.IndexRefinesScan(p.order, p.hashes, p.groups, h);
  }

  function NoFiles(format: byte, extended: byte): Archive {
    Archive(None, format, false, false, false, false, false, extended, [])
  }

  /** Even an archive without files does not come back with an extended byte of 2, or with the format that
      0x83 is read as. */
  lemma NotReadBack(env: Env, b: Archive, p: Plan)
    requires env.sjis == PLAIN && (b == NoFiles(0, 2) || b == NoFiles(0xC1, 0)) && p == PlanOf(env, b, 0, [])
    ensures Writable(env, b) && ParseArchive(env, Image(p)) != Ok(RestoredArchive(b))
  {
    hide ParseArchive, Image, RestoredArchive, FormatStable, FixedText, Plain, Writable, PLAIN, ReadFormat, WriteFormat;
    EmptyIsPlain(env, b);
    EmptyImage(p);
    UnstableFormatRead();
    PlainRoundTrip(env, b, p);
  }

  lemma EmptyIsPlain(env: Env, b: Archive)
    requires env.sjis == PLAIN && b.version == None && b.files == [] && !b.unicode && b.extended != HASHED
    ensures Plain(b) && Writable(env, b)
  {
  }

  lemma EmptyImage(p: Plan)
    requires p.files == [] && p.extended != HASHED && |p.version| == VERSION_SIZE
    ensures |Image(p)| == HEAD_SIZE
  {
    hide Enc;
  }
}
