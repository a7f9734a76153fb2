/** The BND3 reader, and the round trip: exactly which archives come back, and as what. */
module Bnd3Reading {
  import opened Bytes
  import opened Format
  import opened Reading
  import opened Texts
  import opened Binder
  import opened BinderReading
  import opened Bnd3
  import Bnd3Writing

  // ------------------------------------------------------------------ parsing as a function

  datatype Lead = Lead(version: bytes, format: byte, be: bool, bitBig: bool)
  datatype Numbers = Numbers(count: int, headersEnd: int, unk18: int)

  /** The bit order stands behind the format byte it applies to, so it is looked up first; when
      the cursor passes it again it cannot have changed. */
  function ParseLead(env: Env, buf: bytes): Result<Lead> {
    var _ :- ExpectBytes(buf, 0, MAGIC);
    var version :- GetFixedText(env.sjis, buf, 4, VERSION_SIZE);
    var ahead :- SeekTo(buf, 14);
    var bitBig :- GetBool(buf, ahead);
    var raw :- GetUInt(buf, 12, false, 1);
    var be :- GetBool(buf, 13);
    var _ :- ExpectByte(buf, 15, {0});
    Ok(Lead(version, ReadFormat(raw % 256, bitBig), be, bitBig))
  }

  function ParseNumbers(buf: bytes, be: bool): (r: Result<Numbers>)
    ensures r.Ok? ==> r.value.count >= 0
  {
    var count :- GetSInt(buf, 16, be, 4);
    var headersEnd :- GetSInt(buf, 20, be, 4);
    var unk18 :- GetSInt(buf, 24, be, 4);
    if unk18 !in UNK18_OPTIONS then Err(BadMagic)
    else
      var _ :- ExpectSInt(buf, 28, be, 4, 0);
      if count < 0 then Err(OutOfRange) else Ok(Numbers(count, headersEnd, unk18))
  }

  function OrderOf(l: Lead): bool { HostOrder(l.be, l.format) }
  function GeoOf(l: Lead): Geometry { Geometry(false, l.format, l.bitBig, OrderOf(l)) }

  function ArchiveOf(l: Lead, n: Numbers, files: seq<BinderFile>): Archive {
    Archive(Some(l.version), l.format, l.be, l.bitBig, n.unk18, n.headersEnd > 0, files)
  }

  function ParseArchive(env: Env, buf: bytes): Result<Archive> {
    var l :- ParseLead(env, buf);
    var n :- ParseNumbers(buf, OrderOf(l));
    var hs :- ParseEntries(env.sjis, false, buf, GeoOf(l), HEAD_SIZE, n.count);
    var files :- ExtractAll(env, buf, hs, n.count);
    Ok(ArchiveOf(l, n, files))
  }

  // ------------------------------------------------------------------ the reading methods

  method ReadLead(rd: BinaryReader, env: Env) returns (r: Result<Lead>)
    requires rd.Valid() && rd.pos == 0
    modifies rd`pos
    ensures rd.Valid()
    ensures r == ParseLead(env, rd.buf)
    ensures r.Ok? ==> rd.pos == 16
  {
    hide ExpectByte, ExpectBytes, GetFixedText, GetBool;
    var _ :- rd.AssertBytes(MAGIC);
    var version :- ReadFixedText(rd, env.sjis, VERSION_SIZE);
    var back := rd.pos;
    var _ :- rd.Seek(14);
    var bitBig :- rd.ReadBool();
    rd.pos := back;
    var raw :- rd.ReadByte();
    var be :- rd.ReadBool();
    var _ := rd.ReadBool();
    var _ :- rd.AssertByte({0});
    return Ok(Lead(version, ReadFormat(raw % 256, bitBig), be, bitBig));
  }

  method ReadNumbers(rd: BinaryReader) returns (r: Result<Numbers>)
    requires rd.Valid() && rd.pos == 16
    modifies rd`pos
    ensures rd.Valid()
    ensures r == ParseNumbers(rd.buf, rd.bigEndian)
    ensures r.Ok? ==> rd.pos == HEAD_SIZE
  {
    hide GetSInt, ExpectSInt;
    var count :- rd.ReadSInt(4);
    var headersEnd :- rd.ReadSInt(4);
    var unk18 :- rd.ReadSInt(4);
    if unk18 !in UNK18_OPTIONS {
      return Err(BadMagic);
    }
    var _ :- rd.AssertSInt(4, 0);
    if count < 0 {
      return Err(OutOfRange);
    }
    return Ok(Numbers(count, headersEnd, unk18));
  }

  method ReadArchive(env: Env, buf: bytes) returns (r: Result<Archive>)
    ensures r == ParseArchive(env, buf)
  {
    hide ParseLead, ParseNumbers, ParseEntries, ExtractAll;
    var rd := new BinaryReader(buf);
    var lead :- ReadLead(rd, env);
    rd.bigEndian := HostOrder(lead.be, lead.format);
    var numbers :- ReadNumbers(rd);
    var hs :- ReadEntries(rd, env.sjis, false, GeoOf(lead), numbers.count);
    var files :- ReadAllData(rd, env, hs);
    return Ok(ArchiveOf(lead, numbers, files));
  }

  // ------------------------------------------------------------------ reading undoes writing

  /** An archive as it comes back: no missing version, every file restored. */
  function RestoredArchive(b: Archive): Archive {
    b.(version := Some(TextOf(b.version)), files := RestoredAll(Geo(b), b.files))
  }

  /** A version survives its eight-byte field when its code fits and comes back. */
  ghost predicate VersionFits(env: Env, b: Archive) {
    Encodable(env.sjis, false, TextOf(b.version)) && |env.sjis.encode(TextOf(b.version)).value| <= VERSION_SIZE
  }

  /** The foreign encoder and the compressor restore what this archive hands them. */
  ghost predicate Recoverable(env: Env, b: Archive) {
    VersionFits(env, b) && AllRestorable(env, env.sjis, false, Geo(b), b.files)
  }

  lemma VersionHere(env: Env, b: Archive)
    requires VersionFits(env, b)
    ensures PlanOf(env, b).version == FixedText(env.sjis.encode(TextOf(b.version)).value, VERSION_SIZE)
  {
  }

  /** The leading bytes come back, with the format byte as a reader sees it. */
  lemma LeadRoundTrip(env: Env, b: Archive, buf: bytes)
    requires ImageStands(buf, PlanOf(env, b)) && VersionFits(env, b)
    ensures ParseLead(env, buf)
         == Ok(Lead(TextOf(b.version), ReadFormat(WriteFormat(b.format, b.bitBigEndian), b.bitBigEndian), b.bigEndian, b.bitBigEndian))
  {
    hide Enc, GetUInt, GetBool, ExpectByte, NamesEnd, WriteFormat, ReadFormat, BodyStands, RecordedEnd, FixedText, GetFixedText, Encodable, DataEnd;
    var s := [WriteFormat(b.format, b.bitBigEndian), Bool(b.bigEndian), Bool(b.bitBigEndian), 0];
    VersionHere(env, b);
    FixedTextRead(env.sjis, buf, 4, VERSION_SIZE, TextOf(b.version));
    ByteRead(buf, 12, s, 0);
    ByteRead(buf, 12, s, 1);
    ByteRead(buf, 12, s, 2);
    ByteRead(buf, 12, s, 3);
  }

  lemma NumbersRoundTrip(env: Env, b: Archive, buf: bytes)
    requires var p := PlanOf(env, b); ImageStands(buf, p) && |p.files| < MAX_SIZE && 0 < NamesEnd(p) < MAX_SIZE
    requires Fits(b.unk18, 4)
    ensures ParseNumbers(buf, Geo(b).be)
         == if b.unk18 in UNK18_OPTIONS then Ok(Numbers(|b.files|, RecordedEnd(PlanOf(env, b)), b.unk18)) else Err(BadMagic)
  {
    hide At, Enc, GetSInt, NamesEnd, WriteFormat, BodyStands, FixedText, StoreAll, DataEnd;
    var be := Geo(b).be;
    SmallFits(|b.files|);
    SmallFits(RecordedEnd(PlanOf(env, b)));
    SmallFits(0);
    PlacedSInt(buf, 16, be, |b.files|, 4);
    PlacedSInt(buf, 20, be, RecordedEnd(PlanOf(env, b)), 4);
    PlacedSInt(buf, 24, be, b.unk18, 4);
    PlacedSInt(buf, 28, be, 0, 4);
  }

  lemma SizesBound(p: Plan, buf: bytes)
    requires ImageStands(buf, p)
    ensures |p.files| <= |buf| && 0 < NamesEnd(p) <= |buf|
  {
    hide At, Enc, BodyStands;
    EntryCountBound(p.geo, HEAD_SIZE, |p.files|);
  }

  lemma BodyHere(env: Env, b: Archive)
    ensures var p := PlanOf(env, b);
      && ImageStands(Image(p), p)
      && BodyStands(Image(p), Geo(b), p.files, HEAD_SIZE, NameBase(p), NamesEnd(p))
      && p.files == StoreAll(env, env.sjis, false, Geo(b).format, b.files)
  {
    hide At, Enc, Image, BodyStands, StoreAll, FixedText, NamesEnd, NameBase;
    ImagePieces(PlanOf(env, b));
  }

  /** Reading what was written gives the restored archive, in either byte order, exactly when the
      format byte is stable and the unknown word is one the reader knows. */
  lemma RoundTrip(env: Env, b: Archive)
    requires Recoverable(env, b) && Fits(b.unk18, 4) && |Image(PlanOf(env, b))| < MAX_SIZE
    ensures ParseArchive(env, Image(PlanOf(env, b))) == Ok(RestoredArchive(b))
       <==> FormatStable(b.format, b.bitBigEndian) && b.unk18 in UNK18_OPTIONS
  {
    hide At, Enc, ImageStands, BodyStands, ParseLead, ParseNumbers, Image, PlanOf, VersionFits, NamesEnd, NameBase,
      ReadFormat, WriteFormat, FormatStable, ExtractAll, ParseEntries, AllRestorable, RestoredAll, RecordedEnd;
    var p := PlanOf(env, b);
    BodyHere(env, b);
    SizesBound(p, Image(p));
    LeadRoundTrip(env, b, Image(p));
    FormatSurvives(b.format, b.bitBigEndian);
    if FormatStable(b.format, b.bitBigEndian) {
      NumbersRoundTrip(env, b, Image(p));
      EndFlag(env, b);
      BodyRoundTrip(env, env.sjis, false, Image(p), Geo(b), b.files, p.files, HEAD_SIZE, NameBase(p), NamesEnd(p));
    }
  }

  lemma EndFlag(env: Env, b: Archive)
    requires 0 < NamesEnd(PlanOf(env, b))
    ensures RecordedEnd(PlanOf(env, b)) > 0 <==> b.writeHeadersEnd
  {
  }

  /** Nothing is lost exactly when the version is there, every kind of information the files carry
      has its place in the format, and uncompressed files carry no other preset. */
  lemma Lossless(b: Archive)
    ensures RestoredArchive(b) == b <==>
      && b.version.Some?
      && (forall i :: 0 <= i < |b.files| ==> b.files[i].name.Some? == HasNames(b.format))
      && (HasIds(b.format) || forall i :: 0 <= i < |b.files| ==> b.files[i].id == -1)
      && (forall i :: 0 <= i < |b.files| ==> IsCompressed(b.files[i].flags) || b.files[i].info == ZLIB)
  {
    hide HasNames, HasIds;
    var g := Geo(b);
    if RestoredArchive(b) == b {
      assert forall i :: 0 <= i < |b.files| ==> Restored(g, b.files[i]) == RestoredAll(g, b.files)[i] == b.files[i];
    }
    if forall i :: 0 <= i < |b.files| ==> Restored(g, b.files[i]) == b.files[i] {
      assert RestoredAll(g, b.files) == b.files;
    }
  }

  /** Whatever has been read needs no restoring. */
  lemma ParsedIsRestored(env: Env, buf: bytes)
    ensures var r := ParseArchive(env, buf);
      r.Ok? ==> RestoredArchive(r.value) == r.value && r.value.unk18 in UNK18_OPTIONS && Fits(r.value.unk18, 4)
  {
    hide ParseLead, GetSInt, ParseEntries, ExtractAll, RestoredAll;
    var r := ParseArchive(env, buf);
    if r.Ok? {
      var l := ParseLead(env, buf).value;
      ReadBodyNormal(env, env.sjis, false, buf, GeoOf(l), HEAD_SIZE, ParseNumbers(buf, OrderOf(l)).value.count);
      Widths();
    }
  }

  /** An archive that has been read, from whatever bytes, is the same after writing and reading again,
      exactly when its format byte is stable. */
  lemma ReadWriteRead(env: Env, buf: bytes)
    requires ParseArchive(env, buf).Ok?
    requires var b := ParseArchive(env, buf).value; Recoverable(env, b) && |Image(PlanOf(env, b))| < MAX_SIZE
    ensures var b := ParseArchive(env, buf).value;
      ParseArchive(env, Image(PlanOf(env, b))) == Ok(b) <==> FormatStable(b.format, b.bitBigEndian)
  {
    hide Image, ParseArchive, PlanOf, Recoverable, FormatStable, RestoredArchive, UNK18_OPTIONS;
    ParsedIsRestored(env, buf);
    RoundTrip(env, ParseArchive(env, buf).value);
  }

  function NoFiles(format: byte, unk18: int): Archive {
    Archive(None, format, false, false, unk18, false, [])
  }

  /** Even an archive without files does not come back with an unknown word of 1, or with the format that
      0x83 is read as. */
  lemma NotReadBack(env: Env, b: Archive)
    requires env.sjis == PLAIN && (b == NoFiles(0, 1) || b == NoFiles(0xC1, 0))
    ensures Bnd3Writing.Writable(env, b) && ParseArchive(env, Image(PlanOf(env, b))) != Ok(RestoredArchive(b))
  {
    hide ParseArchive, Image, RestoredArchive, FormatStable, PlanOf, Recoverable, PLAIN, ReadFormat, WriteFormat, Bnd3Writing.Writable;
    EmptyIsRecoverable(env, b);
    EmptyImage(env, b);
    Widths();
    UnstableFormatRead();
    RoundTrip(env, b);
  }

  lemma EmptyIsRecoverable(env: Env, b: Archive)
    requires env.sjis == PLAIN && b.version == None && b.files == []
    ensures Recoverable(env, b) && Bnd3Writing.Writable(env, b)
  {
  }

  lemma EmptyImage(env: Env, b: Archive)
    requires b.files == []
    ensures |Image(PlanOf(env, b))| == HEAD_SIZE
  {
    hide Enc, FixedText;
  }
}
