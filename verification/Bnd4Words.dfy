/** The BND4 archive spelled out word by word: which bytes are read as which archive, and what is
    written. */
module Bnd4Words {
  import opened Bytes
  import opened Format
  import opened Reading
  import opened Words
  import opened Texts
  import opened Binder
  import opened BinderReading
  import opened BinderWords
  import opened Bnd4
  import opened Bnd4Writing
  import opened Bnd4Reading
  import opened PathHashing
  import opened HashTableWords
  import HashIndex
  import HashTableCodec
  import Bnd4RoundTrip

  // ------------------------------------------------------------------ the words

  /** How long an entry is. */
  function EntryLength(format: byte): nat {
    16 + (if Bit(format, 32) then 8 else 0) + (if Bit(format, 16) then 8 else 4) + (if Bit(format, 2) then 4 else 0)
    + (if Bit(format, 4) || Bit(format, 8) then 4 else 0) + (if format == 4 then 8 else 0)
  }

  function EntriesEnd(b: Archive): nat {
    64 + EntryLength(b.format) * |b.files|
  }

  ghost predicate MarkWords(buf: bytes, b: Archive) {
    && |buf| >= 12 && buf[..4] == [0x42, 0x4E, 0x44, 0x34]
    && buf[4] == (if b.unk04 then 1 else 0) && buf[5] == (if b.unk05 then 1 else 0)
    && buf[6] == 0 && buf[7] == 0 && buf[8] == 0
    && buf[9] == (if b.bigEndian then 1 else 0) && buf[10] == (if b.bitBigEndian then 0 else 1) && buf[11] == 0
  }

  /** A field of eight bytes that decodes to the version. */
  ghost predicate VersionWords(env: Env, buf: bytes, version: bytes) {
    exists s :: FieldText(buf, 24, 8, s) && env.sjis.decode(s) == Ok(version)
  }

  ghost predicate SizeWords(env: Env, buf: bytes, b: Archive) {
    && |buf| >= 40
    && I32(buf, 12, b.bigEndian) == |b.files| && I64(buf, 16, b.bigEndian) == 0x40
    && b.version.Some? && VersionWords(env, buf, b.version.value) && I64(buf, 32, b.bigEndian) == EntryLength(b.format)
  }

  ghost predicate ShapeWords(buf: bytes, b: Archive) {
    && |buf| >= 56
    && buf[48] == (if b.unicode then 1 else 0) && ReadsFormat(buf[49], b.bitBigEndian, b.format)
    && buf[50] == b.extended && (b.extended == 0 || b.extended == 1 || b.extended == 4 || b.extended == 0x80)
    && buf[51] == 0 && I32(buf, 52, b.bigEndian) == 0
  }

  /** With an index, its offset, and there after twelve bytes its four marks; without one, zero. */
  ghost predicate TableWords(buf: bytes, b: Archive) {
    && |buf| >= 64
    && var at := I64(buf, 56, b.bigEndian);
       if b.extended == 4 then
         0 <= at && at + 16 <= |buf| && buf[at + 12] == 0x10 && buf[at + 13] == 8 && buf[at + 14] == 8 && buf[at + 15] == 0
       else at == 0
  }

  /** File `i` with its entry, one after the other from 64 on. */
  ghost predicate FileCarried(env: Env, buf: bytes, b: Archive, i: nat) {
    i < |b.files|
    && File4Words(env, buf, 64 + EntryLength(b.format) * i, b.bigEndian, b.bitBigEndian, b.unicode, b.format, b.files[i])
  }

  ghost predicate Carries(env: Env, buf: bytes, b: Archive) {
    && MarkWords(buf, b) && SizeWords(env, buf, b) && ShapeWords(buf, b) && TableWords(buf, b)
    && forall i :: 0 <= i < |b.files| ==> FileCarried(env, buf, b, i)
  }

  // ------------------------------------------------------------------ reading

  lemma MarkRead(buf: bytes, b: Archive)
    ensures ParseFlags(buf) == Ok(Flags(b.unk04, b.unk05, b.bigEndian, b.bitBigEndian)) <==> MarkWords(buf, b)
  {
    hide GetUInt, GetBool, ExpectByte;
    ReadFlag(buf, 4);
    ReadFlag(buf, 5);
    ReadOption(buf, 6, {0});
    ReadOption(buf, 7, {0});
    ReadOption(buf, 8, {0});
    ReadFlag(buf, 9);
    ReadFlag(buf, 10);
    ReadOption(buf, 11, {0});
    assert |buf| >= 4 ==> buf[0..4] == buf[..4];
  }

  lemma VersionRead(env: Env, buf: bytes, version: bytes)
    ensures GetFixedText(env.sjis, buf, 24, 8) == Ok(version) <==> VersionWords(env, buf, version)
  {
    hide FieldText;
    if |buf| >= 32 {
      var t := buf[24..32];
      ReadField(buf, 24, 8, t[..ZeroFrom(t, 0)]);
      if VersionWords(env, buf, version) {
        var s :| FieldText(buf, 24, 8, s) && env.sjis.decode(s) == Ok(version);
        ReadField(buf, 24, 8, s);
      }
    } else {
      assert forall s :: !FieldText(buf, 24, 8, s) by { NoField(buf, 24, 8); }
    }
  }

  lemma NoField(buf: bytes, pos: nat, size: nat)
    requires pos + size > |buf|
    ensures forall s :: !FieldText(buf, pos, size, s)
  {
  }

  lemma SizesRead(env: Env, buf: bytes, be: bool, count: int, version: bytes, entrySize: int)
    ensures ParseSizes(env, buf, be) == Ok(Sizes(count, version, entrySize)) <==>
      && |buf| >= 40 && I32(buf, 12, be) == count && I64(buf, 16, be) == 0x40
      && VersionWords(env, buf, version) && I64(buf, 32, be) == entrySize
  {
    hide GetSInt, GetFixedText, I32, I64, VersionWords;
    Read32(buf, 12, be);
    Read64(buf, 16, be);
    VersionRead(env, buf, version);
    Read64(buf, 32, be);
  }

  lemma SmallByte(buf: bytes, pos: nat, options: set<int>)
    ensures var r := ExpectByte(buf, pos, options); r.Ok? ==> r.value % 256 == r.value
  {
    ReadOption(buf, pos, options);
  }

  lemma RestRead(buf: bytes, b: Archive)
    ensures (var extended :- ExpectByte(buf, 50, EXTENDED_OPTIONS);
             var _ :- ExpectByte(buf, 51, {0});
             var _ :- ExpectSInt(buf, 52, b.bigEndian, 4, 0);
             Ok(extended)) == Ok(b.extended)
       <==> |buf| >= 56 && buf[50] == b.extended && (b.extended == 0 || b.extended == 1 || b.extended == 4 || b.extended == 0x80)
            && buf[51] == 0 && I32(buf, 52, b.bigEndian) == 0
  {
    hide GetSInt, I32, ExpectByte;
    ReadOption(buf, 50, EXTENDED_OPTIONS);
    ReadOption(buf, 51, {0});
    Read32(buf, 52, b.bigEndian);
  }

  lemma ShapeRead(buf: bytes, b: Archive)
    ensures ParseShape(buf, b.bigEndian, b.bitBigEndian) == Ok(Shape(b.unicode, b.format, b.extended)) <==> ShapeWords(buf, b)
  {
    hide GetUInt, GetSInt, GetBool, ExpectByte, ExpectSInt, I32, I64, ReadFormat, ReadsFormat, EXTENDED_OPTIONS, Dec;
    Read64(buf, 40, b.bigEndian);
    ReadFlag(buf, 48);
    ReadByte(buf, 49);
    RestRead(buf, b);
    SmallByte(buf, 50, EXTENDED_OPTIONS);
    if |buf| > 49 {
      FormatIs(buf[49], b.bitBigEndian, b.format);
    }
  }

  lemma TableRead(buf: bytes, b: Archive)
    ensures CheckTable(buf, b.bigEndian, b.extended).Ok? <==> TableWords(buf, b)
  {
    hide GetUInt, GetSInt, ExpectByte, I32, I64;
    Read64(buf, 56, b.bigEndian);
    if |buf| >= 64 && 0 <= I64(buf, 56, b.bigEndian) {
      var at: nat := I64(buf, 56, b.bigEndian);
      Read64(buf, at, b.bigEndian);
      Read32(buf, at + 8, b.bigEndian);
      ReadOption(buf, at + 12, {0x10});
      ReadOption(buf, at + 13, {0x08});
      ReadOption(buf, at + 14, {0x08});
      ReadOption(buf, at + 15, {0x00});
    }
  }

  lemma LengthIs(g: Geometry)
    requires g.v4
    ensures EntrySize(g) == EntryLength(g.format)
  {
    hide Bit;
    Positions(g);
  }

  lemma FilesCarried(env: Env, buf: bytes, b: Archive)
    ensures (forall i :: 0 <= i < |b.files| ==>
               FileRead(env, NameCodec(env, b.unicode, b.bigEndian), b.unicode, buf, EntryPos(Geo(b), HEAD_SIZE, i), Geo(b), b.files[i]))
       <==> forall i :: 0 <= i < |b.files| ==> FileCarried(env, buf, b, i)
  {
    hide FileRead, File4Words, EntryPos, EntrySize, EntryLength, NameCodec;
    forall i | 0 <= i < |b.files|
      ensures FileRead(env, NameCodec(env, b.unicode, b.bigEndian), b.unicode, buf, EntryPos(Geo(b), HEAD_SIZE, i), Geo(b), b.files[i])
         <==> FileCarried(env, buf, b, i)
    {
      LengthIs(Geo(b));
      EntriesMultiply(Geo(b), HEAD_SIZE, i);
      File4Read(env, b.unicode, buf, EntryPos(Geo(b), HEAD_SIZE, i), Geo(b), b.files[i]);
    }
  }

  lemma CarriedIsRead(env: Env, buf: bytes, b: Archive)
    requires Carries(env, buf, b)
    ensures ParseArchive(env, buf) == Ok(b)
  {
    hide ParseFlags, ParseSizes, ParseShape, CheckTable, ParseEntries, ExtractAll, MarkWords, ShapeWords, TableWords, VersionWords, FileCarried, FileRead,
      EntrySize, EntryLength, I32, I64, EntryPos;
    MarkRead(buf, b);
    SizesRead(env, buf, b.bigEndian, |b.files|, b.version.value, EntryLength(b.format));
    ShapeRead(buf, b);
    TableRead(buf, b);
    LengthIs(Geo(b));
    FilesCarried(env, buf, b);
    BodyRead(env, NameCodec(env, b.unicode, b.bigEndian), b.unicode, buf, Geo(b), HEAD_SIZE, b.files);
  }

  lemma ReadIsCarried(env: Env, buf: bytes, b: Archive)
    requires ParseArchive(env, buf) == Ok(b)
    ensures Carries(env, buf, b)
  {
    hide ParseFlags, ParseSizes, ParseShape, CheckTable, ParseEntries, ExtractAll, MarkWords, ShapeWords, TableWords, VersionWords, FileCarried, FileRead,
      EntrySize, EntryLength, I32, I64, EntryPos;
    MarkRead(buf, b);
    SizesRead(env, buf, b.bigEndian, |b.files|, b.version.value, EntryLength(b.format));
    ShapeRead(buf, b);
    TableRead(buf, b);
    LengthIs(Geo(b));
    FilesCarried(env, buf, b);
    BodyRead(env, NameCodec(env, b.unicode, b.bigEndian), b.unicode, buf, Geo(b), HEAD_SIZE, b.files);
  }

  /** What is read, to the word: the parser returns an archive exactly for the bytes that carry it. */
  lemma ReadExactly(env: Env, buf: bytes, b: Archive)
    ensures ParseArchive(env, buf) == Ok(b) <==> Carries(env, buf, b)
  {
    hide ParseArchive, Carries;
    if ParseArchive(env, buf) == Ok(b) {
      ReadIsCarried(env, buf, b);
    }
    if Carries(env, buf, b) {
      CarriedIsRead(env, buf, b);
    }
  }

  // ------------------------------------------------------------------ writing

  /** File `i`: the words of its entry, and name and payload where these point. */
  ghost predicate FileWritten(env: Env, buf: bytes, b: Archive, vs: seq<Fields>, i: nat)
    requires |vs| == |b.files|
  {
    i < |b.files|
    && var f, v := b.files[i], vs[i];
       && Entry4Spelled(buf, 64 + EntryLength(b.format) * i, b.bigEndian, b.bitBigEndian, b.format, v)
       && v.flags == f.flags && v.id == f.id && v.uncompressed == |f.data|
       && (Bit(b.format, 4) || Bit(b.format, 8) ==> NameStored(env, buf, v.namePos, b.unicode, b.bigEndian, TextOf(f.name)))
       && exists payload :: At(buf, v.dataPos, payload) && |payload| == v.compressed && PayloadIs(env, f, payload)
  }

  /** The version, cut off or filled up with zeros. */
  ghost predicate VersionWritten(env: Env, buf: bytes, b: Archive) {
    |buf| >= 32 && env.sjis.encode(TextOf(b.version)).Ok?
    && forall k :: 0 <= k < 8 ==>
         var code := env.sjis.encode(TextOf(b.version)).value; buf[24 + k] == if k < |code| then code[k] else 0
  }

  ghost predicate HeadWritten(env: Env, buf: bytes, b: Archive) {
    && |buf| >= 64 && MarkWords(buf, b) && VersionWritten(env, buf, b)
    && I32(buf, 12, b.bigEndian) == |b.files| && I64(buf, 16, b.bigEndian) == 0x40 && I64(buf, 32, b.bigEndian) == EntryLength(b.format)
    && buf[48] == (if b.unicode then 1 else 0) && WritesFormat(b.format, b.bitBigEndian, buf[49]) && buf[50] == b.extended && buf[51] == 0
    && I32(buf, 52, b.bigEndian) == 0
  }

  /** With an index, a table on the next multiple of eight, made of the hashes of the names, and as many
      groups as the least prime from a seventh of the file count on. */
  ghost predicate TableWritten(buf: bytes, b: Archive, namesEnd: nat, start: nat) {
    && |buf| >= 64 && I64(buf, 40, b.bigEndian) == start
    && var at := I64(buf, 56, b.bigEndian);
       if b.extended == 4 then
         && at == (namesEnd + 7) / 8 * 8 && at <= |buf| && (forall k :: namesEnd <= k < at ==> buf[k] == 0)
         && IndexWords(buf, at, b.bigEndian, Hashes(b.files))
         && LeastPrimeFrom(U32(buf, at + 8, b.bigEndian), |b.files| / 7)
         && start == at + 16 + 8 * U32(buf, at + 8, b.bigEndian) + 8 * |b.files|
       else at == 0 && start == namesEnd
  }

  ghost predicate Written(env: Env, buf: bytes, b: Archive, vs: seq<Fields>, namesEnd: nat, start: nat) {
    && |vs| == |b.files| && HeadWritten(env, buf, b) && TableWritten(buf, b, namesEnd, start)
    && NamesPacked(env, b.unicode, b.bigEndian, b.format, b.files, vs, EntriesEnd(b), namesEnd)
    && (forall i :: 0 <= i < |b.files| ==> FileWritten(env, buf, b, vs, i) && PayloadPacked(buf, b.files, vs, start, i))
    && |buf| == EndBefore(vs, start, |vs|)
  }

  /** An archive that can be written, with an image of less than 2^31 bytes. */
  ghost predicate Target(env: Env, b: Archive, p: Plan) {
    && p == PlanOf(env, b, p.groups, p.order) && Indexed(p) && Writable(env, b) && |Image(p)| < MAX_SIZE
    && forall i :: 0 <= i < |b.files| ==> |b.files[i].data| < MAX_SIZE && Fits(b.files[i].id, 4)
  }

  lemma TargetPieces(env: Env, b: Archive, p: Plan)
    requires Target(env, b, p)
    ensures |p.version| == VERSION_SIZE && ImageStands(Image(p), p) && HeadStands(Image(p), p)
    ensures p.geo == Geo(b) && p.files == StoreAll(env, NameCodec(env, b.unicode, b.bigEndian), b.unicode, b.format, b.files)
    ensures |p.files| == |b.files| && p.extended == b.extended && p.hashes == Hashes(b.files) && p.unicode == b.unicode
    ensures BodyStands(Image(p), p.geo, p.files, HEAD_SIZE, NameBase(p), HeadersEnd(p))
    ensures NameBase(p) <= NamesEnd(p) <= HeadersEnd(p) <= |Image(p)| < MAX_SIZE
  {
    hide At, Enc, Image, EntryTable, NameTable, DataTable, HeadFlags, HeadSizes, HeadOffsets, HeadStands, EntryPos, NamePos, Indexed, Writable,
      StoreAll, Hashes;
    Bnd4RoundTrip.VersionSize(env, b, p);
    ImagePieces(p);
    HeadPieces(Image(p), p);
  }

  lemma MarkSpelled(buf: bytes, b: Archive)
    requires At(buf, 0, MAGIC)
    requires At(buf, 4, [Bool(b.unk04), Bool(b.unk05), 0, 0, 0, Bool(b.bigEndian), Bool(!b.bitBigEndian), 0])
    ensures MarkWords(buf, b)
  {
    SameBytes(buf, 0, MAGIC);
    SameBytes(buf, 4, [Bool(b.unk04), Bool(b.unk05), 0, 0, 0, Bool(b.bigEndian), Bool(!b.bitBigEndian), 0]);
    assert buf[..4] == buf[0..4];
  }

  lemma VersionSpelled(env: Env, buf: bytes, b: Archive)
    requires env.sjis.encode(TextOf(b.version)).Ok? && At(buf, 24, FixedText(env.sjis.encode(TextOf(b.version)).value, 8))
    ensures VersionWritten(env, buf, b)
  {
    SameBytes(buf, 24, FixedText(env.sjis.encode(TextOf(b.version)).value, 8));
  }

  lemma ShapeSpelled(buf: bytes, b: Archive)
    requires At(buf, 0x30, [Bool(b.unicode), WriteFormat(b.format, b.bitBigEndian), b.extended, 0])
    ensures |buf| >= 52 && buf[48] == (if b.unicode then 1 else 0) && WritesFormat(b.format, b.bitBigEndian, buf[49])
    ensures buf[50] == b.extended && buf[51] == 0
  {
    hide WriteFormat, WritesFormat;
    var s: bytes := [Bool(b.unicode), WriteFormat(b.format, b.bitBigEndian), b.extended, 0];
    SameBytes(buf, 0x30, s);
    assert s[0] == buf[0x30 + 0] && s[1] == buf[0x30 + 1] && s[2] == buf[0x30 + 2] && s[3] == buf[0x30 + 3];
    FormatIs(buf[49], b.bitBigEndian, b.format);
  }

  lemma HeadSpelled(env: Env, b: Archive, p: Plan)
    requires Target(env, b, p)
    ensures HeadWritten(env, Image(p), b)
    ensures I64(Image(p), 40, b.bigEndian) == HeadersEnd(p) && I64(Image(p), 56, b.bigEndian) == TableOffset(p)
  {
    hide At, Enc, Image, I32, I64, EntrySize, EntryLength, HeadersEnd, TableOffset, MarkWords, VersionWritten, WriteFormat, WritesFormat, FixedText,
      StoreAll, Hashes, ImageStands, Indexed, BodyStands, NameBase, NamesEnd, LeastPrimeFrom, CodecOf, Fits;
    var buf, be := Image(p), b.bigEndian;
    TargetPieces(env, b, p);
    OffsetsBounded(env, b, p);
    MarkSpelled(buf, b);
    VersionSpelled(env, buf, b);
    LengthIs(p.geo);
    Bnd4RoundTrip.SmallEntry(p.geo);
    Stored32(buf, 12, be, |p.files|);
    Stored64(buf, 16, be, HEAD_SIZE);
    Stored64(buf, 32, be, EntrySize(p.geo));
    Stored64(buf, 0x28, be, HeadersEnd(p));
    ShapeSpelled(buf, b);
    Stored32(buf, 0x34, be, 0);
    Stored64(buf, 0x38, be, TableOffset(p));
  }

  lemma OffsetsBounded(env: Env, b: Archive, p: Plan)
    requires Target(env, b, p)
    ensures |p.files| < MAX_SIZE && HeadersEnd(p) < MAX_SIZE && TableOffset(p) < MAX_SIZE
  {
    hide Image, EntryPos, NamePos, Indexed, Writable, HeadStands, BodyStands, ImageStands;
    TargetPieces(env, b, p);
    EntryCountBound(p.geo, HEAD_SIZE, |p.files|);
  }

  lemma FileReady(env: Env, b: Archive, p: Plan, i: nat)
    requires Target(env, b, p) && i < |b.files|
    ensures |b.files[i].data| < MAX_SIZE && Fits(b.files[i].id, 4)
    ensures StoreName(NameCodec(env, b.unicode, b.bigEndian), b.unicode, b.format, b.files[i]).Ok? && StorePayload(env, b.files[i]).Ok?
  {
    hide StoreName, StorePayload, NameCodec, Image, Indexed, Fits, LeastPrimeFrom;
  }

  lemma OneFileWritten(env: Env, b: Archive, p: Plan, i: nat)
    requires Target(env, b, p) && i < |b.files|
    ensures |p.files| == |b.files| && FileWritten(env, Image(p), b, AllFields(p), i)
  {
    hide *;
    TargetPieces(env, b, p);
    FileReady(env, b, p, i);
    FileAssembled(env, b, p, i);
  }

  lemma FileAssembled(env: Env, b: Archive, p: Plan, i: nat)
    requires p.geo == Geo(b) && p.files == StoreAll(env, NameCodec(env, b.unicode, b.bigEndian), b.unicode, b.format, b.files)
    requires |p.files| == |b.files| && i < |b.files| && |Image(p)| < MAX_SIZE
    requires BodyStands(Image(p), p.geo, p.files, HEAD_SIZE, NameBase(p), HeadersEnd(p))
    requires |b.files[i].data| < MAX_SIZE && Fits(b.files[i].id, 4)
    requires StoreName(NameCodec(env, b.unicode, b.bigEndian), b.unicode, b.format, b.files[i]).Ok? && StorePayload(env, b.files[i]).Ok?
    ensures FileWritten(env, Image(p), b, AllFields(p), i)
  {
    hide At, Image, EntryPos, EntrySize, EntryLength, NameCodec, StoreName, StorePayload, BodyStands, StoreAll, Entry4Spelled, NameStored, PayloadIs,
      NameBase, HeadersEnd, Bit, Fits;
    LengthIs(p.geo);
    EntriesMultiply(p.geo, HEAD_SIZE, i);
    FileSpelled(env, b.unicode, Image(p), p.geo, b.files, p.files, HEAD_SIZE, NameBase(p), HeadersEnd(p), i);
  }

  // ------------------------------------------------------------------ how the pieces are packed

  /** The fields of all entries. */
  function AllFields(p: Plan): (vs: seq<Fields>)
    ensures |vs| == |p.files|
  {
    BodyFields(p.files, NameBase(p), HeadersEnd(p))
  }

  lemma NamesSpelled(env: Env, b: Archive, p: Plan)
    requires Target(env, b, p)
    ensures |p.files| == |b.files|
    ensures NamesPacked(env, b.unicode, b.bigEndian, b.format, b.files, AllFields(p), EntriesEnd(b), NamesEnd(p))
  {
    hide *;
    TargetPieces(env, b, p);
    GeoBe(b);
    LengthIs(p.geo);
    EntriesMultiply(p.geo, HEAD_SIZE, |b.files|);
    NamesArea(p);
    EntriesEndIs(b);
    forall i | 0 <= i < |b.files|
      ensures StoreName(NameCodec(env, b.unicode, b.bigEndian), b.unicode, b.format, b.files[i]).Ok?
    {
      FileReady(env, b, p, i);
    }
    NamesAssembled(env, b.unicode, b.bigEndian, b.format, b.files, p.files, NameBase(p), HeadersEnd(p));
  }

  lemma EntriesEndIs(b: Archive)
    ensures EntriesEnd(b) == HEAD_SIZE + |b.files| * EntryLength(b.format)
  {
    hide EntryLength;
  }

  lemma NamesArea(p: Plan)
    ensures NamesEnd(p) == NamePos(p.files, NameBase(p), |p.files|) && NameBase(p) == EntryPos(p.geo, 0x40, |p.files|)
    ensures HEAD_SIZE == 0x40 && EntrySize(p.geo) * |p.files| == |p.files| * EntrySize(p.geo)
    ensures AllFields(p) == BodyFields(p.files, NameBase(p), HeadersEnd(p))
  {
    hide NamePos, EntryPos, EntrySize, HeadersEnd, DataPos, BodyFields;
  }

  lemma PayloadSpelled(env: Env, b: Archive, p: Plan, i: nat)
    requires Target(env, b, p) && i < |b.files|
    ensures |p.files| == |b.files| && PayloadPacked(Image(p), b.files, AllFields(p), HeadersEnd(p), i)
  {
    hide *;
    TargetPieces(env, b, p);
    NamesArea(p);
    PayloadAssembled(env, NameCodec(env, b.unicode, b.bigEndian), b.unicode, b.format, Image(p), p.geo, b.files, p.files, HEAD_SIZE, NameBase(p),
                     HeadersEnd(p), i);
  }

  lemma TableHere(buf: bytes, p: Plan)
    requires ImageStands(buf, p) && p.extended == 4
    ensures At(buf, NamesEnd(p), Fill(TableAt(p) - NamesEnd(p), 0))
    ensures At(buf, TableAt(p), HashTableCodec.TableBytes(p.geo.be, TableAt(p), HashIndex.Entries(p.hashes), p.groups, p.order))
  {
    hide At, NamesEnd, NameBase, TableAt, HeadersEnd, HeadFlags, HeadSizes, HeadOffsets, EntryTable, NameTable, DataTable, DataEnd;
  }

  lemma IndexReady(env: Env, b: Archive, p: Plan)
    requires Target(env, b, p) && b.extended == 4 && |b.files| < MAX_SIZE
    ensures p.groups > 0 && HashIndex.IsIndex(p.order, HashIndex.Entries(p.hashes), p.groups) && |p.order| == |p.hashes| == |b.files|
    ensures LeastPrimeFrom(p.groups, |b.files| / 7)
    ensures forall i :: 0 <= i < |p.hashes| ==> p.hashes[i] < 0x1_0000_0000
  {
    hide Writable, Image, LeastPrimeFrom, HashIndex.IsIndex, StoreAll;
  }

  lemma TableFacts(env: Env, b: Archive, p: Plan)
    requires Target(env, b, p) && b.extended == 4
    ensures Laid(Image(p), TableAt(p), b.bigEndian, p.hashes, p.groups, p.order) && |p.order| == |b.files|
    ensures LeastPrimeFrom(p.groups, |b.files| / 7) && At(Image(p), NamesEnd(p), Fill(TableAt(p) - NamesEnd(p), 0))
  {
    hide *;
    TargetPieces(env, b, p);
    OffsetsBounded(env, b, p);
    IndexReady(env, b, p);
    TableHere(Image(p), p);
    LaidIs(Image(p), TableAt(p), b.bigEndian, p.hashes, p.groups, p.order);
    assert p.geo.be == b.bigEndian by { GeoBe(b); }
  }

  lemma GeoBe(b: Archive)
    ensures Geo(b).v4 && Geo(b).be == b.bigEndian && Geo(b).format == b.format
  {
  }

  lemma LaidIs(buf: bytes, at: nat, be: bool, hashes: seq<nat>, g: nat, t: seq<HashIndex.Entry>)
    requires g > 0 && HashIndex.IsIndex(t, HashIndex.Entries(hashes), g) && |buf| < MAX_SIZE
    requires forall i :: 0 <= i < |hashes| ==> hashes[i] < 0x1_0000_0000
    ensures At(buf, at, HashTableCodec.TableBytes(be, at, HashIndex.Entries(hashes), g, t)) ==> Laid(buf, at, be, hashes, g, t)
  {
  }

  lemma IndexSpelled(env: Env, b: Archive, p: Plan)
    requires Target(env, b, p)
    ensures TableWritten(Image(p), b, NamesEnd(p), HeadersEnd(p))
  {
    hide Target, Image, I64, U32, NamesEnd, NameBase, HeadStands, BodyStands, ImageStands, Hashes, LeastPrimeFrom, IndexWords, HeadWritten, Laid, At,
      StoreAll;
    TargetPieces(env, b, p);
    HeadSpelled(env, b, p);
    ImageHead(env, b, p);
    if b.extended == 4 {
      TableFacts(env, b, p);
      RoundsUp(NamesEnd(p), 8);
      ZerosAt(Image(p), NamesEnd(p), TableAt(p) - NamesEnd(p));
      TableSpelled(Image(p), TableAt(p), b.bigEndian, p.hashes, p.groups, p.order);
    }
  }

  lemma ImageHead(env: Env, b: Archive, p: Plan)
    requires Target(env, b, p)
    ensures |Image(p)| >= 64
  {
    hide Target, Image, ImageStands, BodyStands, Enc, EntrySize, HeadersEnd, TableOffset, WriteFormat;
    TargetPieces(env, b, p);
  }

  /** What is written, to the byte: head, table, entries, names and payloads, and how they are packed. */
  lemma WrittenExactly(env: Env, b: Archive, p: Plan)
    requires Target(env, b, p)
    ensures |p.files| == |b.files| && Written(env, Image(p), b, AllFields(p), NamesEnd(p), HeadersEnd(p))
  {
    hide Target, Image, HeadWritten, TableWritten, NamesPacked, FileWritten, PayloadPacked, EndBefore, HeadersEnd, NamesEnd, HeadStands, BodyStands,
      HeadFlags, HeadSizes, HeadOffsets, EntryTable, NameTable, DataTable, DataEnd;
    TargetPieces(env, b, p);
    HeadSpelled(env, b, p);
    IndexSpelled(env, b, p);
    NamesSpelled(env, b, p);
    EndsSame(p.files, NameBase(p), HeadersEnd(p), |p.files|);
    forall i | 0 <= i < |b.files|
      ensures FileWritten(env, Image(p), b, AllFields(p), i) && PayloadPacked(Image(p), b.files, AllFields(p), HeadersEnd(p), i)
    {
      OneFileWritten(env, b, p, i);
      PayloadSpelled(env, b, p, i);
    }
  }

  /** What can be written: texts that the encoding in force accepts, payloads that can be compressed, and
      with an index less than 699944 files. */
  lemma WritableMeans(env: Env, b: Archive)
    requires |b.files| < MAX_SIZE
    ensures Writable(env, b) <==>
      && env.sjis.encode(TextOf(b.version)).Ok? && (b.extended == 4 ==> |b.files| < 699944)
      && forall i :: 0 <= i < |b.files| ==> FileWritable(env, b.unicode, b.bigEndian, b.format, b.files[i])
  {
    hide LeastPrimeFrom, SearchStart, StoreName, StorePayload, NameCodec, FileWritable;
    forall i | 0 <= i < |b.files|
      ensures FileWritable(env, b.unicode, b.bigEndian, b.format, b.files[i])
         <==> StoreName(NameCodec(env, b.unicode, b.bigEndian), b.unicode, b.format, b.files[i]).Ok? && StorePayload(env, b.files[i]).Ok?
    {
      FileWritableIs(env, b.unicode, b.bigEndian, b.format, b.files[i]);
    }
    var start := SearchStart(|b.files|);
    var g := GroupCountExists(start, start);
    ZeroIsAnswer(g, start);
    GroupCountZero(g, |b.files|);
  }
}
