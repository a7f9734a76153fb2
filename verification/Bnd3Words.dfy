/** The BND3 archive spelled out word by word: which bytes are read as which archive, and what is
    written. */
module Bnd3Words {
  import opened Bytes
  import opened Format
  import opened Reading
  import opened Words
  import opened Texts
  import opened Binder
  import opened BinderReading
  import opened BinderWords
  import opened Bnd3
  import opened Bnd3Reading
  import Bnd3Writing

  // ------------------------------------------------------------------ the words

  /** How long an entry is. */
  function EntryLength(format: byte): nat {
    8 + (if Bit(format, 16) then 8 else 4) + (if Bit(format, 2) then 4 else 0)
    + (if Bit(format, 4) || Bit(format, 8) then 4 else 0) + (if Bit(format, 32) then 4 else 0)
  }

  function EntriesEnd(b: Archive): nat {
    32 + EntryLength(b.format) * |b.files|
  }

  /** The byte order of everything behind the first 16 bytes: the lowest bit of the format forces it. */
  predicate Order(b: Archive) {
    b.bigEndian || Bit(b.format, 1)
  }

  /** The version decoded from a field of eight bytes, and behind it the format byte, the byte order and
      the bit order. */
  ghost predicate LeadWords(env: Env, buf: bytes, b: Archive) {
    && |buf| >= 16 && buf[..4] == [0x42, 0x4E, 0x44, 0x33]
    && b.version.Some? && (exists s :: FieldText(buf, 4, 8, s) && env.sjis.decode(s) == Ok(b.version.value))
    && ReadsFormat(buf[12], b.bitBigEndian, b.format)
    && buf[13] == (if b.bigEndian then 1 else 0) && buf[14] == (if b.bitBigEndian then 1 else 0) && buf[15] == 0
  }

  ghost predicate NumberWords(buf: bytes, b: Archive) {
    && |buf| >= 32
    && I32(buf, 16, Order(b)) == |b.files| && (I32(buf, 20, Order(b)) > 0) == b.writeHeadersEnd
    && I32(buf, 24, Order(b)) == b.unk18 && (b.unk18 == 0 || b.unk18 == -0x8000_0000) && I32(buf, 28, Order(b)) == 0
  }

  ghost predicate FileCarried(env: Env, buf: bytes, b: Archive, i: nat) {
    i < |b.files| && File3Words(env, buf, 32 + EntryLength(b.format) * i, Order(b), b.bitBigEndian, b.format, b.files[i])
  }

  ghost predicate Carries(env: Env, buf: bytes, b: Archive) {
    && LeadWords(env, buf, b) && NumberWords(buf, b)
    && forall i :: 0 <= i < |b.files| ==> FileCarried(env, buf, b, i)
  }

  // ------------------------------------------------------------------ reading

  lemma VersionRead(env: Env, buf: bytes, version: bytes)
    ensures GetFixedText(env.sjis, buf, 4, 8) == Ok(version)
       <==> |buf| >= 12 && exists s :: FieldText(buf, 4, 8, s) && env.sjis.decode(s) == Ok(version)
  {
    hide FieldText;
    if |buf| >= 12 {
      var t := buf[4..12];
      ReadField(buf, 4, 8, t[..ZeroFrom(t, 0)]);
      if s :| FieldText(buf, 4, 8, s) && env.sjis.decode(s) == Ok(version) {
        ReadField(buf, 4, 8, s);
      }
    }
  }

  lemma LeadRead(env: Env, buf: bytes, b: Archive)
    requires b.version.Some?
    ensures ParseLead(env, buf) == Ok(Lead(b.version.value, b.format, b.bigEndian, b.bitBigEndian)) <==> LeadWords(env, buf, b)
  {
    hide GetUInt, GetBool, ExpectByte, GetFixedText, FieldText, ReadFormat, ReadsFormat;
    VersionRead(env, buf, b.version.value);
    ReadFlag(buf, 14);
    ReadByte(buf, 12);
    ReadFlag(buf, 13);
    ReadOption(buf, 15, {0});
    if |buf| > 12 {
      FormatIs(buf[12], b.bitBigEndian, b.format);
    }
    assert |buf| >= 4 ==> buf[0..4] == buf[..4];
  }

  lemma NumbersRead(buf: bytes, be: bool, n: Numbers)
    ensures ParseNumbers(buf, be) == Ok(n) <==>
      && |buf| >= 32 && n.count >= 0 && I32(buf, 16, be) == n.count && I32(buf, 20, be) == n.headersEnd
      && I32(buf, 24, be) == n.unk18 && (n.unk18 == 0 || n.unk18 == -0x8000_0000) && I32(buf, 28, be) == 0
  {
    hide GetSInt, I32;
    Read32(buf, 16, be);
    Read32(buf, 20, be);
    Read32(buf, 24, be);
    Read32(buf, 28, be);
  }

  lemma LengthIs(g: Geometry)
    requires !g.v4
    ensures EntrySize(g) == EntryLength(g.format)
  {
    hide Bit;
    Positions(g);
  }

  lemma GeoIs(b: Archive)
    ensures !Geo(b).v4 && Geo(b).be == Order(b) && Geo(b).format == b.format && Geo(b).bitBig == b.bitBigEndian
  {
    FormatBits(b.format);
  }

  lemma FilesCarried(env: Env, buf: bytes, b: Archive)
    ensures (forall i :: 0 <= i < |b.files| ==> FileRead(env, env.sjis, false, buf, EntryPos(Geo(b), HEAD_SIZE, i), Geo(b), b.files[i]))
       <==> forall i :: 0 <= i < |b.files| ==> FileCarried(env, buf, b, i)
  {
    hide FileRead, File3Words, EntryPos, EntrySize, EntryLength, Order, Geo;
    GeoIs(b);
    forall i | 0 <= i < |b.files|
      ensures FileRead(env, env.sjis, false, buf, EntryPos(Geo(b), HEAD_SIZE, i), Geo(b), b.files[i]) <==> FileCarried(env, buf, b, i)
    {
      LengthIs(Geo(b));
      EntriesMultiply(Geo(b), HEAD_SIZE, i);
      File3Read(env, buf, EntryPos(Geo(b), HEAD_SIZE, i), Geo(b), b.files[i]);
    }
  }

  lemma GeoOfLead(b: Archive, l: Lead)
    requires l.format == b.format && l.be == b.bigEndian && l.bitBig == b.bitBigEndian
    ensures GeoOf(l) == Geo(b) && OrderOf(l) == Order(b)
  {
    FormatBits(b.format);
  }

  lemma CarriedIsRead(env: Env, buf: bytes, b: Archive)
    requires Carries(env, buf, b)
    ensures ParseArchive(env, buf) == Ok(b)
  {
    hide ParseLead, ParseNumbers, ParseEntries, ExtractAll, FileCarried, FileRead, FieldText, ReadsFormat, EntrySize, EntryLength, I32, EntryPos, Order,
      Geo, GeoOf, OrderOf;
    var l, n := Lead(b.version.value, b.format, b.bigEndian, b.bitBigEndian), Numbers(|b.files|, I32(buf, 20, Order(b)), b.unk18);
    LeadRead(env, buf, b);
    GeoOfLead(b, l);
    NumbersRead(buf, Order(b), n);
    FilesCarried(env, buf, b);
    BodyRead(env, env.sjis, false, buf, Geo(b), HEAD_SIZE, b.files);
  }

  lemma ReadIsCarried(env: Env, buf: bytes, b: Archive)
    requires ParseArchive(env, buf) == Ok(b)
    ensures Carries(env, buf, b)
  {
    hide ParseLead, ParseNumbers, ParseEntries, ExtractAll, FileCarried, FileRead, FieldText, ReadsFormat, EntrySize, EntryLength, I32, EntryPos, Order,
      Geo, GeoOf, OrderOf, LeadWords;
    var l := ParseLead(env, buf).value;
    var n := ParseNumbers(buf, OrderOf(l)).value;
    LeadRead(env, buf, b);
    GeoOfLead(b, l);
    NumbersRead(buf, Order(b), n);
    FilesCarried(env, buf, b);
    BodyRead(env, env.sjis, false, buf, Geo(b), HEAD_SIZE, b.files);
  }

  /** What is read, to the word: the parser returns an archive exactly for the bytes that carry it. */
  lemma ReadExactly(env: Env, buf: bytes, b: Archive)
    ensures ParseArchive(env, buf) == Ok(b) <==> Carries(env, buf, b)
  {
    hide ParseArchive, Carries;
    if ParseArchive(env, buf) == Ok(b) {
      ReadIsCarried(env, buf, b);
    }
    if Carries(env, buf, b) {
      CarriedIsRead(env, buf, b);
    }
  }

  // ------------------------------------------------------------------ writing

  /** File `i`: the words of its entry, and name and payload where these point. */
  ghost predicate FileWritten(env: Env, buf: bytes, b: Archive, vs: seq<Fields>, i: nat)
    requires |vs| == |b.files|
  {
    i < |b.files|
    && var f, v := b.files[i], vs[i];
       && Entry3Spelled(buf, 32 + EntryLength(b.format) * i, Order(b), b.bitBigEndian, b.format, v)
       && v.flags == f.flags && v.id == f.id && v.uncompressed == |f.data|
       && (Bit(b.format, 4) || Bit(b.format, 8) ==> NameStored(env, buf, v.namePos, false, Order(b), TextOf(f.name)))
       && exists payload :: At(buf, v.dataPos, payload) && |payload| == v.compressed && PayloadIs(env, f, payload)
  }

  ghost predicate VersionWritten(env: Env, buf: bytes, b: Archive) {
    |buf| >= 12 && env.sjis.encode(TextOf(b.version)).Ok?
    && forall k :: 0 <= k < 8 ==>
         var code := env.sjis.encode(TextOf(b.version)).value; buf[4 + k] == if k < |code| then code[k] else 0
  }

  ghost predicate HeadWritten(env: Env, buf: bytes, b: Archive, namesEnd: nat) {
    && |buf| >= 32 && buf[..4] == [0x42, 0x4E, 0x44, 0x33] && VersionWritten(env, buf, b)
    && WritesFormat(b.format, b.bitBigEndian, buf[12])
    && buf[13] == (if b.bigEndian then 1 else 0) && buf[14] == (if b.bitBigEndian then 1 else 0) && buf[15] == 0
    && I32(buf, 16, Order(b)) == |b.files| && I32(buf, 20, Order(b)) == (if b.writeHeadersEnd then namesEnd else 0)
    && I32(buf, 24, Order(b)) == b.unk18 && I32(buf, 28, Order(b)) == 0
  }

  ghost predicate Written(env: Env, buf: bytes, b: Archive, vs: seq<Fields>, namesEnd: nat) {
    && |vs| == |b.files| && HeadWritten(env, buf, b, namesEnd)
    && NamesPacked(env, false, Order(b), b.format, b.files, vs, EntriesEnd(b), namesEnd)
    && (forall i :: 0 <= i < |b.files| ==> FileWritten(env, buf, b, vs, i) && PayloadPacked(buf, b.files, vs, namesEnd, i))
    && |buf| == EndBefore(vs, namesEnd, |vs|)
  }

  /** An archive that can be written, with an image of less than 2^31 bytes. */
  ghost predicate Target(env: Env, b: Archive) {
    && Bnd3Writing.Writable(env, b) && |Image(PlanOf(env, b))| < MAX_SIZE && Fits(b.unk18, 4)
    && forall i :: 0 <= i < |b.files| ==> |b.files[i].data| < MAX_SIZE && Fits(b.files[i].id, 4)
  }

  function AllFields(p: Plan): (vs: seq<Fields>)
    ensures |vs| == |p.files|
  {
    BodyFields(p.files, NameBase(p), NamesEnd(p))
  }

  lemma TargetPieces(env: Env, b: Archive)
    requires Target(env, b)
    ensures var p := PlanOf(env, b);
      && ImageStands(Image(p), p) && p.geo == Geo(b) && p.files == StoreAll(env, NameCodec(env, false, Order(b)), false, b.format, b.files)
      && |p.files| == |b.files| && |Image(p)| < MAX_SIZE && p.bigEndian == b.bigEndian && p.unk18 == b.unk18 && p.writeHeadersEnd == b.writeHeadersEnd
      && env.sjis.encode(TextOf(b.version)).Ok? && p.version == FixedText(env.sjis.encode(TextOf(b.version)).value, 8)
      && BodyStands(Image(p), p.geo, p.files, HEAD_SIZE, NameBase(p), NamesEnd(p)) && NamesEnd(p) <= |Image(p)| && |p.files| <= |Image(p)|
  {
    hide At, Enc, Image, EntryTable, NameTable, DataTable, EntryPos, NamePos, StoreAll, FixedText, Order, Geo;
    var p := PlanOf(env, b);
    ImagePieces(p);
    SizesBound(p, Image(p));
  }

  lemma HeadSpelled(env: Env, b: Archive)
    requires Target(env, b)
    ensures HeadWritten(env, Image(PlanOf(env, b)), b, NamesEnd(PlanOf(env, b)))
  {
    hide At, Enc, Image, I32, NamesEnd, NameBase, WriteFormat, WritesFormat, FixedText, StoreAll, BodyStands, Order, Geo, Fits, VersionWritten, PlanOf;
    var p := PlanOf(env, b);
    var buf, be := Image(p), Order(b);
    TargetPieces(env, b);
    GeoIs(b);
    IdInRange(b.unk18);
    MarkSpelled(buf, b);
    VersionSpelled(env, buf, b);
    Stored32(buf, 16, be, |p.files|);
    Stored32(buf, 20, be, RecordedEnd(p));
    Stored32(buf, 24, be, p.unk18);
    Stored32(buf, 28, be, 0);
  }

  lemma MarkSpelled(buf: bytes, b: Archive)
    requires At(buf, 0, MAGIC) && At(buf, 12, [WriteFormat(b.format, b.bitBigEndian), Bool(b.bigEndian), Bool(b.bitBigEndian), 0])
    ensures |buf| >= 16 && buf[..4] == [0x42, 0x4E, 0x44, 0x33] && WritesFormat(b.format, b.bitBigEndian, buf[12])
    ensures buf[13] == (if b.bigEndian then 1 else 0) && buf[14] == (if b.bitBigEndian then 1 else 0) && buf[15] == 0
  {
    hide WriteFormat, WritesFormat;
    var s: bytes := [WriteFormat(b.format, b.bitBigEndian), Bool(b.bigEndian), Bool(b.bitBigEndian), 0];
    SameBytes(buf, 12, s);
    assert s[0] == buf[12 + 0] && s[1] == buf[12 + 1] && s[2] == buf[12 + 2] && s[3] == buf[12 + 3];
    FormatIs(buf[12], b.bitBigEndian, b.format);
    assert buf[..4] == buf[0..4];
  }

  lemma VersionSpelled(env: Env, buf: bytes, b: Archive)
    requires env.sjis.encode(TextOf(b.version)).Ok? && At(buf, 4, FixedText(env.sjis.encode(TextOf(b.version)).value, 8))
    ensures VersionWritten(env, buf, b)
  {
    SameBytes(buf, 4, FixedText(env.sjis.encode(TextOf(b.version)).value, 8));
  }

  lemma FileReady(env: Env, b: Archive, i: nat)
    requires Target(env, b) && i < |b.files|
    ensures |b.files[i].data| < MAX_SIZE && Fits(b.files[i].id, 4)
    ensures StoreName(NameCodec(env, false, Order(b)), false, b.format, b.files[i]).Ok? && StorePayload(env, b.files[i]).Ok?
  {
    hide StoreName, StorePayload, Image, PlanOf, Fits;
  }

  lemma OneFileWritten(env: Env, b: Archive, i: nat)
    requires Target(env, b) && i < |b.files|
    ensures var p := PlanOf(env, b); |p.files| == |b.files| && FileWritten(env, Image(p), b, AllFields(p), i)
  {
    hide *;
    TargetPieces(env, b);
    FileReady(env, b, i);
    FileAssembled(env, b, PlanOf(env, b), i);
  }

  lemma FileAssembled(env: Env, b: Archive, p: Plan, i: nat)
    requires p.geo == Geo(b) && p.files == StoreAll(env, NameCodec(env, false, Order(b)), false, b.format, b.files)
    requires |p.files| == |b.files| && i < |b.files| && |Image(p)| < MAX_SIZE
    requires BodyStands(Image(p), p.geo, p.files, HEAD_SIZE, NameBase(p), NamesEnd(p))
    requires |b.files[i].data| < MAX_SIZE && Fits(b.files[i].id, 4)
    requires StoreName(NameCodec(env, false, Order(b)), false, b.format, b.files[i]).Ok? && StorePayload(env, b.files[i]).Ok?
    ensures FileWritten(env, Image(p), b, AllFields(p), i)
  {
    hide At, Image, EntryPos, EntrySize, EntryLength, NameCodec, StoreName, StorePayload, BodyStands, StoreAll, Entry3Spelled, NameStored, PayloadIs,
      NameBase, NamesEnd, Bit, Fits, Order, Geo;
    GeoIs(b);
    LengthIs(p.geo);
    EntriesMultiply(p.geo, HEAD_SIZE, i);
    FileSpelled(env, false, Image(p), p.geo, b.files, p.files, HEAD_SIZE, NameBase(p), NamesEnd(p), i);
  }

  lemma NamesArea(p: Plan)
    ensures NamesEnd(p) == NamePos(p.files, NameBase(p), |p.files|) && NameBase(p) == EntryPos(p.geo, 32, |p.files|)
    ensures HEAD_SIZE == 32 && AllFields(p) == BodyFields(p.files, NameBase(p), NamesEnd(p))
  {
    hide NamePos, EntryPos, DataPos, BodyFields;
  }

  lemma EntriesEndIs(b: Archive)
    ensures EntriesEnd(b) == 32 + |b.files| * EntryLength(b.format)
  {
    hide EntryLength;
  }

  lemma NamesSpelled(env: Env, b: Archive)
    requires Target(env, b)
    ensures var p := PlanOf(env, b);
      |p.files| == |b.files| && NamesPacked(env, false, Order(b), b.format, b.files, AllFields(p), EntriesEnd(b), NamesEnd(p))
  {
    hide *;
    var p := PlanOf(env, b);
    TargetPieces(env, b);
    GeoIs(b);
    LengthIs(p.geo);
    EntriesMultiply(p.geo, 32, |b.files|);
    NamesArea(p);
    EntriesEndIs(b);
    forall i | 0 <= i < |b.files|
      ensures StoreName(NameCodec(env, false, Order(b)), false, b.format, b.files[i]).Ok?
    {
      FileReady(env, b, i);
    }
    NamesAssembled(env, false, Order(b), b.format, b.files, p.files, NameBase(p), NamesEnd(p));
  }

  /** What is written, to the byte: head, entries, names and payloads, and how they are packed. */
  lemma WrittenExactly(env: Env, b: Archive)
    requires Target(env, b)
    ensures var p := PlanOf(env, b); |p.files| == |b.files| && Written(env, Image(p), b, AllFields(p), NamesEnd(p))
  {
    hide *;
    var p := PlanOf(env, b);
    TargetPieces(env, b);
    HeadSpelled(env, b);
    NamesSpelled(env, b);
    NamesArea(p);
    EndsSame(p.files, NameBase(p), NamesEnd(p), |p.files|);
    forall i | 0 <= i < |b.files|
      ensures FileWritten(env, Image(p), b, AllFields(p), i) && PayloadPacked(Image(p), b.files, AllFields(p), NamesEnd(p), i)
    {
      OneFileWritten(env, b, i);
      PayloadAssembled(env, NameCodec(env, false, Order(b)), false, b.format, Image(p), p.geo, b.files, p.files, HEAD_SIZE, NameBase(p), NamesEnd(p), i);
    }
    ImageLength(Image(p), p);
    WrittenParts(env, Image(p), b, AllFields(p), NamesEnd(p));
  }

  lemma ImageLength(buf: bytes, p: Plan)
    requires ImageStands(buf, p)
    ensures |buf| == DataEnd(p.files, NamesEnd(p), |p.files|)
  {
    hide At, Enc, BodyStands, DataEnd, NamesEnd;
  }

  lemma WrittenParts(env: Env, buf: bytes, b: Archive, vs: seq<Fields>, namesEnd: nat)
    requires |vs| == |b.files| && HeadWritten(env, buf, b, namesEnd)
    requires NamesPacked(env, false, Order(b), b.format, b.files, vs, EntriesEnd(b), namesEnd)
    requires forall i :: 0 <= i < |b.files| ==> FileWritten(env, buf, b, vs, i) && PayloadPacked(buf, b.files, vs, namesEnd, i)
    requires |buf| == EndBefore(vs, namesEnd, |vs|)
    ensures Written(env, buf, b, vs, namesEnd)
  {
    hide HeadWritten, NamesPacked, FileWritten, PayloadPacked, EndBefore, EntriesEnd, Order;
  }

  /** What can be written: texts that can be encoded, and payloads that can be compressed. */
  lemma WritableMeans(env: Env, b: Archive)
    ensures Bnd3Writing.Writable(env, b) <==>
      && env.sjis.encode(TextOf(b.version)).Ok?
      && forall i :: 0 <= i < |b.files| ==> FileWritable(env, false, Order(b), b.format, b.files[i])
  {
    hide StoreName, StorePayload, FileWritable, Order;
    forall i | 0 <= i < |b.files|
      ensures FileWritable(env, false, Order(b), b.format, b.files[i])
         <==> StoreName(env.sjis, false, b.format, b.files[i]).Ok? && StorePayload(env, b.files[i]).Ok?
    {
      FileWritableIs(env, false, Order(b), b.format, b.files[i]);
    }
  }
}
