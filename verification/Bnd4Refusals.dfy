/** Which error a BND4 archive is refused with: the first in the order in which it is read. */
module Bnd4Refusals {
  import opened Bytes
  import opened Format
  import opened Reading
  import opened Words
  import opened Texts
  import opened Refusals
  import opened Binder
  import opened BinderReading
  import opened BinderWords
  import opened BinderRefusals
  import opened Bnd4
  import opened Bnd4Reading
  import opened PathHashing
  import Bnd4Writing
  import Bnd4Words

  // ------------------------------------------------------------------ the errors

  /** One of the first twelve bytes is there and wrong. */
  ghost predicate BadMark(buf: bytes) {
    || (4 <= |buf| && buf[..4] != [0x42, 0x4E, 0x44, 0x34])
    || (4 < |buf| && buf[4] > 1) || (5 < |buf| && buf[5] > 1) || (6 < |buf| && buf[6] != 0) || (7 < |buf| && buf[7] != 0)
    || (8 < |buf| && buf[8] != 0) || (9 < |buf| && buf[9] > 1) || (10 < |buf| && buf[10] > 1) || (11 < |buf| && buf[11] != 0)
  }

  ghost predicate BadShape(buf: bytes, be: bool) {
    || (48 < |buf| && buf[48] > 1)
    || (50 < |buf| && buf[50] != 0 && buf[50] != 1 && buf[50] != 4 && buf[50] != 0x80)
    || (51 < |buf| && buf[51] != 0) || (56 <= |buf| && I32(buf, 52, be) != 0)
  }

  /** An index must be pointed to, and have its four marks; without one the offset must be zero. */
  ghost function TableError(buf: bytes, be: bool): Option<Error>
    requires |buf| >= 64
  {
    var at := I64(buf, 56, be);
    if buf[50] != 4 then (if at != 0 then Some(BadMagic) else None)
    else if at < 0 then Some(InvalidArg)
    else if at > |buf| then Some(OutOfRange)
    else if (at + 12 < |buf| && buf[at + 12] != 0x10) || (at + 13 < |buf| && buf[at + 13] != 8)
         || (at + 14 < |buf| && buf[at + 14] != 8) || (at + 15 < |buf| && buf[at + 15] != 0) then Some(BadMagic)
    else if at + 16 > |buf| then Some(Truncated)
    else None
  }

  ghost function HeadError(env: Env, buf: bytes, format: byte): (e: Option<Error>)
    ensures e.None? ==> |buf| >= 64 && I32(buf, 12, buf[9] == 1) >= 0
  {
    if BadMark(buf) then Some(BadMagic)
    else if |buf| < 16 then Some(Truncated)
    else
      var be := buf[9] == 1;
      if |buf| >= 24 && I64(buf, 16, be) != 0x40 then Some(BadMagic)
      else if FieldError(env.sjis.decode, buf, 24, 8).Some? then FieldError(env.sjis.decode, buf, 24, 8)
      else if BadShape(buf, be) then Some(BadMagic)
      else if |buf| < 64 then Some(Truncated)
      else if TableError(buf, be).Some? then TableError(buf, be)
      else if I64(buf, 32, be) != Bnd4Words.EntryLength(format) then Some(BadMagic)
      else if I32(buf, 12, be) < 0 then Some(OutOfRange)
      else None
  }

  /** Where entry `i` begins. */
  function EntryAt(format: byte, i: nat): nat {
    64 + Bnd4Words.EntryLength(format) * i
  }

  ghost function FilesError(env: Env, buf: bytes, n: nat, be: bool, bitBig: bool, unicode: bool, format: byte): Option<Error> {
    BodyError(seq(n, i requires 0 <= i < n => Entry4Error(env, buf, EntryAt(format, i), be, unicode, format)),
              seq(n, i requires 0 <= i < n => Payload4Error(env, buf, EntryAt(format, i), be, bitBig, format)))
  }

  ghost function ArchiveError(env: Env, buf: bytes, format: byte): Option<Error> {
    if HeadError(env, buf, format).Some? then HeadError(env, buf, format)
    else FilesError(env, buf, I32(buf, 12, buf[9] == 1), buf[9] == 1, buf[10] == 0, buf[48] == 1, format)
  }

  // ------------------------------------------------------------------ reading

  lemma MarkRefused(buf: bytes)
    ensures ErrorOf(ParseFlags(buf)) == if BadMark(buf) then Some(BadMagic) else if |buf| < 12 then Some(Truncated) else None
    ensures ParseFlags(buf).Ok? ==>
      |buf| >= 12 && ParseFlags(buf).value == Flags(buf[4] == 1, buf[5] == 1, buf[9] == 1, buf[10] == 0)
  {
    hide GetUInt, GetBool, ExpectByte;
    ReadFlag(buf, 4);
    ReadFlag(buf, 5);
    ReadOption(buf, 6, {0});
    ReadOption(buf, 7, {0});
    ReadOption(buf, 8, {0});
    ReadFlag(buf, 9);
    ReadFlag(buf, 10);
    ReadOption(buf, 11, {0});
    assert |buf| >= 4 ==> buf[0..4] == buf[..4];
  }

  lemma SizesRefused(env: Env, buf: bytes, be: bool)
    ensures ErrorOf(ParseSizes(env, buf, be))
         == if |buf| < 16 then Some(Truncated)
            else if |buf| >= 24 && I64(buf, 16, be) != 0x40 then Some(BadMagic)
            else if FieldError(env.sjis.decode, buf, 24, 8).Some? then FieldError(env.sjis.decode, buf, 24, 8)
            else if |buf| < 40 then Some(Truncated)
            else None
    ensures ParseSizes(env, buf, be).Ok? ==>
      |buf| >= 40 && ParseSizes(env, buf, be).value.count == I32(buf, 12, be) && ParseSizes(env, buf, be).value.entrySize == I64(buf, 32, be)
  {
    hide GetSInt, GetFixedText, I32, I64, FieldError;
    Read32(buf, 12, be);
    Read64(buf, 16, be);
    FieldRefused(env.sjis, buf, 24, 8);
    ShortField(env.sjis.decode, buf);
    Read64(buf, 32, be);
  }

  lemma ShortField(decode: bytes -> Result<bytes>, buf: bytes)
    ensures |buf| < 32 ==> FieldError(decode, buf, 24, 8) == Some(Truncated)
  {
  }

  lemma ShapeRefused(buf: bytes, be: bool, bitBig: bool)
    ensures ErrorOf(ParseShape(buf, be, bitBig)) == if BadShape(buf, be) then Some(BadMagic) else if |buf| < 56 then Some(Truncated) else None
    ensures ParseShape(buf, be, bitBig).Ok? ==>
      |buf| >= 56 && ParseShape(buf, be, bitBig).value == Shape(buf[48] == 1, ReadFormat(buf[49], bitBig), buf[50])
  {
    hide GetUInt, GetSInt, GetBool, ExpectByte, I32, I64, ReadFormat, Dec;
    Read64(buf, 40, be);
    ReadFlag(buf, 48);
    ReadByte(buf, 49);
    ReadOption(buf, 50, EXTENDED_OPTIONS);
    ReadOption(buf, 51, {0});
    Read32(buf, 52, be);
  }

  lemma TableRefused(buf: bytes, be: bool)
    requires |buf| >= 56
    ensures ErrorOf(CheckTable(buf, be, buf[50])) == if |buf| < 64 then Some(Truncated) else TableError(buf, be)
  {
    hide GetUInt, GetSInt, ExpectByte, I32, I64;
    Read64(buf, 56, be);
    if |buf| >= 64 && 0 <= I64(buf, 56, be) {
      var at: nat := I64(buf, 56, be);
      Read64(buf, at, be);
      Read32(buf, at + 8, be);
      ReadOption(buf, at + 12, {0x10});
      ReadOption(buf, at + 13, {0x08});
      ReadOption(buf, at + 14, {0x08});
      ReadOption(buf, at + 15, {0x00});
    }
  }

  lemma ShapeLater(buf: bytes)
    ensures forall be :: |buf| <= 48 ==> !BadShape(buf, be)
  {
  }

  lemma HeadRefused(env: Env, buf: bytes, format: byte)
    requires |buf| > 49 ==> ReadsFormat(buf[49], buf[10] == 0, format)
    ensures ErrorOf(ParseHeader(env, buf)) == HeadError(env, buf, format)
    ensures ParseHeader(env, buf).Ok? ==>
      && |buf| >= 64
      && var h := ParseHeader(env, buf).value;
         GeoOf(h) == Geometry(true, format, buf[10] == 0, buf[9] == 1) && h.shape.unicode == (buf[48] == 1) && h.sizes.count == I32(buf, 12, buf[9] == 1)
  {
    hide ParseFlags, ParseSizes, ParseShape, CheckTable, BadMark, BadShape, TableError, FieldError, I32, I64, ReadFormat, ReadsFormat, EntrySize,
      Bnd4Words.EntryLength;
    MarkRefused(buf);
    ShapeLater(buf);
    if |buf| >= 12 {
      var be := buf[9] == 1;
      SizesRefused(env, buf, be);
      ShortField(env.sjis.decode, buf);
      ShapeRefused(buf, be, buf[10] == 0);
      if |buf| >= 56 {
        TableRefused(buf, be);
        FormatIs(buf[49], buf[10] == 0, format);
        Bnd4Words.LengthIs(Geometry(true, format, buf[10] == 0, be));
      }
    }
  }

  /** A BND4 archive is refused with this error, or read if there is none. */
  lemma RefusedWith(env: Env, buf: bytes, format: byte)
    requires |buf| > 49 ==> ReadsFormat(buf[49], buf[10] == 0, format)
    ensures ErrorOf(ParseArchive(env, buf)) == ArchiveError(env, buf, format)
  {
    hide ParseHeader, HeadError, ParseEntries, ExtractAll, BodyError, Entry4Error, Payload4Error, ReadsFormat, EntryPos, EntrySize, I32,
      Bnd4Words.EntryLength, NameCodec;
    HeadRefused(env, buf, format);
    if ParseHeader(env, buf).Ok? {
      var g := Geometry(true, format, buf[10] == 0, buf[9] == 1);
      var n, unicode := I32(buf, 12, g.be), buf[48] == 1;
      var entries := seq(n, i requires 0 <= i < n => Entry4Error(env, buf, EntryAt(format, i), g.be, unicode, format));
      var payloads := seq(n, i requires 0 <= i < n => Payload4Error(env, buf, EntryAt(format, i), g.be, g.bitBig, format));
      forall i: nat | i < n
        ensures EntryPos(g, HEAD_SIZE, i) == EntryAt(format, i)
      {
        Bnd4Words.LengthIs(g);
        EntriesMultiply(g, HEAD_SIZE, i);
      }
      Body4Refused(env, unicode, buf, g, HEAD_SIZE, entries, payloads);
    }
  }

  // ------------------------------------------------------------------ writing

  /** What stops the writer: a version that cannot be encoded, then a name, then an index for 699944 files or
      more, then a payload that cannot be compressed. */
  ghost predicate StoppedWith(env: Env, b: Archive, e: Error) {
    if env.sjis.encode(TextOf(b.version)).Err? then env.sjis.encode(TextOf(b.version)) == Err(e)
    else if !NamesGo(env, b.unicode, b.bigEndian, b.format, b.files, |b.files|) then NameStops(env, b.unicode, b.bigEndian, b.format, b.files, e)
    else if b.extended == 4 && |b.files| >= 699944 then e == Internal
    else PayloadStops(env, b.files, e)
  }

  lemma StoppedIs(env: Env, b: Archive, e: Error)
    requires |b.files| < MAX_SIZE
    ensures Bnd4Writing.Fails(env, b, e) <==> StoppedWith(env, b, e)
  {
    hide LeastPrimeFrom, SearchStart, NameStops, NamesGo, PayloadStops, PayloadsGo, BinderWriting.NamesFail, BinderWriting.NamesOk,
      BinderWriting.PayloadsFail, BinderWriting.PayloadsOk, NameCodec;
    NameStopsIs(env, b.unicode, b.bigEndian, b.format, b.files, e);
    GoesOrStops(env, b, e);
    PayloadStopsIs(env, b.files, e);
    var start := SearchStart(|b.files|);
    var g := Bnd4Writing.GroupCountExists(start, start);
    Bnd4Writing.ZeroIsAnswer(g, start);
    GroupCountZero(g, |b.files|);
  }

  lemma GoesOrStops(env: Env, b: Archive, e: Error)
    ensures NameStops(env, b.unicode, b.bigEndian, b.format, b.files, e) ==> !NamesGo(env, b.unicode, b.bigEndian, b.format, b.files, |b.files|)
  {
    hide NameCode, Bit;
  }
}
