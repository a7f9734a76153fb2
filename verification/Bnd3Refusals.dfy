/** Which error a BND3 archive is refused with: the first in the order in which it is read. */
module Bnd3Refusals {
  import opened Bytes
  import opened Format
  import opened Reading
  import opened Words
  import opened Texts
  import opened Refusals
  import opened Binder
  import opened BinderReading
  import opened BinderWords
  import opened BinderRefusals
  import opened Bnd3
  import opened Bnd3Reading
  import Bnd3Writing
  import Bnd3Words

  // ------------------------------------------------------------------ the errors

  /** The bit order is looked up at byte 14 before what stands in front of it; a buffer that ends earlier is
      out of range rather than truncated. */
  ghost function LeadError(env: Env, buf: bytes): (e: Option<Error>)
    ensures e.None? ==> |buf| >= 16
  {
    if |buf| >= 4 && buf[..4] != [0x42, 0x4E, 0x44, 0x33] then Some(BadMagic)
    else if FieldError(env.sjis.decode, buf, 4, 8).Some? then FieldError(env.sjis.decode, buf, 4, 8)
    else if |buf| < 14 then Some(OutOfRange)
    else if |buf| == 14 then Some(Truncated)
    else if buf[13] > 1 || buf[14] > 1 then Some(BadMagic)
    else if |buf| == 15 then Some(Truncated)
    else if buf[15] != 0 then Some(BadMagic)
    else None
  }

  ghost function NumbersError(buf: bytes, be: bool): (e: Option<Error>)
    ensures e.None? ==> |buf| >= 32 && I32(buf, 16, be) >= 0
  {
    if |buf| < 28 then Some(Truncated)
    else if I32(buf, 24, be) != 0 && I32(buf, 24, be) != -0x8000_0000 then Some(BadMagic)
    else if |buf| < 32 then Some(Truncated)
    else if I32(buf, 28, be) != 0 then Some(BadMagic)
    else if I32(buf, 16, be) < 0 then Some(OutOfRange)
    else None
  }

  /** Where entry `i` begins. */
  function EntryAt(format: byte, i: nat): nat {
    32 + Bnd3Words.EntryLength(format) * i
  }

  ghost function FilesError(env: Env, buf: bytes, n: nat, be: bool, bitBig: bool, format: byte): Option<Error> {
    BodyError(seq(n, i requires 0 <= i < n => Entry3Error(env, buf, EntryAt(format, i), be, format)),
              seq(n, i requires 0 <= i < n => Payload3Error(env, buf, EntryAt(format, i), be, bitBig, format)))
  }

  ghost function ArchiveError(env: Env, buf: bytes, format: byte): Option<Error> {
    if LeadError(env, buf).Some? then LeadError(env, buf)
    else
      var be := buf[13] == 1 || Bit(format, 1);
      if NumbersError(buf, be).Some? then NumbersError(buf, be)
      else FilesError(env, buf, I32(buf, 16, be), be, buf[14] == 1, format)
  }

  // ------------------------------------------------------------------ reading

  lemma ShortField(decode: bytes -> Result<bytes>, buf: bytes)
    ensures |buf| < 12 ==> FieldError(decode, buf, 4, 8) == Some(Truncated)
  {
  }

  lemma LeadRefused(env: Env, buf: bytes)
    ensures ErrorOf(ParseLead(env, buf)) == LeadError(env, buf)
    ensures ParseLead(env, buf).Ok? ==>
      && |buf| >= 16
      && var l := ParseLead(env, buf).value; l.format == ReadFormat(buf[12], buf[14] == 1) && l.be == (buf[13] == 1) && l.bitBig == (buf[14] == 1)
  {
    hide GetUInt, GetBool, ExpectByte, GetFixedText, FieldError, ReadFormat;
    FieldRefused(env.sjis, buf, 4, 8);
    ShortField(env.sjis.decode, buf);
    ReadFlag(buf, 14);
    ReadByte(buf, 12);
    ReadFlag(buf, 13);
    ReadOption(buf, 15, {0});
    assert |buf| >= 4 ==> buf[0..4] == buf[..4];
  }

  lemma NumbersRefused(buf: bytes, be: bool)
    ensures ErrorOf(ParseNumbers(buf, be)) == NumbersError(buf, be)
    ensures ParseNumbers(buf, be).Ok? ==> |buf| >= 32 && ParseNumbers(buf, be).value.count == I32(buf, 16, be)
  {
    hide GetSInt, I32;
    Read32(buf, 16, be);
    Read32(buf, 20, be);
    Read32(buf, 24, be);
    Read32(buf, 28, be);
  }

  /** A BND3 archive is refused with this error, or read if there is none. */
  lemma RefusedWith(env: Env, buf: bytes, format: byte)
    requires |buf| > 14 ==> ReadsFormat(buf[12], buf[14] == 1, format)
    ensures ErrorOf(ParseArchive(env, buf)) == ArchiveError(env, buf, format)
  {
    hide ParseLead, LeadError, ParseNumbers, NumbersError, ParseEntries, ExtractAll, BodyError, Entry3Error, Payload3Error, ReadFormat, ReadsFormat,
      EntryPos, EntrySize, I32, Bit, Bnd3Words.EntryLength;
    LeadRefused(env, buf);
    var lead := ParseLead(env, buf);
    if lead.Ok? {
      FormatIs(buf[12], buf[14] == 1, format);
      FormatBits(format);
      var g := Geometry(false, format, buf[14] == 1, buf[13] == 1 || Bit(format, 1));
      assert GeoOf(lead.value) == g;
      NumbersRefused(buf, g.be);
      if ParseNumbers(buf, g.be).Ok? {
        var n := I32(buf, 16, g.be);
        var entries := seq(n, i requires 0 <= i < n => Entry3Error(env, buf, EntryAt(format, i), g.be, format));
        var payloads := seq(n, i requires 0 <= i < n => Payload3Error(env, buf, EntryAt(format, i), g.be, g.bitBig, format));
        forall i: nat | i < n
          ensures EntryPos(g, HEAD_SIZE, i) == EntryAt(format, i)
        {
          Bnd3Words.LengthIs(g);
          EntriesMultiply(g, HEAD_SIZE, i);
        }
        Body3Refused(env, buf, g, HEAD_SIZE, entries, payloads);
      }
    }
  }

  // ------------------------------------------------------------------ writing

  /** What stops the writer: a version that cannot be encoded, then a name, then a payload that cannot be
      compressed. */
  ghost predicate StoppedWith(env: Env, b: Archive, e: Error) {
    if env.sjis.encode(TextOf(b.version)).Err? then env.sjis.encode(TextOf(b.version)) == Err(e)
    else if !NamesGo(env, false, false, b.format, b.files, |b.files|) then NameStops(env, false, false, b.format, b.files, e)
    else PayloadStops(env, b.files, e)
  }

  lemma StoppedIs(env: Env, b: Archive, e: Error)
    ensures Bnd3Writing.Fails(env, b, e) <==> StoppedWith(env, b, e)
  {
    hide NameStops, NamesGo, PayloadStops, PayloadsGo, BinderWriting.NamesFail, BinderWriting.NamesOk, BinderWriting.PayloadsFail,
      BinderWriting.PayloadsOk;
    NameStopsIs(env, false, false, b.format, b.files, e);
    GoesOrStops(env, b, e);
    PayloadStopsIs(env, b.files, e);
  }

  lemma GoesOrStops(env: Env, b: Archive, e: Error)
    ensures NameStops(env, false, false, b.format, b.files, e) ==> !NamesGo(env, false, false, b.format, b.files, |b.files|)
  {
    hide NameCode, Bit;
  }
}
