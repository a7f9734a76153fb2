/** Which error the entries and payloads of a BND3 or BND4 archive are refused with. */
module BinderRefusals {
  import opened Bytes
  import opened Format
  import opened Reading
  import opened Words
  import opened Texts
  import opened Refusals
  import opened Binder
  import opened BinderReading
  import opened BinderWriting
  import opened BinderWords

  // ------------------------------------------------------------------ the errors

  /** One of the three bytes behind the flags is there and not zero. */
  ghost predicate BadFlags(buf: bytes, pos: nat) {
    (pos + 1 < |buf| && buf[pos + 1] != 0) || (pos + 2 < |buf| && buf[pos + 2] != 0) || (pos + 3 < |buf| && buf[pos + 3] != 0)
  }

  ghost function NameError(env: Env, unicode: bool, be: bool, buf: bytes, at: int): Option<Error> {
    if !unicode then TextError(env.sjis.decode, false, buf, at)
    else if be then TextError(env.utf16be.decode, true, buf, at)
    else TextError(env.utf16le.decode, true, buf, at)
  }

  /** In BND4: what stands in front of the name must be there, with its zeros and the -1; then come the
      name, and for names alone the id and zero. */
  ghost function Entry4Error(env: Env, buf: bytes, pos: nat, be: bool, unicode: bool, format: byte): Option<Error> {
    var dataAt := pos + if Bit(format, 32) then 24 else 16;
    var idAt := dataAt + if Bit(format, 16) then 8 else 4;
    var nameAt := idAt + if Bit(format, 2) then 4 else 0;
    var tail := nameAt + if Bit(format, 4) || Bit(format, 8) then 4 else 0;
    if BadFlags(buf, pos) || (pos + 8 <= |buf| && I32(buf, pos + 4, be) != -1) then Some(BadMagic)
    else if tail > |buf| then Some(Truncated)
    else if tail > nameAt && NameError(env, unicode, be, buf, U32(buf, nameAt, be)).Some? then
      NameError(env, unicode, be, buf, U32(buf, nameAt, be))
    else if format != 4 then None
    else if tail + 8 > |buf| then Some(Truncated)
    else if I32(buf, tail + 4, be) != 0 then Some(BadMagic)
    else None
  }

  /** In BND3 the name comes last but for a size; its offset may be negative. */
  ghost function Entry3Error(env: Env, buf: bytes, pos: nat, be: bool, format: byte): Option<Error> {
    var idAt := pos + if Bit(format, 16) then 16 else 12;
    var nameAt := idAt + if Bit(format, 2) then 4 else 0;
    var tail := nameAt + if Bit(format, 4) || Bit(format, 8) then 4 else 0;
    if BadFlags(buf, pos) then Some(BadMagic)
    else if tail > |buf| then Some(Truncated)
    else if tail > nameAt && TextError(env.sjis.decode, false, buf, I32(buf, nameAt, be)).Some? then
      TextError(env.sjis.decode, false, buf, I32(buf, nameAt, be))
    else if Bit(format, 32) && tail + 4 > |buf| then Some(Truncated)
    else None
  }

  /** A payload that is not in the buffer or cannot be decompressed. */
  ghost function PayloadError(env: Env, buf: bytes, size: nat, at: int, packed: bool): Option<Error> {
    if DataError(buf, at, size).Some? then DataError(buf, at, size)
    else if packed then ErrorOf(env.decompress(if size > 0 then buf[at..at + size] else []))
    else None
  }

  /** The payload that an entry of BND4 asks for. */
  ghost function Payload4Error(env: Env, buf: bytes, pos: nat, be: bool, bitBig: bool, format: byte): Option<Error> {
    var at := pos + if Bit(format, 32) then 24 else 16;
    if at + 8 > |buf| && (Bit(format, 16) || at + 4 > |buf|) then None
    else
      PayloadError(env, buf, U64(buf, pos + 8, be), if Bit(format, 16) then I64(buf, at, be) else U32(buf, at, be),
                   Bit(buf[pos], if bitBig then 1 else 128))
  }

  ghost function Payload3Error(env: Env, buf: bytes, pos: nat, be: bool, bitBig: bool, format: byte): Option<Error> {
    var at := pos + 8;
    if at + 8 > |buf| && (Bit(format, 16) || at + 4 > |buf|) then None
    else
      PayloadError(env, buf, U32(buf, pos + 4, be), if Bit(format, 16) then I64(buf, at, be) else U32(buf, at, be),
                   Bit(buf[pos], if bitBig then 1 else 128))
  }

  // ------------------------------------------------------------------ entries

  lemma FlagsRefused(buf: bytes, pos: nat, g: Geometry)
    ensures ErrorOf(GetEntryFlags(buf, pos, g))
         == if BadFlags(buf, pos) || (g.v4 && pos + 8 <= |buf| && I32(buf, pos + 4, g.be) != -1) then Some(BadMagic)
            else if pos + (if g.v4 then 8 else 4) > |buf| then Some(Truncated)
            else None
  {
    hide GetUInt, GetSInt, ExpectByte, I32, ReadFlags;
    ReadByte(buf, pos);
    ReadOption(buf, pos + 1, {0});
    ReadOption(buf, pos + 2, {0});
    ReadOption(buf, pos + 3, {0});
    Read32(buf, pos + 4, g.be);
  }

  lemma NameRefused(env: Env, unicode: bool, be: bool, buf: bytes, at: int)
    ensures ErrorOf(GetText(NameCodec(env, unicode, be), unicode, buf, at)) == NameError(env, unicode, be, buf, at)
  {
    hide GetText, TextError;
    TextRefused(NameCodec(env, unicode, be), unicode, buf, at);
  }

  lemma FieldRefusals(buf: bytes, pos: nat, g: Geometry)
    ensures ErrorOf(GetOffset(buf, pos, g)) == if pos + (if HasLongOffsets(g.format) then 8 else 4) > |buf| then Some(Truncated) else None
    ensures ErrorOf(GetId(buf, pos, g)) == if HasIds(g.format) && pos + 4 > |buf| then Some(Truncated) else None
    ensures forall c :: ErrorOf(GetSizeIf(c, buf, pos, g)) == if c && pos + (if g.v4 then 8 else 4) > |buf| then Some(Truncated) else None
  {
  }

  lemma EntryNameRefused(env: Env, unicode: bool, buf: bytes, pos: nat, g: Geometry)
    requires !g.v4 ==> !unicode
    ensures ErrorOf(GetEntryName(NameCodec(env, unicode, g.be), unicode, buf, pos, g))
         == if !HasNames(g.format) then None
            else if pos + 4 > |buf| then Some(Truncated)
            else NameError(env, unicode, g.be, buf, if g.v4 then U32(buf, pos, g.be) else I32(buf, pos, g.be))
  {
    hide GetUInt, GetSInt, U32, I32, GetText, NameError, HasNames, NameCodec;
    Read32(buf, pos, g.be);
    if pos + 4 <= |buf| {
      NameRefused(env, unicode, g.be, buf, if g.v4 then U32(buf, pos, g.be) else I32(buf, pos, g.be));
    }
  }

  lemma TailRefused(buf: bytes, tail: nat, g: Geometry, id: int)
    ensures ErrorOf(GetTailId(buf, tail, g, id))
         == if g.format != 4 then None else if tail + 8 > |buf| then Some(Truncated) else if I32(buf, tail + 4, g.be) != 0 then Some(BadMagic) else None
  {
    hide GetSInt, I32;
    Read32(buf, tail, g.be);
    Read32(buf, tail + 4, g.be);
  }

  lemma FrontRefused(buf: bytes, pos: nat, g: Geometry)
    requires g.v4
    ensures ErrorOf(ParseFront(buf, pos, g))
         == if BadFlags(buf, pos) || (pos + 8 <= |buf| && I32(buf, pos + 4, g.be) != -1) then Some(BadMagic)
            else if pos + NameAt(g) > |buf| then Some(Truncated)
            else None
  {
    hide I32, GetEntryFlags, GetOffset, GetId, GetSizeIf, BadFlags, HasIds, HasNames, HasLongOffsets, HasCompression, Bit, DataAt, IdAt, NameAt, Dec;
    FormatBits(g.format);
    Positions(g);
    FlagsRefused(buf, pos, g);
    FieldRefusals(buf, pos + 16, g);
    FieldRefusals(buf, pos + DataAt(g), g);
    FieldRefusals(buf, pos + IdAt(g), g);
  }

  lemma Entry4Refused(env: Env, unicode: bool, buf: bytes, pos: nat, g: Geometry)
    requires g.v4
    ensures ErrorOf(ParseEntry(NameCodec(env, unicode, g.be), unicode, buf, pos, g)) == Entry4Error(env, buf, pos, g.be, unicode, g.format)
  {
    hide I32, U32, ParseEntry, ParseFront, GetEntryName, GetTailId, BadFlags, NameError, HasIds, HasNames, Bit, NameCodec, DataAt, IdAt, NameAt, TailAt;
    FormatBits(g.format);
    Positions(g);
    EntrySplits(NameCodec(env, unicode, g.be), unicode, buf, pos, g);
    FrontRefused(buf, pos, g);
    EntryNameRefused(env, unicode, buf, pos + NameAt(g), g);
    var front := ParseFront(buf, pos, g);
    TailRefused(buf, pos + TailAt(g), g, if front.Ok? then front.value.id else 0);
  }

  lemma Entry3Refused(env: Env, buf: bytes, pos: nat, g: Geometry)
    requires !g.v4
    ensures ErrorOf(ParseEntry(env.sjis, false, buf, pos, g)) == Entry3Error(env, buf, pos, g.be, g.format)
  {
    hide I32, U32, GetEntryFlags, GetEntryName, GetOffset, GetId, GetSizeIf, BadFlags, TextError, HasIds, HasNames, HasLongOffsets, HasCompression, Bit,
      DataAt, IdAt, NameAt, TailAt, Dec;
    FormatBits(g.format);
    Positions(g);
    FlagsRefused(buf, pos, g);
    FieldRefusals(buf, pos + 8, g);
    FieldRefusals(buf, pos + IdAt(g), g);
    EntryNameRefused(env, false, buf, pos + NameAt(g), g);
    FieldRefusals(buf, pos + TailAt(g), g);
  }

  lemma PayloadRefused(env: Env, buf: bytes, h: FileHeader)
    ensures ErrorOf(ExtractData(env, buf, h)) == PayloadError(env, buf, h.compressed, h.dataPos, Bit(h.flags, 1))
  {
  }

  lemma Payload4Refused(env: Env, unicode: bool, buf: bytes, pos: nat, g: Geometry, h: FileHeader)
    requires g.v4 && ParseEntry(NameCodec(env, unicode, g.be), unicode, buf, pos, g) == Ok(h)
    ensures ErrorOf(ExtractData(env, buf, h)) == Payload4Error(env, buf, pos, g.be, g.bitBig, g.format)
  {
    hide ParseEntry, ExtractData, PayloadError, U64, I64, U32, I32, NameFound, Bit, NameCodec;
    Entry4Read(env, unicode, buf, pos, g, h);
    PayloadRefused(env, buf, h);
  }

  lemma Payload3Refused(env: Env, buf: bytes, pos: nat, g: Geometry, h: FileHeader)
    requires !g.v4 && ParseEntry(env.sjis, false, buf, pos, g) == Ok(h)
    ensures ErrorOf(ExtractData(env, buf, h)) == Payload3Error(env, buf, pos, g.be, g.bitBig, g.format)
  {
    hide ParseEntry, ExtractData, PayloadError, U64, I64, U32, I32, NameFound, Bit;
    Entry3Read(env, buf, pos, g, h);
    PayloadRefused(env, buf, h);
  }

  // ------------------------------------------------------------------ all of them

  lemma {:induction false} EntriesRefused(c: Codec, wide: bool, buf: bytes, g: Geometry, base: nat, errors: seq<Option<Error>>)
    requires forall i :: 0 <= i < |errors| ==> errors[i] == ErrorOf(ParseEntry(c, wide, buf, EntryPos(g, base, i), g))
    ensures ErrorOf(ParseEntries(c, wide, buf, g, base, |errors|)) == FirstOf(errors)
    decreases |errors|
  {
    hide ParseEntry, EntryPos, FirstOf;
    FirstNone(errors);
    var n := |errors|;
    if n > 0 {
      EntriesRefused(c, wide, buf, g, base, errors[..n - 1]);
      FirstStep(errors[..n - 1], errors[n - 1]);
      assert errors == errors[..n - 1] + [errors[n - 1]];
    }
  }

  lemma {:induction false} PayloadsRefused(env: Env, buf: bytes, hs: seq<FileHeader>, errors: seq<Option<Error>>)
    requires |errors| <= |hs| && forall i :: 0 <= i < |errors| ==> errors[i] == ErrorOf(ExtractData(env, buf, hs[i]))
    ensures ErrorOf(ExtractAll(env, buf, hs, |errors|)) == FirstOf(errors)
    decreases |errors|
  {
    hide ExtractData, FirstOf;
    FirstNone(errors);
    var n := |errors|;
    if n > 0 {
      PayloadsRefused(env, buf, hs, errors[..n - 1]);
      FirstStep(errors[..n - 1], errors[n - 1]);
      assert errors == errors[..n - 1] + [errors[n - 1]];
    }
  }

  lemma Body4Refused(env: Env, unicode: bool, buf: bytes, g: Geometry, base: nat, entries: seq<Option<Error>>, payloads: seq<Option<Error>>)
    requires g.v4 && |entries| == |payloads|
    requires forall i :: 0 <= i < |entries| ==> entries[i] == Entry4Error(env, buf, EntryPos(g, base, i), g.be, unicode, g.format)
    requires forall i :: 0 <= i < |entries| ==> payloads[i] == Payload4Error(env, buf, EntryPos(g, base, i), g.be, g.bitBig, g.format)
    ensures var c := NameCodec(env, unicode, g.be);
      ErrorOf((var hs :- ParseEntries(c, unicode, buf, g, base, |entries|); ExtractAll(env, buf, hs, |entries|))) == BodyError(entries, payloads)
  {
    hide ParseEntry, ExtractData, ParseEntries, ExtractAll, FirstOf, Entry4Error, Payload4Error, EntryPos, NameCodec;
    var c, n := NameCodec(env, unicode, g.be), |entries|;
    forall i | 0 <= i < n
      ensures entries[i] == ErrorOf(ParseEntry(c, unicode, buf, EntryPos(g, base, i), g))
    {
      Entry4Refused(env, unicode, buf, EntryPos(g, base, i), g);
    }
    EntriesRefused(c, unicode, buf, g, base, entries);
    var r := ParseEntries(c, unicode, buf, g, base, n);
    if r.Ok? {
      EntriesFound(c, unicode, buf, g, base, n);
      forall i | 0 <= i < n
        ensures payloads[i] == ErrorOf(ExtractData(env, buf, r.value[i]))
      {
        Payload4Refused(env, unicode, buf, EntryPos(g, base, i), g, r.value[i]);
      }
      PayloadsRefused(env, buf, r.value, payloads);
    }
  }

  lemma Body3Refused(env: Env, buf: bytes, g: Geometry, base: nat, entries: seq<Option<Error>>, payloads: seq<Option<Error>>)
    requires !g.v4 && |entries| == |payloads|
    requires forall i :: 0 <= i < |entries| ==> entries[i] == Entry3Error(env, buf, EntryPos(g, base, i), g.be, g.format)
    requires forall i :: 0 <= i < |entries| ==> payloads[i] == Payload3Error(env, buf, EntryPos(g, base, i), g.be, g.bitBig, g.format)
    ensures ErrorOf((var hs :- ParseEntries(env.sjis, false, buf, g, base, |entries|); ExtractAll(env, buf, hs, |entries|)))
         == BodyError(entries, payloads)
  {
    hide ParseEntry, ExtractData, ParseEntries, ExtractAll, FirstOf, Entry3Error, Payload3Error, EntryPos;
    var n := |entries|;
    forall i | 0 <= i < n
      ensures entries[i] == ErrorOf(ParseEntry(env.sjis, false, buf, EntryPos(g, base, i), g))
    {
      Entry3Refused(env, buf, EntryPos(g, base, i), g);
    }
    EntriesRefused(env.sjis, false, buf, g, base, entries);
    var r := ParseEntries(env.sjis, false, buf, g, base, n);
    if r.Ok? {
      EntriesFound(env.sjis, false, buf, g, base, n);
      forall i | 0 <= i < n
        ensures payloads[i] == ErrorOf(ExtractData(env, buf, r.value[i]))
      {
        Payload3Refused(env, buf, EntryPos(g, base, i), g, r.value[i]);
      }
      PayloadsRefused(env, buf, r.value, payloads);
    }
  }

  // ------------------------------------------------------------------ writing

  /** What the encoding in force makes of the name of file `i`. */
  function NameCode(env: Env, unicode: bool, be: bool, f: BinderFile): Result<bytes> {
    if !unicode then env.sjis.encode(TextOf(f.name)) else if be then env.utf16be.encode(TextOf(f.name)) else env.utf16le.encode(TextOf(f.name))
  }

  ghost predicate NamesGo(env: Env, unicode: bool, be: bool, format: byte, files: seq<BinderFile>, k: nat)
    requires k <= |files|
  {
    Bit(format, 4) || Bit(format, 8) ==> forall j :: 0 <= j < k ==> NameCode(env, unicode, be, files[j]).Ok?
  }

  /** Names are written if the format has them; the first that cannot be encoded stops the writer. */
  ghost predicate NameStops(env: Env, unicode: bool, be: bool, format: byte, files: seq<BinderFile>, e: Error) {
    && (Bit(format, 4) || Bit(format, 8))
    && exists i :: 0 <= i < |files| && NameCode(env, unicode, be, files[i]) == Err(e) && NamesGo(env, unicode, be, format, files, i)
  }

  ghost predicate PayloadsGo(env: Env, files: seq<BinderFile>, k: nat)
    requires k <= |files|
  {
    forall j :: 0 <= j < k && Bit(files[j].flags, 1) ==> env.compress(files[j].data, files[j].info).Ok?
  }

  /** Payloads are compressed with the lowest flag; the first that cannot be stops the writer. */
  ghost predicate PayloadStops(env: Env, files: seq<BinderFile>, e: Error) {
    exists i :: 0 <= i < |files| && Bit(files[i].flags, 1) && env.compress(files[i].data, files[i].info) == Err(e) && PayloadsGo(env, files, i)
  }

  lemma StoredNameIs(env: Env, unicode: bool, be: bool, format: byte, f: BinderFile)
    ensures ErrorOf(StoreName(NameCodec(env, unicode, be), unicode, format, f))
         == if Bit(format, 4) || Bit(format, 8) then ErrorOf(NameCode(env, unicode, be, f)) else None
  {
    hide HasNames, Bit;
    FormatBits(format);
  }

  lemma NameStopsIs(env: Env, unicode: bool, be: bool, format: byte, files: seq<BinderFile>, e: Error)
    ensures NamesFail(NameCodec(env, unicode, be), unicode, format, files, e) <==> NameStops(env, unicode, be, format, files, e)
    ensures NamesOk(NameCodec(env, unicode, be), unicode, format, files) <==> NamesGo(env, unicode, be, format, files, |files|)
  {
    hide StoreName, NameCode, NameCodec, Bit;
    var c := NameCodec(env, unicode, be);
    forall i | 0 <= i < |files|
      ensures ErrorOf(StoreName(c, unicode, format, files[i]))
           == if Bit(format, 4) || Bit(format, 8) then ErrorOf(NameCode(env, unicode, be, files[i])) else None
    {
      StoredNameIs(env, unicode, be, format, files[i]);
    }
    forall i | 0 <= i < |files|
      ensures NameFails(c, unicode, format, files, i, e)
         <==> (Bit(format, 4) || Bit(format, 8)) && NameCode(env, unicode, be, files[i]) == Err(e) && NamesGo(env, unicode, be, format, files, i)
    {
    }
  }

  lemma PayloadStopsIs(env: Env, files: seq<BinderFile>, e: Error)
    ensures PayloadsFail(env, files, e) <==> PayloadStops(env, files, e)
    ensures PayloadsOk(env, files) <==> PayloadsGo(env, files, |files|)
  {
    forall i | 0 <= i < |files|
      ensures PayloadFails(env, files, i, e)
         <==> Bit(files[i].flags, 1) && env.compress(files[i].data, files[i].info) == Err(e) && PayloadsGo(env, files, i)
    {
    }
  }
}
