/** Which error a BND2 archive is refused with: the first in the order in which it is read. */
module Bnd2Refusals {
  import opened Bytes
  import opened Reading
  import opened Words
  import opened Texts
  import opened Refusals
  import opened ItemWords
  import opened Bnd2
  import opened Bnd2Reading
  import Bnd2Words

  // ------------------------------------------------------------------ the errors

  /** Something in the last words of the head is there and wrong. */
  ghost predicate BadTail(buf: bytes) {
    || (26 < |buf| && buf[26] > 3) || (27 < |buf| && buf[27] > 1) || (32 <= |buf| && U32(buf, 28, false) != 0)
    || (36 <= |buf| && !Bit(buf[5], 8) && U32(buf, 32, false) != 0)
  }

  /** The total size is skipped by a seek, so a buffer that ends in it is out of range. */
  ghost function HeadError(buf: bytes): (e: Option<Error>)
    ensures e.None? ==> |buf| >= 32 && I32(buf, 16, false) >= 0 && I32(buf, 20, false) >= 0
  {
    if (3 <= |buf| && buf[..3] != [0x42, 0x4E, 0x44]) || (3 < |buf| && buf[3] != 0) then Some(BadMagic)
    else if |buf| < 12 then Some(Truncated)
    else if |buf| < 16 then Some(OutOfRange)
    else if BadTail(buf) then Some(BadMagic)
    else if |buf| < 32 || (|buf| < 36 && !Bit(buf[5], 8)) then Some(Truncated)
    else if I32(buf, 16, false) < 0 || I32(buf, 20, false) < 0 then Some(OutOfRange)
    else None
  }

  /** A base directory is looked for in path mode 3, if entries have a name offset. */
  ghost function BaseError(c: Codec, buf: bytes, wide: bool, mode: byte): Option<Error>
    requires |buf| >= 32
  {
    if mode == 3 && wide then TextError(c.decode, false, buf, I32(buf, 20, false)) else None
  }

  ghost function EntryError(c: Codec, buf: bytes, pos: nat, wide: bool, mode: byte): Option<Error> {
    if pos + 12 > |buf| then Some(Truncated)
    else if I32(buf, pos + 4, false) < 0 || I32(buf, pos + 8, false) < 0 then Some(OutOfRange)
    else if !wide then None
    else if pos + 16 > |buf| then Some(Truncated)
    else if mode == 0 then None
    else if I32(buf, pos + 12, false) < 0 then Some(OutOfRange)
    else TextError(c.decode, false, buf, I32(buf, pos + 12, false))
  }

  ghost function PayloadError(buf: bytes, pos: nat): Option<Error> {
    if pos + 12 > |buf| || I32(buf, pos + 8, false) < 0 then None
    else DataError(buf, I32(buf, pos + 4, false), I32(buf, pos + 8, false))
  }

  function EntryAt(wide: bool, i: nat): nat {
    if wide then 32 + 16 * i else 36 + 12 * i
  }

  ghost function ArchiveError(c: Codec, buf: bytes): Option<Error> {
    if HeadError(buf).Some? then HeadError(buf)
    else
      var wide, mode, n := Bit(buf[5], 8), buf[26], I32(buf, 16, false);
      if BaseError(c, buf, wide, mode).Some? then BaseError(c, buf, wide, mode)
      else
        BodyError(seq(n, i requires 0 <= i < n => EntryError(c, buf, EntryAt(wide, i), wide, mode)),
                  seq(n, i requires 0 <= i < n => PayloadError(buf, EntryAt(wide, i))))
  }

  // ------------------------------------------------------------------ reading

  lemma FlagsRefused(buf: bytes)
    ensures ErrorOf(ParseFlags(buf))
         == if (3 <= |buf| && buf[..3] != [0x42, 0x4E, 0x44]) || (3 < |buf| && buf[3] != 0) then Some(BadMagic)
            else if |buf| < 8 then Some(Truncated)
            else None
    ensures ParseFlags(buf).Ok? ==> |buf| >= 8 && ParseFlags(buf).value.file == buf[5]
  {
    hide GetUInt, ExpectByte;
    ReadOption(buf, 3, {0});
    ReadByte(buf, 4);
    ReadByte(buf, 5);
    ReadByte(buf, 6);
    ReadByte(buf, 7);
    assert |buf| >= 3 ==> buf[0..3] == buf[..3];
  }

  lemma OptionsRefused(buf: bytes)
    ensures ErrorOf(ExpectByte(buf, 26, MODES)) == if |buf| <= 26 then Some(Truncated) else if buf[26] > 3 then Some(BadMagic) else None
    ensures ErrorOf(ExpectByte(buf, 27, UNK1B_OPTIONS)) == if |buf| <= 27 then Some(Truncated) else if buf[27] > 1 then Some(BadMagic) else None
  {
    hide ExpectByte;
    ReadOption(buf, 26, MODES);
    ReadOption(buf, 27, UNK1B_OPTIONS);
  }

  lemma ZerosRefused(buf: bytes, fileFlags: byte)
    ensures ErrorOf(ParseZeros(buf, fileFlags))
         == if |buf| < 32 then Some(Truncated)
            else if U32(buf, 28, false) != 0 then Some(BadMagic)
            else if Bit(fileFlags, 8) then None
            else if |buf| < 36 then Some(Truncated)
            else if U32(buf, 32, false) != 0 then Some(BadMagic)
            else None
  {
    hide GetUInt, U32, HasNameOffsets, Bit;
    Bnd2Words.WideIs(fileFlags);
    Read32(buf, 28, false);
    Read32(buf, 32, false);
  }

  lemma HeadRefused(buf: bytes)
    ensures ErrorOf(ParseHead(buf)) == HeadError(buf)
    ensures ParseHead(buf).Ok? ==>
      && |buf| >= 32
      && var h := ParseHead(buf).value;
         h.fileFlags == buf[5] && h.mode == buf[26] && h.count == I32(buf, 16, false) && h.base == I32(buf, 20, false)
  {
    hide GetUInt, GetSInt, ExpectByte, ParseFlags, ParseZeros, U16, U32, I32, MODES, UNK1B_OPTIONS, Bit;
    FlagsRefused(buf);
    Read32(buf, 8, false);
    Read32(buf, 16, false);
    Read32(buf, 20, false);
    Read16(buf, 24, false);
    OptionsRefused(buf);
    Bnd2Words.ModeRead(buf);
    if |buf| > 5 {
      ZerosRefused(buf, buf[5]);
    }
  }

  lemma BaseRefused(c: Codec, buf: bytes, h: Head)
    requires |buf| >= 32 && h.base == I32(buf, 20, false)
    ensures ErrorOf(ParseBase(c, buf, h)) == BaseError(c, buf, Bit(h.fileFlags, 8), h.mode)
  {
    hide GetText, TextError, I32, HasNameOffsets, Bit;
    Bnd2Words.WideIs(h.fileFlags);
    TextRefused(c, false, buf, h.base);
  }

  lemma NameRefused(c: Codec, buf: bytes, pos: nat, h: Head, id: int)
    ensures ErrorOf(ParseName(c, buf, pos, h, id))
         == if !Bit(h.fileFlags, 8) then None
            else if pos + 4 > |buf| then Some(Truncated)
            else if h.mode == 0 then None
            else if I32(buf, pos, false) < 0 then Some(OutOfRange)
            else TextError(c.decode, false, buf, I32(buf, pos, false))
  {
    hide GetText, GetSInt, TextError, DecimalText, I32, HasNameOffsets, Bit;
    Bnd2Words.WideIs(h.fileFlags);
    Read32(buf, pos, false);
    if pos + 4 <= |buf| {
      TextRefused(c, false, buf, I32(buf, pos, false));
    }
  }

  lemma EntryRefused(c: Codec, buf: bytes, pos: nat, h: Head)
    ensures ErrorOf(ParseEntry(c, buf, pos, h)) == EntryError(c, buf, pos, Bit(h.fileFlags, 8), h.mode)
    ensures var r := ParseEntry(c, buf, pos, h); r.Ok? ==> ErrorOf(ParseData(buf, r.value)) == PayloadError(buf, pos)
  {
    hide GetUInt, GetSInt, ParseName, TextError, I32, Bit;
    Read32(buf, pos, false);
    Read32(buf, pos + 4, false);
    Read32(buf, pos + 8, false);
    if pos + 12 <= |buf| {
      NameRefused(c, buf, pos + 12, h, I32(buf, pos, false));
    }
  }

  lemma {:induction false} EntriesRefused(c: Codec, buf: bytes, h: Head, errors: seq<Option<Error>>)
    requires forall i :: 0 <= i < |errors| ==> errors[i] == ErrorOf(ParseEntry(c, buf, EntryStart(h, i), h))
    ensures ErrorOf(ParseEntries(c, buf, h, |errors|)) == FirstOf(errors)
    decreases |errors|
  {
    hide ParseEntry, EntryStart, FirstOf;
    FirstNone(errors);
    var n := |errors|;
    if n > 0 {
      EntriesRefused(c, buf, h, errors[..n - 1]);
      FirstStep(errors[..n - 1], errors[n - 1]);
      assert errors == errors[..n - 1] + [errors[n - 1]];
    }
  }

  lemma {:induction false} PayloadsRefused(buf: bytes, hs: seq<Header>, errors: seq<Option<Error>>)
    requires |errors| <= |hs| && forall i :: 0 <= i < |errors| ==> errors[i] == ErrorOf(ParseData(buf, hs[i]))
    ensures ErrorOf(ParseFiles(buf, hs, |errors|)) == FirstOf(errors)
    decreases |errors|
  {
    hide ParseData, FirstOf;
    FirstNone(errors);
    var n := |errors|;
    if n > 0 {
      PayloadsRefused(buf, hs, errors[..n - 1]);
      FirstStep(errors[..n - 1], errors[n - 1]);
      assert errors == errors[..n - 1] + [errors[n - 1]];
    }
  }

  lemma BodyRefused(c: Codec, buf: bytes, h: Head, entries: seq<Option<Error>>, payloads: seq<Option<Error>>)
    requires |entries| == |payloads|
    requires forall i :: 0 <= i < |entries| ==> entries[i] == EntryError(c, buf, EntryStart(h, i), Bit(h.fileFlags, 8), h.mode)
    requires forall i :: 0 <= i < |entries| ==> payloads[i] == PayloadError(buf, EntryStart(h, i))
    ensures ErrorOf((var hs :- ParseEntries(c, buf, h, |entries|); ParseFiles(buf, hs, |entries|))) == BodyError(entries, payloads)
  {
    hide ParseEntry, ParseData, ParseEntries, ParseFiles, FirstOf, EntryError, PayloadError, EntryStart, Bit;
    var n := |entries|;
    forall i | 0 <= i < n
      ensures entries[i] == ErrorOf(ParseEntry(c, buf, EntryStart(h, i), h))
    {
      EntryRefused(c, buf, EntryStart(h, i), h);
    }
    EntriesRefused(c, buf, h, entries);
    var r := ParseEntries(c, buf, h, n);
    if r.Ok? {
      Bnd2Words.EntriesFound(c, buf, h, n);
      forall i | 0 <= i < n
        ensures payloads[i] == ErrorOf(ParseData(buf, r.value[i]))
      {
        EntryRefused(c, buf, EntryStart(h, i), h);
      }
      PayloadsRefused(buf, r.value, payloads);
    }
  }

  /** An archive is refused with this error, or read if there is none. */
  lemma RefusedWith(c: Codec, buf: bytes)
    ensures ErrorOf(ParseArchive(c, buf)) == ArchiveError(c, buf)
  {
    hide ParseHead, HeadError, ParseBase, BaseError, ParseEntries, ParseFiles, FirstOf, BodyError, EntryError, PayloadError, I32, Bit, HasNameOffsets;
    HeadRefused(buf);
    if ParseHead(buf).Ok? {
      var h := ParseHead(buf).value;
      BaseRefused(c, buf, h);
      Bnd2Words.WideIs(h.fileFlags);
      var wide, mode, n := Bit(buf[5], 8), buf[26], I32(buf, 16, false);
      var entries := seq(n, i requires 0 <= i < n => EntryError(c, buf, EntryAt(wide, i), wide, mode));
      var payloads := seq(n, i requires 0 <= i < n => PayloadError(buf, EntryAt(wide, i)));
      BodyRefused(c, buf, h, entries, payloads);
    }
  }
}
