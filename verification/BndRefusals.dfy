/** Which error an archive of the first BND generation is refused with: the first in the order in which it
    is read. */
module BndRefusals {
  import opened Bytes
  import opened Reading
  import opened Words
  import opened Texts
  import opened Refusals
  import opened ItemWords
  import opened Bnd
  import opened BndReading
  import BndWords

  // ------------------------------------------------------------------ the errors

  ghost predicate BadMark(buf: bytes) {
    || (3 <= |buf| && buf[..3] != [0x42, 0x4E, 0x44]) || (3 < |buf| && buf[3] != 0)
    || (6 <= |buf| && U16(buf, 4, false) != 0xFFFF) || (8 <= |buf| && U16(buf, 6, false) != 0)
  }

  /** A root is looked for where its offset is not zero. */
  ghost function RootError(c: Codec, buf: bytes, at: int): Option<Error> {
    if at == 0 then None else TextError(c.decode, false, buf, at)
  }

  /** The total size is skipped by a seek, so a buffer that ends in it is out of range. */
  ghost function HeadError(c: Codec, buf: bytes): (e: Option<Error>)
    ensures e.None? ==> |buf| >= 32 && I32(buf, 16, false) >= 0
  {
    if BadMark(buf) then Some(BadMagic)
    else if |buf| < 12 then Some(Truncated)
    else if |buf| < 16 then Some(OutOfRange)
    else if |buf| < 24 then Some(Truncated)
    else if I32(buf, 16, false) < 0 || I32(buf, 20, false) < 0 then Some(OutOfRange)
    else if RootError(c, buf, I32(buf, 20, false)).Some? then RootError(c, buf, I32(buf, 20, false))
    else if |buf| < 32 then Some(Truncated)
    else if I32(buf, 28, false) != 0 then Some(BadMagic)
    else None
  }

  ghost function EntryError(c: Codec, buf: bytes, pos: nat): Option<Error> {
    if pos + 16 > |buf| then Some(Truncated)
    else if U32(buf, pos + 12, false) == 0 then None
    else TextError(c.decode, false, buf, U32(buf, pos + 12, false))
  }

  ghost function PayloadError(buf: bytes, pos: nat): Option<Error> {
    if pos + 16 > |buf| then None
    else DataError(buf, U32(buf, pos + 4, false), U32(buf, pos + 8, false))
  }

  ghost function ArchiveError(c: Codec, buf: bytes): Option<Error> {
    if HeadError(c, buf).Some? then HeadError(c, buf)
    else
      var n := I32(buf, 16, false);
      BodyError(seq(n, i requires 0 <= i < n => EntryError(c, buf, 32 + 16 * i)),
                seq(n, i requires 0 <= i < n => PayloadError(buf, 32 + 16 * i)))
  }

  // ------------------------------------------------------------------ reading

  lemma MarkRefused(buf: bytes)
    ensures ErrorOf(ParseMark(buf)) == if BadMark(buf) then Some(BadMagic) else if |buf| < 8 then Some(Truncated) else None
  {
    hide GetUInt, ExpectByte, U16;
    ReadOption(buf, 3, {0});
    Read16(buf, 4, false);
    Read16(buf, 6, false);
    assert |buf| >= 3 ==> buf[0..3] == buf[..3];
  }

  lemma RootRefused(c: Codec, buf: bytes, at: int)
    ensures ErrorOf(ParseRoot(c, buf, at)) == RootError(c, buf, at)
  {
    hide GetText, TextError;
    TextRefused(c, false, buf, at);
  }

  lemma HeadRefused(c: Codec, buf: bytes)
    ensures ErrorOf(ParseHead(c, buf)) == HeadError(c, buf)
    ensures ParseHead(c, buf).Ok? ==> |buf| >= 32 && ParseHead(c, buf).value.count == I32(buf, 16, false)
  {
    hide GetUInt, GetSInt, ParseMark, ParseRoot, RootError, BadMark, U16, I32;
    MarkRefused(buf);
    Read32(buf, 8, false);
    Read32(buf, 16, false);
    Read32(buf, 20, false);
    if |buf| >= 24 {
      RootRefused(c, buf, I32(buf, 20, false));
    }
    Read16(buf, 24, false);
    Read16(buf, 26, false);
    Read32(buf, 28, false);
  }

  lemma EntryRefused(c: Codec, buf: bytes, pos: nat)
    ensures ErrorOf(ParseEntry(c, buf, pos)) == EntryError(c, buf, pos)
    ensures var r := ParseEntry(c, buf, pos); r.Ok? ==> ErrorOf(ParseData(buf, r.value)) == PayloadError(buf, pos)
  {
    hide GetUInt, GetSInt, GetText, TextError, I32, U32, DecimalText;
    Read32(buf, pos, false);
    Read32(buf, pos + 4, false);
    Read32(buf, pos + 8, false);
    Read32(buf, pos + 12, false);
    if pos + 16 <= |buf| {
      TextRefused(c, false, buf, U32(buf, pos + 12, false));
    }
  }

  lemma {:induction false} EntriesRefused(c: Codec, buf: bytes, errors: seq<Option<Error>>)
    requires forall i :: 0 <= i < |errors| ==> errors[i] == ErrorOf(ParseEntry(c, buf, 32 + 16 * i))
    ensures ErrorOf(ParseEntries(c, buf, |errors|)) == FirstOf(errors)
    decreases |errors|
  {
    hide ParseEntry, FirstOf;
    FirstNone(errors);
    var n := |errors|;
    if n > 0 {
      EntriesRefused(c, buf, errors[..n - 1]);
      FirstStep(errors[..n - 1], errors[n - 1]);
      assert errors == errors[..n - 1] + [errors[n - 1]];
    }
  }

  lemma {:induction false} PayloadsRefused(buf: bytes, hs: seq<Header>, errors: seq<Option<Error>>)
    requires |errors| <= |hs| && forall i :: 0 <= i < |errors| ==> errors[i] == ErrorOf(ParseData(buf, hs[i]))
    ensures ErrorOf(ParseFiles(buf, hs, |errors|)) == FirstOf(errors)
    decreases |errors|
  {
    hide ParseData, FirstOf;
    FirstNone(errors);
    var n := |errors|;
    if n > 0 {
      PayloadsRefused(buf, hs, errors[..n - 1]);
      FirstStep(errors[..n - 1], errors[n - 1]);
      assert errors == errors[..n - 1] + [errors[n - 1]];
    }
  }

  /** An archive is refused with this error, or read if there is none. */
  lemma RefusedWith(c: Codec, buf: bytes)
    ensures ErrorOf(ParseArchive(c, buf)) == ArchiveError(c, buf)
  {
    hide ParseHead, HeadError, ParseEntry, ParseData, ParseEntries, ParseFiles, FirstOf, EntryError, PayloadError, I32;
    HeadRefused(c, buf);
    if ParseHead(c, buf).Ok? {
      var n := I32(buf, 16, false);
      var entries := seq(n, i requires 0 <= i < n => EntryError(c, buf, 32 + 16 * i));
      var payloads := seq(n, i requires 0 <= i < n => PayloadError(buf, 32 + 16 * i));
      forall i | 0 <= i < n
        ensures entries[i] == ErrorOf(ParseEntry(c, buf, 32 + 16 * i))
      {
        EntryRefused(c, buf, 32 + 16 * i);
      }
      EntriesRefused(c, buf, entries);
      var r := ParseEntries(c, buf, n);
      if r.Ok? {
        BndWords.EntriesFound(c, buf, n);
        forall i | 0 <= i < n
          ensures payloads[i] == ErrorOf(ParseData(buf, r.value[i]))
        {
          EntryRefused(c, buf, BndWords.EntryAt(i));
        }
        PayloadsRefused(buf, r.value, payloads);
      }
    }
  }
}
