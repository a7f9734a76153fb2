/** The entries of BND3 and BND4 archives spelled out word by word: bits of the format byte, fields at
    their offsets, names in the encoding that applies, payloads where their words point. */
module BinderWords {
  import opened Bytes
  import opened Format
  import opened Reading
  import opened Words
  import opened Texts
  import opened Binder
  import opened BinderReading

  // ------------------------------------------------------------------ bits

  /** The same bits in the opposite order. */
  ghost predicate Mirrored(a: byte, b: byte) {
    && Bit(a, 1) == Bit(b, 128) && Bit(a, 2) == Bit(b, 64) && Bit(a, 4) == Bit(b, 32) && Bit(a, 8) == Bit(b, 16)
    && Bit(a, 16) == Bit(b, 8) && Bit(a, 32) == Bit(b, 4) && Bit(a, 64) == Bit(b, 2) && Bit(a, 128) == Bit(b, 1)
  }

  /** The byte that is read as a format: as it stands in the one bit order, or when it is odd and has no
      highest bit; mirrored otherwise. */
  ghost predicate ReadsFormat(raw: byte, bitBig: bool, format: byte) {
    if bitBig || (Bit(raw, 1) && !Bit(raw, 128)) then raw == format else Mirrored(raw, format)
  }

  /** The byte that is written for a format: mirrored in the other bit order, unless it has both the lowest
      bit and that of 64. */
  ghost predicate WritesFormat(format: byte, bitBig: bool, raw: byte) {
    if bitBig || (Bit(format, 1) && Bit(format, 64)) then raw == format else Mirrored(format, raw)
  }

  /** File flags are mirrored in the other bit order. */
  ghost predicate FlagByte(raw: byte, bitBig: bool, flags: byte) {
    if bitBig then raw == flags else Mirrored(raw, flags)
  }

  /** One bit of a byte, as a number. */
  function Digit(a: byte, weight: nat): nat
    requires weight > 0
  {
    if Bit(a, weight) then 1 else 0
  }

  lemma DigitIs(a: byte, weight: nat)
    requires weight > 0
    ensures Digit(a, weight) == a / weight % 2
  {
  }

  /** A byte is the sum of its bits. */
  lemma SumOfBits(a: byte)
    ensures a == Digit(a, 1) + 2 * Digit(a, 2) + 4 * Digit(a, 4) + 8 * Digit(a, 8)
              + 16 * Digit(a, 16) + 32 * Digit(a, 32) + 64 * Digit(a, 64) + 128 * Digit(a, 128)
  {
    hide Digit;
    Decompose(a);
    DigitIs(a, 1);
    DigitIs(a, 2);
    DigitIs(a, 4);
    DigitIs(a, 8);
    DigitIs(a, 16);
    DigitIs(a, 32);
    DigitIs(a, 64);
    DigitIs(a, 128);
    Edges(a);
  }

  lemma Edges(a: byte)
    ensures a / 1 % 2 == a % 2 && a / 128 % 2 == a / 128
  {
  }

  lemma SameBits(a: byte, b: byte)
    requires Bit(a, 1) == Bit(b, 1) && Bit(a, 2) == Bit(b, 2) && Bit(a, 4) == Bit(b, 4) && Bit(a, 8) == Bit(b, 8)
    requires Bit(a, 16) == Bit(b, 16) && Bit(a, 32) == Bit(b, 32) && Bit(a, 64) == Bit(b, 64) && Bit(a, 128) == Bit(b, 128)
    ensures a == b
  {
    hide Bit;
    SumOfBits(a);
    SumOfBits(b);
  }

  lemma MirrorIs(a: byte, b: byte)
    ensures Mirrored(a, b) <==> ReverseBits(a) == b
  {
    hide ReverseBits;
    ReversedBits(a);
    if Mirrored(a, b) {
      SameBits(ReverseBits(a), b);
    }
  }

  lemma FormatIs(raw: byte, bitBig: bool, f: byte)
    ensures ReadFormat(raw, bitBig) == f <==> ReadsFormat(raw, bitBig, f)
    ensures WriteFormat(f, bitBig) == raw <==> WritesFormat(f, bitBig, raw)
  {
    hide ReverseBits, Mirrored;
    MirrorIs(raw, f);
    MirrorIs(f, raw);
  }

  lemma FlagsIs(raw: byte, bitBig: bool, f: byte)
    ensures ReadFlags(raw, bitBig) == f <==> FlagByte(raw, bitBig, f)
    ensures WriteFlags(f, bitBig) == raw <==> FlagByte(raw, bitBig, f)
  {
    hide ReverseBits, Mirrored;
    MirrorIs(raw, f);
    MirrorIs(f, raw);
    ReverseBitsInvolutive(raw);
    ReverseBitsInvolutive(f);
  }

  // ------------------------------------------------------------------ texts

  /** A text at an offset, decoded: pairs of bytes in the archive's byte order, or single bytes. */
  ghost predicate NameFound(env: Env, buf: bytes, at: int, unicode: bool, be: bool, name: bytes) {
    0 <= at <= |buf| && exists s ::
      if !unicode then NarrowText(buf, at, s) && env.sjis.decode(s) == Ok(name)
      else WideText(buf, at, s) && (if be then env.utf16be.decode(s) else env.utf16le.decode(s)) == Ok(name)
  }

  lemma NameIs(env: Env, buf: bytes, at: int, unicode: bool, be: bool, name: bytes)
    ensures GetText(NameCodec(env, unicode, be), unicode, buf, at) == Ok(name) <==> NameFound(env, buf, at, unicode, be, name)
  {
    hide Terminated, NarrowText, WideText;
    if 0 <= at <= |buf| {
      forall s: bytes
        ensures Terminated(buf, at, false) == Ok(s) <==> NarrowText(buf, at, s)
        ensures Terminated(buf, at, true) == Ok(s) <==> WideText(buf, at, s)
      {
        ReadNarrow(buf, at, s);
        ReadWide(buf, at, s);
      }
    }
  }

  // ------------------------------------------------------------------ entries

  /** In BND4: flags, three zeros, -1, the stored size in eight bytes; eight more for the size before
      compression if the format has it (32); the payload's offset in eight bytes (16) or four; four bytes
      each for an id (2) and for the offset of a name (4 or 8); and for names alone (4) id and zero again. */
  ghost predicate Entry4Words(env: Env, buf: bytes, pos: nat, be: bool, bitBig: bool, unicode: bool, format: byte, h: FileHeader) {
    var dataAt := pos + if Bit(format, 32) then 24 else 16;
    var idAt := dataAt + if Bit(format, 16) then 8 else 4;
    var nameAt := idAt + if Bit(format, 2) then 4 else 0;
    var tail := nameAt + if Bit(format, 4) || Bit(format, 8) then 4 else 0;
    && tail + (if format == 4 then 8 else 0) <= |buf|
    && FlagByte(buf[pos], bitBig, h.flags) && buf[pos + 1] == 0 && buf[pos + 2] == 0 && buf[pos + 3] == 0
    && I32(buf, pos + 4, be) == -1 && U64(buf, pos + 8, be) == h.compressed
    && (if Bit(format, 16) then I64(buf, dataAt, be) else U32(buf, dataAt, be)) == h.dataPos
    && (if Bit(format, 4) || Bit(format, 8) then h.name.Some? && NameFound(env, buf, U32(buf, nameAt, be), unicode, be, h.name.value)
        else h.name.None?)
    && (if format == 4 then I32(buf, tail, be) == h.id && I32(buf, tail + 4, be) == 0
        else if Bit(format, 2) then I32(buf, idAt, be) == h.id else h.id == -1)
  }

  /** In BND3: flags, three zeros, the stored size in four bytes; the payload's offset in eight bytes (16)
      or four; four bytes each for an id (2), for the offset of a name (4 or 8), and for the size before
      compression (32). */
  ghost predicate Entry3Words(env: Env, buf: bytes, pos: nat, be: bool, bitBig: bool, format: byte, h: FileHeader) {
    var idAt := pos + if Bit(format, 16) then 16 else 12;
    var nameAt := idAt + if Bit(format, 2) then 4 else 0;
    var tail := nameAt + if Bit(format, 4) || Bit(format, 8) then 4 else 0;
    && tail + (if Bit(format, 32) then 4 else 0) <= |buf|
    && FlagByte(buf[pos], bitBig, h.flags) && buf[pos + 1] == 0 && buf[pos + 2] == 0 && buf[pos + 3] == 0
    && U32(buf, pos + 4, be) == h.compressed
    && (if Bit(format, 16) then I64(buf, pos + 8, be) else U32(buf, pos + 8, be)) == h.dataPos
    && (if Bit(format, 4) || Bit(format, 8) then h.name.Some? && NameFound(env, buf, I32(buf, nameAt, be), false, be, h.name.value)
        else h.name.None?)
    && (if Bit(format, 2) then I32(buf, idAt, be) == h.id else h.id == -1)
  }

  lemma FormatBits(f: byte)
    ensures HasIds(f) == Bit(f, 2) && HasNames(f) == (Bit(f, 4) || Bit(f, 8)) && HasLongOffsets(f) == Bit(f, 16) && HasCompression(f) == Bit(f, 32)
    ensures ForcesBigEndian(f) == Bit(f, 1)
  {
  }

  /** Where the fields stand, in terms of the bits. */
  lemma Positions(g: Geometry)
    ensures DataAt(g) == if !g.v4 then 8 else if Bit(g.format, 32) then 24 else 16
    ensures IdAt(g) == DataAt(g) + if Bit(g.format, 16) then 8 else 4
    ensures NameAt(g) == IdAt(g) + if Bit(g.format, 2) then 4 else 0
    ensures TailAt(g) == NameAt(g) + if Bit(g.format, 4) || Bit(g.format, 8) then 4 else 0
    ensures EntrySize(g) == TailAt(g) + if g.v4 then (if g.format == 4 then 8 else 0) else if Bit(g.format, 32) then 4 else 0
  {
    hide Bit, HasIds, HasNames, HasLongOffsets, HasCompression;
    FormatBits(g.format);
  }

  lemma FlagsFound(buf: bytes, pos: nat, g: Geometry, flags: byte)
    ensures GetEntryFlags(buf, pos, g) == Ok(flags) <==>
      && pos + (if g.v4 then 8 else 4) <= |buf| && FlagByte(buf[pos], g.bitBig, flags)
      && buf[pos + 1] == 0 && buf[pos + 2] == 0 && buf[pos + 3] == 0 && (g.v4 ==> I32(buf, pos + 4, g.be) == -1)
  {
    hide GetUInt, GetSInt, ExpectByte, I32, ReadFlags, FlagByte;
    ReadByte(buf, pos);
    ReadOption(buf, pos + 1, {0});
    ReadOption(buf, pos + 2, {0});
    ReadOption(buf, pos + 3, {0});
    Read32(buf, pos + 4, g.be);
    if pos < |buf| {
      FlagsIs(buf[pos], g.bitBig, flags);
    }
  }

  lemma NameWord(env: Env, unicode: bool, buf: bytes, pos: nat, g: Geometry, name: Option<bytes>)
    requires !g.v4 ==> !unicode
    ensures GetEntryName(NameCodec(env, unicode, g.be), unicode, buf, pos, g) == Ok(name) <==>
      if HasNames(g.format) then
        pos + 4 <= |buf| && name.Some?
        && NameFound(env, buf, if g.v4 then U32(buf, pos, g.be) else I32(buf, pos, g.be), unicode, g.be, name.value)
      else name.None?
  {
    hide GetUInt, GetSInt, U32, I32, GetText, NameFound, HasNames, NameCodec;
    Read32(buf, pos, g.be);
    if pos + 4 <= |buf| && name.Some? {
      NameIs(env, buf, U32(buf, pos, g.be), unicode, g.be, name.value);
      NameIs(env, buf, I32(buf, pos, g.be), unicode, g.be, name.value);
    }
  }

  lemma OffsetWord(buf: bytes, pos: nat, g: Geometry, off: int)
    ensures GetOffset(buf, pos, g) == Ok(off) <==>
      if HasLongOffsets(g.format) then pos + 8 <= |buf| && I64(buf, pos, g.be) == off else pos + 4 <= |buf| && U32(buf, pos, g.be) == off
  {
    hide GetUInt, GetSInt, U32, I64;
    Read32(buf, pos, g.be);
    Read64(buf, pos, g.be);
  }

  lemma FrontRead(buf: bytes, pos: nat, g: Geometry, h: FileHeader)
    requires g.v4
    ensures ParseFront(buf, pos, g) == Ok(h) <==>
      && h.name.None? && pos + NameAt(g) <= |buf|
      && FlagByte(buf[pos], g.bitBig, h.flags) && buf[pos + 1] == 0 && buf[pos + 2] == 0 && buf[pos + 3] == 0
      && I32(buf, pos + 4, g.be) == -1 && U64(buf, pos + 8, g.be) == h.compressed
      && (if Bit(g.format, 16) then I64(buf, pos + DataAt(g), g.be) else U32(buf, pos + DataAt(g), g.be)) == h.dataPos
      && (if Bit(g.format, 2) then I32(buf, pos + IdAt(g), g.be) == h.id else h.id == -1)
  {
    hide GetUInt, GetSInt, U32, U64, I32, I64, GetEntryFlags, GetOffset, FlagByte, HasIds, HasNames, HasLongOffsets, HasCompression, Bit,
      DataAt, IdAt, NameAt;
    FormatBits(g.format);
    Positions(g);
    FlagsFound(buf, pos, g, h.flags);
    Read64(buf, pos + 8, g.be);
    Read64(buf, pos + 16, g.be);
    OffsetWord(buf, pos + DataAt(g), g, h.dataPos);
    Read32(buf, pos + IdAt(g), g.be);
  }

  lemma Entry4Read(env: Env, unicode: bool, buf: bytes, pos: nat, g: Geometry, h: FileHeader)
    requires g.v4
    ensures ParseEntry(NameCodec(env, unicode, g.be), unicode, buf, pos, g) == Ok(h)
       <==> Entry4Words(env, buf, pos, g.be, g.bitBig, unicode, g.format, h)
  {
    hide GetSInt, U32, U64, I32, I64, ParseEntry, ParseFront, GetEntryName, GetTailId, FlagByte, NameFound, HasIds, HasNames, Bit, NameCodec,
      DataAt, IdAt, NameAt, TailAt;
    FormatBits(g.format);
    Positions(g);
    EntrySplits(NameCodec(env, unicode, g.be), unicode, buf, pos, g);
    NameWord(env, unicode, buf, pos + NameAt(g), g, h.name);
    var first := if Bit(g.format, 2) && pos + IdAt(g) + 4 <= |buf| then I32(buf, pos + IdAt(g), g.be) else -1;
    FrontRead(buf, pos, g, h.(name := None, id := first));
    TailRead4(buf, pos + TailAt(g), g, first, h.id);
    var front := ParseFront(buf, pos, g);
    if front.Ok? {
      FrontRead(buf, pos, g, front.value);
    }
  }

  lemma TailRead4(buf: bytes, tail: nat, g: Geometry, first: int, id: int)
    ensures GetTailId(buf, tail, g, first) == Ok(id) <==>
      if g.format == 4 then tail + 8 <= |buf| && I32(buf, tail, g.be) == id && I32(buf, tail + 4, g.be) == 0 else id == first
  {
    hide GetSInt, I32;
    Read32(buf, tail, g.be);
    Read32(buf, tail + 4, g.be);
  }

  lemma Entry3Read(env: Env, buf: bytes, pos: nat, g: Geometry, h: FileHeader)
    requires !g.v4
    ensures ParseEntry(env.sjis, false, buf, pos, g) == Ok(h) <==> Entry3Words(env, buf, pos, g.be, g.bitBig, g.format, h)
  {
    hide GetUInt, GetSInt, U32, U64, I32, I64, GetEntryFlags, GetEntryName, GetOffset, FlagByte, NameFound, HasIds, HasNames, HasLongOffsets,
      HasCompression, Bit, DataAt, IdAt, NameAt, TailAt;
    FormatBits(g.format);
    Positions(g);
    FlagsFound(buf, pos, g, h.flags);
    Read32(buf, pos + 4, g.be);
    OffsetWord(buf, pos + 8, g, h.dataPos);
    Read32(buf, pos + IdAt(g), g.be);
    NameWord(env, false, buf, pos + NameAt(g), g, h.name);
    Read32(buf, pos + TailAt(g), g.be);
  }

  // ------------------------------------------------------------------ payloads and files

  /** The payload where the header points, as stored or, with the lowest flag, decompressed. */
  ghost predicate PayloadFound(env: Env, buf: bytes, h: FileHeader, f: BinderFile) {
    && (h.compressed > 0 ==> 0 <= h.dataPos && h.dataPos + h.compressed <= |buf|)
    && var raw := if h.compressed > 0 then buf[h.dataPos..h.dataPos + h.compressed] else [];
       if Bit(h.flags, 1) then env.decompress(raw) == Ok((f.data, f.info)) else f.data == raw && f.info == Info(2, [])
  }

  ghost predicate SameFile(h: FileHeader, f: BinderFile) {
    f.id == h.id && f.name == h.name && f.flags == h.flags
  }

  lemma PayloadRead(env: Env, buf: bytes, h: FileHeader, f: BinderFile)
    ensures ExtractData(env, buf, h) == Ok((f.data, f.info)) <==> PayloadFound(env, buf, h, f)
  {
  }

  ghost predicate File4Words(env: Env, buf: bytes, pos: nat, be: bool, bitBig: bool, unicode: bool, format: byte, f: BinderFile) {
    exists h :: Entry4Words(env, buf, pos, be, bitBig, unicode, format, h) && PayloadFound(env, buf, h, f) && SameFile(h, f)
  }

  ghost predicate File3Words(env: Env, buf: bytes, pos: nat, be: bool, bitBig: bool, format: byte, f: BinderFile) {
    exists h :: Entry3Words(env, buf, pos, be, bitBig, format, h) && PayloadFound(env, buf, h, f) && SameFile(h, f)
  }

  ghost predicate FileRead(env: Env, c: Codec, wide: bool, buf: bytes, pos: nat, g: Geometry, f: BinderFile) {
    var h := ParseEntry(c, wide, buf, pos, g);
    h.Ok? && ExtractData(env, buf, h.value) == Ok((f.data, f.info)) && SameFile(h.value, f)
  }

  lemma File4Read(env: Env, unicode: bool, buf: bytes, pos: nat, g: Geometry, f: BinderFile)
    requires g.v4
    ensures FileRead(env, NameCodec(env, unicode, g.be), unicode, buf, pos, g, f)
       <==> File4Words(env, buf, pos, g.be, g.bitBig, unicode, g.format, f)
  {
    hide ParseEntry, ExtractData, Entry4Words, PayloadFound, SameFile, NameCodec;
    var r := ParseEntry(NameCodec(env, unicode, g.be), unicode, buf, pos, g);
    if r.Ok? {
      Entry4Read(env, unicode, buf, pos, g, r.value);
      PayloadRead(env, buf, r.value, f);
    }
    if File4Words(env, buf, pos, g.be, g.bitBig, unicode, g.format, f) {
      var h :| Entry4Words(env, buf, pos, g.be, g.bitBig, unicode, g.format, h) && PayloadFound(env, buf, h, f) && SameFile(h, f);
      Entry4Read(env, unicode, buf, pos, g, h);
    }
  }

  lemma File3Read(env: Env, buf: bytes, pos: nat, g: Geometry, f: BinderFile)
    requires !g.v4
    ensures FileRead(env, env.sjis, false, buf, pos, g, f) <==> File3Words(env, buf, pos, g.be, g.bitBig, g.format, f)
  {
    hide ParseEntry, ExtractData, Entry3Words, PayloadFound, SameFile;
    var r := ParseEntry(env.sjis, false, buf, pos, g);
    if r.Ok? {
      Entry3Read(env, buf, pos, g, r.value);
      PayloadRead(env, buf, r.value, f);
    }
    if File3Words(env, buf, pos, g.be, g.bitBig, g.format, f) {
      var h :| Entry3Words(env, buf, pos, g.be, g.bitBig, g.format, h) && PayloadFound(env, buf, h, f) && SameFile(h, f);
      Entry3Read(env, buf, pos, g, h);
    }
  }

  // ------------------------------------------------------------------ all files

  lemma {:induction false} EntriesFound(c: Codec, wide: bool, buf: bytes, g: Geometry, base: nat, n: nat)
    requires ParseEntries(c, wide, buf, g, base, n).Ok?
    ensures forall i :: 0 <= i < n ==> ParseEntry(c, wide, buf, EntryPos(g, base, i), g) == Ok(ParseEntries(c, wide, buf, g, base, n).value[i])
  {
    hide ParseEntry, EntryPos;
    if n > 0 {
      EntriesFound(c, wide, buf, g, base, n - 1);
    }
  }

  lemma {:induction false} AllEntriesFound(c: Codec, wide: bool, buf: bytes, g: Geometry, base: nat, n: nat)
    requires forall i :: 0 <= i < n ==> ParseEntry(c, wide, buf, EntryPos(g, base, i), g).Ok?
    ensures ParseEntries(c, wide, buf, g, base, n).Ok?
  {
    hide ParseEntry, EntryPos;
    if n > 0 {
      AllEntriesFound(c, wide, buf, g, base, n - 1);
      var i := n - 1;
      assert ParseEntry(c, wide, buf, EntryPos(g, base, i), g).Ok?;
    }
  }

  lemma {:induction false} FilesFound(env: Env, buf: bytes, hs: seq<FileHeader>, n: nat)
    requires n <= |hs|
    ensures var r := ExtractAll(env, buf, hs, n);
      && (r.Ok? <==> forall i :: 0 <= i < n ==> ExtractData(env, buf, hs[i]).Ok?)
      && (r.Ok? ==> forall i :: 0 <= i < n ==>
            SameFile(hs[i], r.value[i]) && ExtractData(env, buf, hs[i]) == Ok((r.value[i].data, r.value[i].info)))
  {
    hide ExtractData;
    if n > 0 {
      FilesFound(env, buf, hs, n - 1);
    }
  }

  lemma FileOfParts(env: Env, c: Codec, wide: bool, buf: bytes, pos: nat, g: Geometry, h: FileHeader, f: BinderFile, x: BinderFile)
    requires ParseEntry(c, wide, buf, pos, g) == Ok(h)
    requires ExtractData(env, buf, h).Ok? ==> SameFile(h, x) && ExtractData(env, buf, h) == Ok((x.data, x.info))
    ensures FileRead(env, c, wide, buf, pos, g, f) <==> ExtractData(env, buf, h).Ok? && x == f
  {
    hide ParseEntry, ExtractData;
  }

  /** Entries and payloads are read as `files` exactly when each of them is. */
  lemma BodyRead(env: Env, c: Codec, wide: bool, buf: bytes, g: Geometry, base: nat, files: seq<BinderFile>)
    ensures (var hs :- ParseEntries(c, wide, buf, g, base, |files|); ExtractAll(env, buf, hs, |files|)) == Ok(files)
       <==> forall i :: 0 <= i < |files| ==> FileRead(env, c, wide, buf, EntryPos(g, base, i), g, files[i])
  {
    hide ParseEntry, ExtractData, EntryPos, ParseEntries, ExtractAll, SameFile, FileRead;
    var n := |files|;
    var r := ParseEntries(c, wide, buf, g, base, n);
    if r.Err? {
      if forall i :: 0 <= i < n ==> ParseEntry(c, wide, buf, EntryPos(g, base, i), g).Ok? {
        AllEntriesFound(c, wide, buf, g, base, n);
      }
      var i :| 0 <= i < n && ParseEntry(c, wide, buf, EntryPos(g, base, i), g).Err?;
      assert !FileRead(env, c, wide, buf, EntryPos(g, base, i), g, files[i]) by { NoEntry(env, c, wide, buf, EntryPos(g, base, i), g, files[i]); }
    } else {
      EntriesFound(c, wide, buf, g, base, n);
      FilesFound(env, buf, r.value, n);
      var t := ExtractAll(env, buf, r.value, n);
      forall i | 0 <= i < n
        ensures FileRead(env, c, wide, buf, EntryPos(g, base, i), g, files[i]) ==> ExtractData(env, buf, r.value[i]).Ok?
        ensures t.Ok? ==> (FileRead(env, c, wide, buf, EntryPos(g, base, i), g, files[i]) <==> t.value[i] == files[i])
      {
        var d := ExtractData(env, buf, r.value[i]);
        if t.Ok? {
          FileOfParts(env, c, wide, buf, EntryPos(g, base, i), g, r.value[i], files[i], t.value[i]);
        } else if d.Err? {
          FileOfParts(env, c, wide, buf, EntryPos(g, base, i), g, r.value[i], files[i], files[i]);
        }
      }
      if t.Ok? && forall i :: 0 <= i < n ==> t.value[i] == files[i] {
        assert t.value == files;
      }
    }
  }

  lemma NoEntry(env: Env, c: Codec, wide: bool, buf: bytes, pos: nat, g: Geometry, f: BinderFile)
    requires ParseEntry(c, wide, buf, pos, g).Err?
    ensures !FileRead(env, c, wide, buf, pos, g, f)
  {
    hide ParseEntry;
  }

  // ------------------------------------------------------------------ what is written

  /** The words of a written BND4 entry; those of a read one, and the size before compression. */
  ghost predicate Entry4Spelled(buf: bytes, pos: nat, be: bool, bitBig: bool, format: byte, v: Fields) {
    var dataAt := pos + if Bit(format, 32) then 24 else 16;
    var idAt := dataAt + if Bit(format, 16) then 8 else 4;
    var nameAt := idAt + if Bit(format, 2) then 4 else 0;
    var tail := nameAt + if Bit(format, 4) || Bit(format, 8) then 4 else 0;
    && tail + (if format == 4 then 8 else 0) <= |buf|
    && FlagByte(buf[pos], bitBig, v.flags) && buf[pos + 1] == 0 && buf[pos + 2] == 0 && buf[pos + 3] == 0
    && I32(buf, pos + 4, be) == -1 && U64(buf, pos + 8, be) == v.compressed
    && (Bit(format, 32) ==> U64(buf, pos + 16, be) == v.uncompressed)
    && (if Bit(format, 16) then I64(buf, dataAt, be) else U32(buf, dataAt, be)) == v.dataPos
    && (Bit(format, 2) ==> I32(buf, idAt, be) == v.id)
    && (Bit(format, 4) || Bit(format, 8) ==> U32(buf, nameAt, be) == v.namePos)
    && (format == 4 ==> I32(buf, tail, be) == v.id && I32(buf, tail + 4, be) == 0)
  }

  ghost predicate Entry3Spelled(buf: bytes, pos: nat, be: bool, bitBig: bool, format: byte, v: Fields) {
    var idAt := pos + if Bit(format, 16) then 16 else 12;
    var nameAt := idAt + if Bit(format, 2) then 4 else 0;
    var tail := nameAt + if Bit(format, 4) || Bit(format, 8) then 4 else 0;
    && tail + (if Bit(format, 32) then 4 else 0) <= |buf|
    && FlagByte(buf[pos], bitBig, v.flags) && buf[pos + 1] == 0 && buf[pos + 2] == 0 && buf[pos + 3] == 0
    && U32(buf, pos + 4, be) == v.compressed
    && (if Bit(format, 16) then I64(buf, pos + 8, be) else U32(buf, pos + 8, be)) == v.dataPos
    && (Bit(format, 2) ==> I32(buf, idAt, be) == v.id)
    && (Bit(format, 4) || Bit(format, 8) ==> U32(buf, nameAt, be) == v.namePos)
    && (Bit(format, 32) ==> U32(buf, tail, be) == v.uncompressed)
  }

  /** Values that every field can hold. */
  ghost predicate Small(v: Fields) {
    && -0x8000_0000 <= v.id < 0x8000_0000 && v.compressed < MAX_SIZE && v.uncompressed < MAX_SIZE
    && v.dataPos < MAX_SIZE && v.namePos < MAX_SIZE
  }

  lemma FlagsSpelled(buf: bytes, pos: nat, bitBig: bool, flags: byte)
    requires At(buf, pos, [WriteFlags(flags, bitBig)]) && At(buf, pos + 1, Fill(3, 0))
    ensures pos + 4 <= |buf| && FlagByte(buf[pos], bitBig, flags) && buf[pos + 1] == 0 && buf[pos + 2] == 0 && buf[pos + 3] == 0
  {
    hide WriteFlags, FlagByte;
    FlagsIs(WriteFlags(flags, bitBig), bitBig, flags);
    SameBytes(buf, pos, [WriteFlags(flags, bitBig)]);
    SameBytes(buf, pos + 1, Fill(3, 0));
    var zeros := Fill(3, 0);
    assert zeros[0] == buf[pos + 1 + 0] && zeros[1] == buf[pos + 1 + 1] && zeros[2] == buf[pos + 1 + 2];
  }

  lemma OffsetSpelled(buf: bytes, pos: nat, g: Geometry, v: nat)
    requires At(buf, pos, Enc(g.be, v, OffsetWidth(g.format))) && v < MAX_SIZE
    ensures if Bit(g.format, 16) then pos + 8 <= |buf| && I64(buf, pos, g.be) == v else pos + 4 <= |buf| && U32(buf, pos, g.be) == v
  {
    hide At, Enc, U32, I64, Bit, HasLongOffsets;
    FormatBits(g.format);
    if Bit(g.format, 16) {
      Stored64(buf, pos, g.be, v);
    } else {
      Stored32(buf, pos, g.be, v);
    }
  }

  lemma TailSpelled(buf: bytes, pos: nat, g: Geometry, v: Fields)
    requires EntryStands(buf, pos, g, v) && Small(v)
    ensures Bit(g.format, 2) ==> pos + IdAt(g) + 4 <= |buf| && I32(buf, pos + IdAt(g), g.be) == v.id
    ensures Bit(g.format, 4) || Bit(g.format, 8) ==> pos + NameAt(g) + 4 <= |buf| && U32(buf, pos + NameAt(g), g.be) == v.namePos
    ensures g.v4 && g.format == 4 ==>
      pos + TailAt(g) + 8 <= |buf| && I32(buf, pos + TailAt(g), g.be) == v.id && I32(buf, pos + TailAt(g) + 4, g.be) == 0
    ensures !g.v4 && Bit(g.format, 32) ==> pos + TailAt(g) + 4 <= |buf| && U32(buf, pos + TailAt(g), g.be) == v.uncompressed
  {
    hide At, Enc, U32, I32, Bit, HasIds, HasNames, HasCompression, HasLongOffsets, IdAt, NameAt, TailAt, DataAt, WriteFlags;
    FormatBits(g.format);
    if HasIds(g.format) {
      Stored32(buf, pos + IdAt(g), g.be, v.id);
    }
    if HasNames(g.format) {
      Stored32(buf, pos + NameAt(g), g.be, v.namePos);
    }
    if g.v4 && g.format == 4 {
      Stored32(buf, pos + TailAt(g), g.be, v.id);
      Stored32(buf, pos + TailAt(g) + 4, g.be, 0);
    }
    if !g.v4 && HasCompression(g.format) {
      Stored32(buf, pos + TailAt(g), g.be, v.uncompressed);
    }
  }

  lemma EntrySpelled(buf: bytes, pos: nat, g: Geometry, v: Fields)
    requires EntryStands(buf, pos, g, v) && Small(v) && pos + EntrySize(g) <= |buf|
    ensures if g.v4 then Entry4Spelled(buf, pos, g.be, g.bitBig, g.format, v) else Entry3Spelled(buf, pos, g.be, g.bitBig, g.format, v)
  {
    hide At, Enc, U32, U64, I32, I64, Bit, HasIds, HasNames, HasCompression, HasLongOffsets, IdAt, NameAt, TailAt, DataAt, EntrySize, WriteFlags,
      FlagByte, OffsetWidth;
    FormatBits(g.format);
    Positions(g);
    FlagsSpelled(buf, pos, g.bitBig, v.flags);
    OffsetSpelled(buf, pos + DataAt(g), g, v.dataPos);
    TailSpelled(buf, pos, g, v);
    if g.v4 {
      Stored32(buf, pos + 4, g.be, -1);
      Stored64(buf, pos + 8, g.be, v.compressed);
      if Bit(g.format, 32) {
        Stored64(buf, pos + 16, g.be, v.uncompressed);
      }
    } else {
      Stored32(buf, pos + 4, g.be, v.compressed);
    }
  }

  /** A name in the encoding that applies, with its terminator: in Unicode archives pairs of bytes in the
      archive's byte order, otherwise single bytes. */
  ghost predicate NameStored(env: Env, buf: bytes, at: int, unicode: bool, be: bool, name: bytes) {
    if !unicode then env.sjis.encode(name).Ok? && At(buf, at, env.sjis.encode(name).value + [0])
    else if be then env.utf16be.encode(name).Ok? && At(buf, at, env.utf16be.encode(name).value + [0, 0])
    else env.utf16le.encode(name).Ok? && At(buf, at, env.utf16le.encode(name).value + [0, 0])
  }

  /** The payload of a file, compressed if it has the lowest flag. */
  ghost predicate PayloadIs(env: Env, f: BinderFile, payload: bytes) {
    if Bit(f.flags, 1) then env.compress(f.data, f.info) == Ok(payload) else payload == f.data
  }

  /** The words of file `i` in a body that stands in a buffer, its name and its payload. */
  lemma FileSpelled(env: Env, unicode: bool, buf: bytes, g: Geometry, files: seq<BinderFile>, stored: seq<StoredFile>, base: nat, nameBase: nat,
                    dataBase: nat, i: nat)
    requires stored == StoreAll(env, NameCodec(env, unicode, g.be), unicode, g.format, files) && i < |files|
    requires BodyStands(buf, g, stored, base, nameBase, dataBase) && |buf| < MAX_SIZE && |files[i].data| < MAX_SIZE && Fits(files[i].id, 4)
    requires StoreName(NameCodec(env, unicode, g.be), unicode, g.format, files[i]).Ok? && StorePayload(env, files[i]).Ok?
    ensures var v, pos := FieldsOf(stored, nameBase, dataBase, i), EntryPos(g, base, i);
      && v.flags == files[i].flags && v.id == files[i].id && v.uncompressed == |files[i].data|
      && (if g.v4 then Entry4Spelled(buf, pos, g.be, g.bitBig, g.format, v) else Entry3Spelled(buf, pos, g.be, g.bitBig, g.format, v))
      && (Bit(g.format, 4) || Bit(g.format, 8) ==> NameStored(env, buf, v.namePos, unicode, g.be, TextOf(files[i].name)))
      && At(buf, v.dataPos, stored[i].payload) && v.compressed == |stored[i].payload| && PayloadIs(env, files[i], stored[i].payload)
  {
    hide At, Entry, EntryStands, Entry4Spelled, Entry3Spelled, EntryTable, NameTable, DataTable, EntryPos, NamePos, DataPos, DataEnd, HasNames, Bit, Fits;
    Widths();
    var v, pos := FieldsOf(stored, nameBase, dataBase, i), EntryPos(g, base, i);
    FormatBits(g.format);
    RecordsStand(buf, g, stored, base, nameBase, dataBase, i);
    EntryFieldsStand(buf, pos, g, v);
    StoredParts(env, NameCodec(env, unicode, g.be), unicode, g.format, files, i);
    InsideBuffer(buf, pos, Entry(g, v));
    InsideBuffer(buf, v.namePos, stored[i].name);
    InsideBuffer(buf, v.dataPos, stored[i].payload);
    IdInRange(files[i].id);
    EntrySpelled(buf, pos, g, v);
    PayloadStored(env, files[i]);
  }

  lemma PayloadStored(env: Env, f: BinderFile)
    requires StorePayload(env, f).Ok?
    ensures PayloadIs(env, f, StorePayload(env, f).value)
  {
  }

  // ------------------------------------------------------------------ how a body is packed

  /** The room a name takes up: its code and a terminator of one byte, or two in Unicode archives. */
  function NameRoom(env: Env, unicode: bool, be: bool, format: byte, f: BinderFile): nat {
    var name := TextOf(f.name);
    var code := if !unicode then env.sjis.encode(name) else if be then env.utf16be.encode(name) else env.utf16le.encode(name);
    if Bit(format, 4) || Bit(format, 8) then |OrEmpty(code)| + (if unicode then 2 else 1) else 0
  }

  /** Names from `start` up to `end`, without gaps. */
  ghost predicate NamesPacked(env: Env, unicode: bool, be: bool, format: byte, files: seq<BinderFile>, vs: seq<Fields>, start: nat, end: nat)
    requires |vs| == |files|
  {
    var n := |files|;
    if n > 0 && (Bit(format, 4) || Bit(format, 8)) then
      && vs[0].namePos == start && end == vs[n - 1].namePos + NameRoom(env, unicode, be, format, files[n - 1])
      && forall i, j :: 0 <= i && j == i + 1 < n ==> vs[j].namePos == vs[i].namePos + NameRoom(env, unicode, be, format, files[i])
    else end == start
  }

  /** Where the payload in front of the `i`-th ends. */
  function EndBefore(vs: seq<Fields>, start: nat, i: nat): nat
    requires i <= |vs|
  {
    if i == 0 then start else vs[i - 1].dataPos + vs[i - 1].compressed
  }

  /** Payloads from `start` on: on the next multiple of 16, unless the file is empty, with zeros between. */
  ghost predicate PayloadPacked(buf: bytes, files: seq<BinderFile>, vs: seq<Fields>, start: nat, i: nat)
    requires |vs| == |files|
  {
    i < |vs|
    && vs[i].dataPos == (if |files[i].data| > 0 then (EndBefore(vs, start, i) + 15) / 16 * 16 else EndBefore(vs, start, i))
    && vs[i].dataPos <= |buf| && forall k :: EndBefore(vs, start, i) <= k < vs[i].dataPos ==> buf[k] == 0
  }

  /** The fields of all entries. */
  function BodyFields(files: seq<StoredFile>, nameBase: nat, dataBase: nat): (vs: seq<Fields>)
    ensures |vs| == |files| && forall i :: 0 <= i < |vs| ==> vs[i] == FieldsOf(files, nameBase, dataBase, i)
  {
    seq(|files|, i requires 0 <= i < |files| => FieldsOf(files, nameBase, dataBase, i))
  }

  lemma NameLength(env: Env, unicode: bool, be: bool, format: byte, files: seq<BinderFile>, stored: seq<StoredFile>, i: nat)
    requires stored == StoreAll(env, NameCodec(env, unicode, be), unicode, format, files) && i < |files|
    requires StoreName(NameCodec(env, unicode, be), unicode, format, files[i]).Ok?
    ensures |stored[i].name| == NameRoom(env, unicode, be, format, files[i])
  {
    hide Bit, HasNames;
    FormatBits(format);
  }

  lemma {:induction false} NoNameBytes(files: seq<StoredFile>, base: nat, k: nat)
    requires k <= |files| && forall i :: 0 <= i < k ==> |files[i].name| == 0
    ensures NamePos(files, base, k) == base
  {
    if k > 0 {
      NoNameBytes(files, base, k - 1);
    }
  }

  lemma {:induction false} NamesAssembled(env: Env, unicode: bool, be: bool, format: byte, files: seq<BinderFile>, stored: seq<StoredFile>, base: nat, dataBase: nat)
    requires stored == StoreAll(env, NameCodec(env, unicode, be), unicode, format, files)
    requires forall i :: 0 <= i < |files| ==> StoreName(NameCodec(env, unicode, be), unicode, format, files[i]).Ok?
    ensures NamesPacked(env, unicode, be, format, files, BodyFields(stored, base, dataBase), base, NamePos(stored, base, |files|))
  {
    hide NamePos, DataPos, StoreAll, StoreName, NameCodec, NameRoom, Bit;
    forall i | 0 <= i < |files|
      ensures NamePos(stored, base, i + 1) == NamePos(stored, base, i) + NameRoom(env, unicode, be, format, files[i])
      ensures |stored[i].name| == NameRoom(env, unicode, be, format, files[i])
    {
      NextName(stored, base, i);
      NameLength(env, unicode, be, format, files, stored, i);
    }
    NameBegins(stored, base);
    if !(Bit(format, 4) || Bit(format, 8)) {
      NoNames(env, unicode, be, format, files);
      NoNameBytes(stored, base, |files|);
    }
  }

  lemma NameBegins(files: seq<StoredFile>, base: nat)
    ensures NamePos(files, base, 0) == base
  {
  }

  lemma NoNames(env: Env, unicode: bool, be: bool, format: byte, files: seq<BinderFile>)
    requires !(Bit(format, 4) || Bit(format, 8))
    ensures forall i :: 0 <= i < |files| ==> NameRoom(env, unicode, be, format, files[i]) == 0
  {
    hide Bit;
  }

  lemma DataSteps(files: seq<StoredFile>, base: nat, i: nat)
    requires i < |files|
    ensures DataPos(files, base, i) == (var e := DataEnd(files, base, i); if files[i].size > 0 then (e + 15) / 16 * 16 else e)
    ensures DataEnd(files, base, i + 1) == DataPos(files, base, i) + |files[i].payload|
  {
    hide AlignUp;
    RoundsUp(DataEnd(files, base, i), 16);
  }

  lemma DataBegins(files: seq<StoredFile>, base: nat)
    ensures DataEnd(files, base, 0) == base
  {
  }

  lemma {:induction false} EndsSame(files: seq<StoredFile>, nameBase: nat, dataBase: nat, i: nat)
    requires i <= |files|
    ensures EndBefore(BodyFields(files, nameBase, dataBase), dataBase, i) == DataEnd(files, dataBase, i)
  {
    hide NamePos, DataPos, DataEnd;
    DataBegins(files, dataBase);
    if i > 0 {
      DataSteps(files, dataBase, i - 1);
    }
  }

  lemma PayloadAssembled(env: Env, c: Codec, wide: bool, format: byte, buf: bytes, g: Geometry, files: seq<BinderFile>, stored: seq<StoredFile>,
                         base: nat, nameBase: nat, dataBase: nat, i: nat)
    requires stored == StoreAll(env, c, wide, format, files) && i < |files|
    requires BodyStands(buf, g, stored, base, nameBase, dataBase)
    ensures PayloadPacked(buf, files, BodyFields(stored, nameBase, dataBase), dataBase, i)
  {
    hide At, EntryTable, NameTable, DataTable, Entry, NamePos, EntryPos, DataPos, DataEnd, EndBefore, StoreAll;
    StoredParts(env, c, wide, format, files, i);
    RecordsStand(buf, g, stored, base, nameBase, dataBase, i);
    EndsSame(stored, nameBase, dataBase, i);
    DataSteps(stored, dataBase, i);
    ZerosAt(buf, DataEnd(stored, dataBase, i), DataPos(stored, dataBase, i) - DataEnd(stored, dataBase, i));
  }

  /** A file that can be written: its name in the encoding that applies, if names are written, and its
      payload. */
  ghost predicate FileWritable(env: Env, unicode: bool, be: bool, format: byte, f: BinderFile) {
    var name := TextOf(f.name);
    && (Bit(format, 4) || Bit(format, 8) ==>
          if !unicode then env.sjis.encode(name).Ok? else if be then env.utf16be.encode(name).Ok? else env.utf16le.encode(name).Ok?)
    && (Bit(f.flags, 1) ==> env.compress(f.data, f.info).Ok?)
  }

  lemma FileWritableIs(env: Env, unicode: bool, be: bool, format: byte, f: BinderFile)
    ensures FileWritable(env, unicode, be, format, f) <==> StoreName(NameCodec(env, unicode, be), unicode, format, f).Ok? && StorePayload(env, f).Ok?
  {
    hide HasNames;
    FormatBits(format);
  }
}
