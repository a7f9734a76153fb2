/** The BND2 archive spelled out word by word: which bytes are read as which archive, and what is
    written. */
module Bnd2Words {
  import opened Bytes
  import opened Reading
  import opened Words
  import opened Texts
  import opened Items
  import opened ItemWords
  import opened Bnd2
  import opened Bnd2Reading

  // ------------------------------------------------------------------ the words

  /** Entries have a name offset with the flag of value 8. */
  predicate Wide(b: Archive) {
    Bit(b.fileFlags, 8)
  }

  function EntryAt(b: Archive, i: nat): nat {
    if Wide(b) then 32 + 16 * i else 36 + 12 * i
  }

  ghost predicate FlagWords(buf: bytes, b: Archive) {
    && |buf| >= 8 && buf[..4] == [0x42, 0x4E, 0x44, 0]
    && buf[4] == b.headerFlags && buf[5] == b.fileFlags && buf[6] == b.unk06 && buf[7] == b.unk07
  }

  ghost predicate HeadWords(buf: bytes, b: Archive) {
    && |buf| >= 32 && FlagWords(buf, b)
    && I32(buf, 8, false) == b.version && I32(buf, 16, false) == |b.files| && I32(buf, 20, false) >= 0
    && U16(buf, 24, false) == b.alignment && buf[26] == b.mode <= 3 && buf[27] == b.unk1b <= 1
    && U32(buf, 28, false) == 0 && (Wide(b) || (|buf| >= 36 && U32(buf, 32, false) == 0))
  }

  /** In path mode 3 the base directory stands where the head says. */
  ghost predicate BaseWords(c: Codec, buf: bytes, b: Archive) {
    && |buf| >= 24 && b.baseDirectory.Some?
    && if b.mode == 3 && Wide(b) then TextFound(c, buf, I32(buf, 20, false), b.baseDirectory.value) else b.baseDirectory.value == []
  }

  /** A file is named by the text its entry points to; in path mode 0 by its id in decimal; and by nothing
      where entries have no name offset. */
  ghost predicate NameWords(c: Codec, buf: bytes, pos: nat, b: Archive, id: int, name: bytes) {
    if !Wide(b) then name == []
    else pos + 4 <= |buf|
         && if b.mode == 0 then Number(name, id) else I32(buf, pos, false) >= 0 && TextFound(c, buf, I32(buf, pos, false), name)
  }

  ghost predicate FileCarried(c: Codec, buf: bytes, b: Archive, i: nat) {
    i < |b.files|
    && var f, pos := b.files[i], EntryAt(b, i);
       && pos + 12 <= |buf| && I32(buf, pos, false) == f.id && I32(buf, pos + 4, false) >= 0 && I32(buf, pos + 8, false) >= 0
       && f.name.Some? && NameWords(c, buf, pos + 12, b, f.id, f.name.value)
       && DataFound(buf, I32(buf, pos + 4, false), I32(buf, pos + 8, false), f.data)
  }

  ghost predicate Carries(c: Codec, buf: bytes, b: Archive) {
    && HeadWords(buf, b) && BaseWords(c, buf, b)
    && forall i :: 0 <= i < |b.files| ==> FileCarried(c, buf, b, i)
  }

  // ------------------------------------------------------------------ reading

  function HeadFor(b: Archive, base: nat): Head {
    Head(b.headerFlags, b.fileFlags, b.unk06, b.unk07, b.version, |b.files|, base, b.alignment, b.mode, b.unk1b)
  }

  lemma WideIs(fileFlags: byte)
    ensures HasNameOffsets(fileFlags) <==> Bit(fileFlags, 8)
  {
  }

  lemma FlagsRead(buf: bytes, b: Archive)
    ensures ParseFlags(buf) == Ok(Flags(b.headerFlags, b.fileFlags, b.unk06, b.unk07)) <==> FlagWords(buf, b)
  {
    hide GetUInt, ExpectByte;
    ReadOption(buf, 3, {0});
    ReadByte(buf, 4);
    ReadByte(buf, 5);
    ReadByte(buf, 6);
    ReadByte(buf, 7);
    assert |buf| >= 4 ==> buf[..4] == buf[0..3] + [buf[3]];
  }

  lemma ZerosRead(buf: bytes, fileFlags: byte)
    ensures ParseZeros(buf, fileFlags).Ok? <==>
      |buf| >= 32 && U32(buf, 28, false) == 0 && (Bit(fileFlags, 8) || (|buf| >= 36 && U32(buf, 32, false) == 0))
  {
    hide GetUInt, U32, HasNameOffsets, Bit;
    WideIs(fileFlags);
    Read32(buf, 28, false);
    Read32(buf, 32, false);
  }

  lemma ModeRead(buf: bytes)
    ensures var r := ExpectByte(buf, 26, MODES); r.Ok? <==> |buf| > 26 && buf[26] <= 3
    ensures var r := ExpectByte(buf, 26, MODES); r.Ok? ==> r.value == buf[26]
    ensures var r := ExpectByte(buf, 27, UNK1B_OPTIONS); r.Ok? <==> |buf| > 27 && buf[27] <= 1
    ensures var r := ExpectByte(buf, 27, UNK1B_OPTIONS); r.Ok? ==> r.value == buf[27]
  {
    hide ExpectByte;
    ReadOption(buf, 26, MODES);
    ReadOption(buf, 27, UNK1B_OPTIONS);
  }

  lemma HeadRead(buf: bytes, b: Archive, base: nat)
    ensures ParseHead(buf) == Ok(HeadFor(b, base)) <==> HeadWords(buf, b) && I32(buf, 20, false) == base
  {
    hide GetUInt, GetSInt, ExpectByte, ParseFlags, ParseZeros, FlagWords, U16, U32, I32, MODES, UNK1B_OPTIONS, Bit;
    FlagsRead(buf, b);
    Read32(buf, 8, false);
    Read32(buf, 16, false);
    Read32(buf, 20, false);
    Read16(buf, 24, false);
    ModeRead(buf);
    ZerosRead(buf, b.fileFlags);
    ZeroWord(buf);
    FlagsInRange(buf);
  }

  lemma ZeroWord(buf: bytes)
    ensures |buf| >= 16 ==> SeekTo(buf, 16) == Ok(16)
  {
  }

  lemma FlagsInRange(buf: bytes)
    ensures var r := ParseFlags(buf); r.Ok? ==> |buf| >= 8
  {
    hide GetUInt, ExpectByte;
    ReadByte(buf, 7);
  }

  lemma BaseRead(c: Codec, buf: bytes, b: Archive, h: Head)
    requires b.baseDirectory.Some? && h == HeadFor(b, h.base) && |buf| >= 24 && I32(buf, 20, false) == h.base
    ensures ParseBase(c, buf, h) == Ok(b.baseDirectory.value) <==> BaseWords(c, buf, b)
  {
    hide GetText, TextFound, I32, HasNameOffsets, Bit;
    WideIs(b.fileFlags);
    TextIs(c, buf, h.base, b.baseDirectory.value);
  }

  lemma NameRead(c: Codec, buf: bytes, pos: nat, b: Archive, h: Head, id: int, name: bytes)
    requires h == HeadFor(b, h.base)
    ensures ParseName(c, buf, pos, h, id) == Ok(name) <==> NameWords(c, buf, pos, b, id, name)
  {
    hide GetText, GetSInt, TextFound, Number, DecimalText, I32, HasNameOffsets, Bit;
    WideIs(b.fileFlags);
    Read32(buf, pos, false);
    NumberIs(id, name);
    if pos + 4 <= |buf| {
      TextIs(c, buf, I32(buf, pos, false), name);
    }
  }

  /** File `i` as the parser finds it. */
  ghost predicate FileRead(c: Codec, buf: bytes, h: Head, i: nat, f: File) {
    var x := ParseEntry(c, buf, EntryStart(h, i), h);
    x.Ok? && ParseData(buf, x.value) == Ok(f.data) && f.id == x.value.id && f.name == Some(x.value.name)
  }

  lemma OneRead(c: Codec, buf: bytes, b: Archive, h: Head, i: nat)
    requires h == HeadFor(b, h.base) && i < |b.files|
    ensures FileRead(c, buf, h, i, b.files[i]) <==> FileCarried(c, buf, b, i)
  {
    hide GetSInt, ParseName, NameWords, I32, HasNameOffsets, Bit;
    WideIs(b.fileFlags);
    var pos, f := EntryAt(b, i), b.files[i];
    assert EntryStart(h, i) == pos;
    Read32(buf, pos, false);
    Read32(buf, pos + 4, false);
    Read32(buf, pos + 8, false);
    if f.name.Some? {
      NameRead(c, buf, pos + 12, b, h, f.id, f.name.value);
    }
  }

  lemma {:induction false} EntriesFound(c: Codec, buf: bytes, h: Head, n: nat)
    requires ParseEntries(c, buf, h, n).Ok?
    ensures forall i :: 0 <= i < n ==> ParseEntry(c, buf, EntryStart(h, i), h) == Ok(ParseEntries(c, buf, h, n).value[i])
  {
    hide ParseEntry, EntryStart;
    if n > 0 {
      EntriesFound(c, buf, h, n - 1);
    }
  }

  lemma {:induction false} AllEntriesFound(c: Codec, buf: bytes, h: Head, n: nat)
    requires forall i :: 0 <= i < n ==> ParseEntry(c, buf, EntryStart(h, i), h).Ok?
    ensures ParseEntries(c, buf, h, n).Ok?
  {
    hide ParseEntry, EntryStart;
    if n > 0 {
      AllEntriesFound(c, buf, h, n - 1);
      var i := n - 1;
      assert ParseEntry(c, buf, EntryStart(h, i), h).Ok?;
    }
  }

  lemma {:induction false} DataFoundBy(buf: bytes, hs: seq<Header>, files: seq<File>, n: nat)
    requires n <= |hs| == |files|
    ensures ParseFiles(buf, hs, n) == Ok(files[..n])
       <==> forall i :: 0 <= i < n ==> ParseData(buf, hs[i]) == Ok(files[i].data) && files[i].id == hs[i].id && files[i].name == Some(hs[i].name)
  {
    hide ParseData;
    if n > 0 {
      DataFoundBy(buf, hs, files, n - 1);
      assert files[..n] == files[..n - 1] + [files[n - 1]];
      var init, data := ParseFiles(buf, hs, n - 1), ParseData(buf, hs[n - 1]);
      if init.Ok? && data.Ok? {
        var last := File(hs[n - 1].id, Some(hs[n - 1].name), data.value);
        assert (init.value + [last])[..n - 1] == init.value && (init.value + [last])[n - 1] == last;
        assert files[..n][..n - 1] == files[..n - 1] && files[..n][n - 1] == files[n - 1];
      }
    }
  }

  lemma BodyRead(c: Codec, buf: bytes, h: Head, files: seq<File>)
    ensures (var hs :- ParseEntries(c, buf, h, |files|); ParseFiles(buf, hs, |files|)) == Ok(files)
       <==> forall i :: 0 <= i < |files| ==> FileRead(c, buf, h, i, files[i])
  {
    hide ParseEntry, ParseData, EntryStart, ParseEntries, ParseFiles;
    var n, r := |files|, ParseEntries(c, buf, h, |files|);
    if r.Err? {
      if forall i :: 0 <= i < n ==> ParseEntry(c, buf, EntryStart(h, i), h).Ok? {
        AllEntriesFound(c, buf, h, n);
      }
      var i :| 0 <= i < n && ParseEntry(c, buf, EntryStart(h, i), h).Err?;
      assert !FileRead(c, buf, h, i, files[i]);
    } else {
      EntriesFound(c, buf, h, n);
      DataFoundBy(buf, r.value, files, n);
      assert files[..n] == files;
      forall i | 0 <= i < n
        ensures FileRead(c, buf, h, i, files[i]) <==>
          ParseData(buf, r.value[i]) == Ok(files[i].data) && files[i].id == r.value[i].id && files[i].name == Some(r.value[i].name)
      {
        assert ParseEntry(c, buf, EntryStart(h, i), h) == Ok(r.value[i]);
      }
    }
  }

  lemma CarriedIsRead(c: Codec, buf: bytes, b: Archive)
    requires Carries(c, buf, b)
    ensures ParseArchive(c, buf) == Ok(b)
  {
    hide ParseHead, ParseBase, ParseEntries, ParseFiles, FlagWords, BaseWords, FileCarried, FileRead, I32, U16, U32;
    var h := HeadFor(b, I32(buf, 20, false));
    HeadRead(buf, b, h.base);
    BaseIsThere(c, buf, b);
    BaseRead(c, buf, b, h);
    forall i | 0 <= i < |b.files|
      ensures FileRead(c, buf, h, i, b.files[i])
    {
      OneRead(c, buf, b, h, i);
    }
    BodyRead(c, buf, h, b.files);
  }

  lemma BaseIsThere(c: Codec, buf: bytes, b: Archive)
    requires BaseWords(c, buf, b)
    ensures b.baseDirectory.Some?
  {
  }

  lemma ReadIsCarried(c: Codec, buf: bytes, b: Archive)
    requires ParseArchive(c, buf) == Ok(b)
    ensures Carries(c, buf, b)
  {
    hide ParseHead, ParseBase, ParseEntries, ParseFiles, HeadWords, BaseWords, FileCarried, FileRead, I32, U16, U32;
    var h := ParseHead(buf).value;
    HeadRead(buf, b, h.base);
    HeadLong(buf, b);
    BaseRead(c, buf, b, h);
    BodyRead(c, buf, h, b.files);
    forall i | 0 <= i < |b.files|
      ensures FileCarried(c, buf, b, i)
    {
      assert FileRead(c, buf, h, i, b.files[i]);
      OneRead(c, buf, b, h, i);
    }
  }

  lemma HeadLong(buf: bytes, b: Archive)
    requires HeadWords(buf, b)
    ensures |buf| >= 32
  {
  }

  /** What is read, to the word: the parser returns an archive exactly for the bytes that carry it. */
  lemma ReadExactly(c: Codec, buf: bytes, b: Archive)
    ensures ParseArchive(c, buf) == Ok(b) <==> Carries(c, buf, b)
  {
    hide ParseArchive, Carries;
    if ParseArchive(c, buf) == Ok(b) {
      ReadIsCarried(c, buf, b);
    }
    if Carries(c, buf, b) {
      CarriedIsRead(c, buf, b);
    }
  }

  // ------------------------------------------------------------------ writing

  /** The text written for a name: in path mode 2 one without a drive, that is without a colon as its
      second byte, is put on drive K. */
  ghost predicate NameText(mode: byte, name: bytes, text: bytes) {
    if mode == 2 && (|name| < 2 || name[1] != 0x3A) then text == [0x4B, 0x3A, 0x5C] + name else text == name
  }

  /** File `i`: its entry, with the payload's place, the name's place or zero, the name and the payload. */
  ghost predicate FileWritten(c: Codec, buf: bytes, b: Archive, i: nat, at: nat, name: nat) {
    i < |b.files|
    && var f := b.files[i];
       && EntryWords(buf, EntryAt(b, i), Wide(b), f.id, at, |f.data|, name) && At(buf, at, f.data)
       && if Wide(b) && b.mode != 0 then exists text :: NameText(b.mode, TextOf(f.name), text) && TextStored(c, buf, name, text) else name == 0
  }

  /** How long the code of a file's name is with its terminator, if names are written. */
  function NameRoom(c: Codec, b: Archive, i: nat): nat
    requires i < |b.files|
  {
    var name := TextOf(b.files[i].name);
    var text := if b.mode == 2 && (|name| < 2 || name[1] != 0x3A) then [0x4B, 0x3A, 0x5C] + name else name;
    if Wide(b) && b.mode != 0 then |OrEmpty(c.encode(text))| + 1 else 0
  }

  ghost predicate HeadWritten(c: Codec, buf: bytes, b: Archive, base: nat) {
    && |buf| >= 32 && FlagWords(buf, b) && I32(buf, 8, false) == b.version && I32(buf, 12, false) == |buf|
    && I32(buf, 16, false) == |b.files| && U16(buf, 24, false) == b.alignment && buf[26] == b.mode && buf[27] == b.unk1b
    && U32(buf, 28, false) == 0 && (Wide(b) || (|buf| >= 36 && U32(buf, 32, false) == 0))
    && I32(buf, 20, false) == base
    && if Wide(b) && b.mode == 3 then TextStored(c, buf, base, TextOf(b.baseDirectory)) && base == EntryAt(b, |b.files|) else base == 0
  }

  /** Where the first name stands: behind the entries and the base directory. */
  function NamesStart(c: Codec, b: Archive): nat {
    EntryAt(b, |b.files|) + if Wide(b) && b.mode == 3 then |OrEmpty(c.encode(TextOf(b.baseDirectory)))| + 1 else 0
  }

  /** The places of payloads and names, and the end of the names. */
  ghost predicate Packed(c: Codec, buf: bytes, b: Archive, ats: seq<nat>, names: seq<nat>, namesEnd: nat) {
    && |ats| == |b.files| && |names| == |b.files|
    && (if b.files == [] then namesEnd == NamesStart(c, b) && |buf| == namesEnd
        else |buf| == ats[|ats| - 1] + |b.files[|ats| - 1].data|)
    && forall i :: 0 <= i < |b.files| ==> PackedAt(c, buf, b, ats, names, namesEnd, i)
  }

  /** Name `i` follows the names in front of it, and payload `i` the payloads, on the next multiple of the
      alignment, with zeros between. */
  ghost predicate PackedAt(c: Codec, buf: bytes, b: Archive, ats: seq<nat>, names: seq<nat>, namesEnd: nat, i: nat) {
    i < |b.files| == |ats| == |names|
    && (Wide(b) && b.mode != 0 ==>
          && names[i] == (if i == 0 then NamesStart(c, b) else names[i - 1] + NameRoom(c, b, i - 1))
          && (i == |names| - 1 ==> namesEnd == names[i] + NameRoom(c, b, i)))
    && (!(Wide(b) && b.mode != 0) ==> namesEnd == NamesStart(c, b))
    && var before := if i == 0 then namesEnd else ats[i - 1] + |b.files[i - 1].data|;
       && ats[i] == Rounded(before, b.alignment) && ats[i] <= |buf|
       && forall k :: before <= k < ats[i] ==> buf[k] == 0
  }

  /** An archive that can be written. */
  ghost predicate Target(c: Codec, b: Archive) {
    && Writable(c, b) && Fits(b.version, 4) && b.alignment < 0x1_0000
    && forall i :: 0 <= i < |b.files| ==> Fits(b.files[i].id, 4)
  }

  lemma TargetPieces(c: Codec, b: Archive)
    requires Target(c, b)
    ensures var p := PlanOf(c, b);
      && Shaped(p) && ImageStands(Image(p, 0), p, 0) && |p.items| == |b.files| && |Image(p, 0)| == PayloadsEnd(p) < 0x8000_0000
      && p.wide == Wide(b) && p.named == (Wide(b) && b.mode != 0) && p.align == b.alignment
      && p.kind == [b.headerFlags, b.fileFlags, b.unk06, b.unk07] && p.version == b.version && p.tail == Enc(false, b.alignment, 2) + [b.mode, b.unk1b]
      && p.directory == (if Wide(b) && b.mode == 3 then c.encode(TextOf(b.baseDirectory)).value + [0] else [])
      && (Wide(b) && b.mode == 3 ==> c.encode(TextOf(b.baseDirectory)).Ok?)
      && HeadStands(Image(p, 0), p, PayloadsEnd(p))
  {
    hide At, Enc, Image, HeadStands, EntryRows, NameRows, DataRows, Flatten, DataEnd, PiecesOf, Bit, HasNameOffsets, Fits, Terminator;
    var p := PlanOf(c, b);
    WideIs(b.fileFlags);
    PlanShape(c, b);
    ImagePieces(p, 0);
    Pieces(Image(p, 0), p);
    OneZero();
  }

  lemma OneZero()
    ensures Terminator(false) == [0]
  {
  }

  lemma MarkSpelled(buf: bytes, b: Archive)
    requires At(buf, 0, MAGIC) && At(buf, 4, [b.headerFlags, b.fileFlags, b.unk06, b.unk07])
    ensures FlagWords(buf, b)
  {
    var s := [b.headerFlags, b.fileFlags, b.unk06, b.unk07];
    SameBytes(buf, 4, s);
    assert s[0] == buf[4 + 0] && s[1] == buf[4 + 1] && s[2] == buf[4 + 2] && s[3] == buf[4 + 3];
    assert buf[..4] == buf[0..4];
  }

  lemma TailSpelled(buf: bytes, b: Archive)
    requires At(buf, 24, Enc(false, b.alignment, 2) + [b.mode, b.unk1b]) && b.alignment < 0x1_0000
    ensures |buf| >= 28 && U16(buf, 24, false) == b.alignment && buf[26] == b.mode && buf[27] == b.unk1b
  {
    hide Enc, U16;
    var s := [b.mode, b.unk1b];
    AtSplit(buf, 24, Enc(false, b.alignment, 2), s);
    Stored16(buf, 24, false, b.alignment);
    SameBytes(buf, 26, s);
    assert s[0] == buf[26 + 0] && s[1] == buf[26 + 1];
  }

  lemma DirectoryIs(p: Plan)
    ensures DirectoryField(p) == (if p.directory == [] then 0 else DirectoryPos(p)) && NamesAt(p) == DirectoryPos(p) + |p.directory|
  {
    hide DirectoryPos;
  }

  lemma EntryPlaces(b: Archive, p: Plan)
    requires p.wide == Wide(b)
    ensures forall i: nat :: EntryPos(p, i) == EntryAt(b, i)
    ensures DirectoryPos(p) == EntryPos(p, |p.items|)
  {
    hide Wide;
  }

  lemma HeadSpelled(c: Codec, b: Archive)
    requires Target(c, b)
    ensures var p := PlanOf(c, b); HeadWritten(c, Image(p, 0), b, DirectoryField(p)) && NamesAt(p) == NamesStart(c, b)
  {
    hide At, Enc, Image, ImageStands, U16, U32, I32, FlagWords, PlanOf, PayloadsEnd, EntryPos, EntryAt, DirectoryPos, DirectoryField, NamesAt, Writable, Fits,
      Wide, WritesBase;
    var p := PlanOf(c, b);
    TargetPieces(c, b);
    var buf := Image(p, 0);
    MarkSpelled(buf, b);
    TailSpelled(buf, b);
    IdInRange(b.version);
    DirectoryIs(p);
    EntryPlaces(b, p);
    PositionsBelowEnd(p, 0);
    Stored32(buf, 8, false, p.version);
    Stored32(buf, 12, false, PayloadsEnd(p));
    Stored32(buf, 16, false, |p.items|);
    Stored32(buf, 20, false, DirectoryField(p));
    Stored32(buf, 28, false, 0);
    if !p.wide {
      Stored32(buf, 32, false, 0);
    }
    DirectoryThere(buf, p);
  }

  lemma DirectoryThere(buf: bytes, p: Plan)
    requires ImageStands(buf, p, 0)
    ensures At(buf, DirectoryPos(p), p.directory)
  {
    hide At, HeadStands, Flatten, EntryRows, NameRows, DataRows, DirectoryPos, NamesAt, NamesEnd, PayloadsEnd;
  }

  lemma NameIs(c: Codec, b: Archive, i: nat)
    requires Target(c, b) && i < |b.files|
    ensures var p, name := PlanOf(c, b), TextOf(b.files[i].name);
      && |p.items| == |b.files| && p.items[i].id == b.files[i].id && p.items[i].data == b.files[i].data && Fits(b.files[i].id, 4)
      && if Wide(b) && b.mode != 0 then
           var text := if b.mode == 2 && (|name| < 2 || name[1] != 0x3A) then [0x4B, 0x3A, 0x5C] + name else name;
           NameText(b.mode, name, text) && c.encode(text).Ok? && p.items[i].name == c.encode(text).value + [0]
         else p.items[i].name == []
  {
    hide Enc, Image, PayloadsEnd, HasNameOffsets, Bit, Fits;
    WideIs(b.fileFlags);
    OneZero();
  }

  lemma RoomIs(c: Codec, b: Archive, i: nat)
    requires Target(c, b) && i < |b.files|
    ensures |PlanOf(c, b).items| == |b.files| && |PlanOf(c, b).items[i].name| == NameRoom(c, b, i)
  {
    hide Enc, Image, PayloadsEnd, Wide, Fits, PlanOf, Writable;
    NameIs(c, b, i);
  }

  lemma OneFileWritten(c: Codec, b: Archive, i: nat)
    requires Target(c, b) && i < |b.files|
    ensures var p := PlanOf(c, b); |p.items| == |b.files| && FileWritten(c, Image(p, 0), b, i, PayloadAt(p, i), NameField(p, i))
  {
    hide *;
    var p := PlanOf(c, b);
    TargetPieces(c, b);
    NameIs(c, b, i);
    EntryPlaces(b, p);
    NameFieldIs(p, i);
    EntrySpelled(Image(p, 0), p, 0, i);
    FileAssembled(c, Image(p, 0), b, p, i);
  }

  lemma FileAssembled(c: Codec, buf: bytes, b: Archive, p: Plan, i: nat)
    requires i < |p.items| == |b.files| && p.wide == Wide(b) && p.named == (Wide(b) && b.mode != 0) && EntryPos(p, i) == EntryAt(b, i)
    requires p.items[i].id == b.files[i].id && p.items[i].data == b.files[i].data
    requires Wide(b) && b.mode != 0 ==>
      var name := TextOf(b.files[i].name);
      var text := if b.mode == 2 && (|name| < 2 || name[1] != 0x3A) then [0x4B, 0x3A, 0x5C] + name else name;
      NameText(b.mode, name, text) && c.encode(text).Ok? && p.items[i].name == c.encode(text).value + [0]
    requires NameField(p, i) == if p.named then NamePos(p, i) else 0
    requires EntryWords(buf, EntryPos(p, i), p.wide, p.items[i].id, PayloadAt(p, i), |p.items[i].data|, NameField(p, i))
    requires At(buf, PayloadAt(p, i), p.items[i].data) && At(buf, NamePos(p, i), p.items[i].name)
    ensures FileWritten(c, buf, b, i, PayloadAt(p, i), NameField(p, i))
  {
    hide At, EntryWords, NameField, NamePos, PayloadAt, EntryPos, EntryAt, Wide, NameText;
  }

  function PayloadPlaces(p: Plan): (s: seq<nat>)
    ensures |s| == |p.items| && forall i :: 0 <= i < |s| ==> s[i] == PayloadAt(p, i)
  {
    seq(|p.items|, i requires 0 <= i < |p.items| => PayloadAt(p, i))
  }

  function NamePlaces(p: Plan): (s: seq<nat>)
    ensures |s| == |p.items| && forall i :: 0 <= i < |s| ==> s[i] == NamePos(p, i)
  {
    seq(|p.items|, i requires 0 <= i < |p.items| => NamePos(p, i))
  }

  lemma {:induction false} NoNameBytes(c: Codec, b: Archive, k: nat)
    requires Target(c, b) && !(Wide(b) && b.mode != 0) && k <= |b.files|
    ensures |PlanOf(c, b).items| == |b.files| && NamePos(PlanOf(c, b), k) == NamesAt(PlanOf(c, b))
  {
    hide *;
    TargetPieces(c, b);
    var p := PlanOf(c, b);
    NameEnds(p);
    if k > 0 {
      NoNameBytes(c, b, k - 1);
      ItemStands(Image(p, 0), p, 0, k - 1);
      NameIs(c, b, k - 1);
    }
  }

  lemma OnePacked(c: Codec, b: Archive, i: nat)
    requires Target(c, b) && i < |b.files|
    ensures var p := PlanOf(c, b);
      |p.items| == |b.files| && PackedAt(c, Image(p, 0), b, PayloadPlaces(p), NamePlaces(p), NamesEnd(p), i)
  {
    hide *;
    var p := PlanOf(c, b);
    TargetPieces(c, b);
    HeadSpelled(c, b);
    NameEnds(p);
    ItemStands(Image(p, 0), p, 0, i);
    RoomIs(c, b, i);
    if i > 0 {
      ItemStands(Image(p, 0), p, 0, i - 1);
      RoomIs(c, b, i - 1);
      SameData(c, b, i - 1);
    }
    if !(Wide(b) && b.mode != 0) {
      NoNameBytes(c, b, |b.files|);
    }
    PayloadPacked(Image(p, 0), p, 0, i);
    PackedAssembled(c, Image(p, 0), b, p, i);
  }

  lemma PackedAssembled(c: Codec, buf: bytes, b: Archive, p: Plan, i: nat)
    requires i < |p.items| == |b.files| && p.align == b.alignment
    requires NamePos(p, 0) == NamesAt(p) == NamesStart(c, b) && NamesEnd(p) == NamePos(p, |p.items|)
    requires NamePos(p, i + 1) == NamePos(p, i) + NameRoom(c, b, i)
    requires i > 0 ==> NamePos(p, i) == NamePos(p, i - 1) + NameRoom(c, b, i - 1) && p.items[i - 1].data == b.files[i - 1].data
    requires !(Wide(b) && b.mode != 0) ==> NamePos(p, |p.items|) == NamesAt(p)
    requires var before := if i == 0 then NamesEnd(p) else PayloadAt(p, i - 1) + |p.items[i - 1].data|;
      && PayloadAt(p, i) == Rounded(before, p.align) && PayloadAt(p, i) <= |buf|
      && forall k :: before <= k < PayloadAt(p, i) ==> buf[k] == 0
    ensures PackedAt(c, buf, b, PayloadPlaces(p), NamePlaces(p), NamesEnd(p), i)
  {
    hide Wide, NamesAt, NamePos, NamesEnd, PayloadAt, NameRoom, NamesStart, Rounded;
  }

  lemma SameData(c: Codec, b: Archive, i: nat)
    requires Target(c, b) && i < |b.files|
    ensures |PlanOf(c, b).items| == |b.files| && PlanOf(c, b).items[i].data == b.files[i].data
  {
    hide *;
    NameIs(c, b, i);
  }

  lemma EndsPacked(c: Codec, b: Archive)
    requires Target(c, b)
    ensures var p := PlanOf(c, b);
      && |p.items| == |b.files|
      && if b.files == [] then NamesEnd(p) == NamesStart(c, b) && |Image(p, 0)| == NamesEnd(p)
         else |Image(p, 0)| == PayloadAt(p, |b.files| - 1) + |b.files[|b.files| - 1].data|
  {
    hide Target, Wide, PlanOf, NamesAt, NamePos, NamesEnd, DataEnd, DataPos, Image, ImageStands, NamesStart, HeadWritten, HeadStands;
    var p := PlanOf(c, b);
    TargetPieces(c, b);
    HeadSpelled(c, b);
    NameEnds(p);
    NoData(p.items, p.align, NamesEnd(p));
    if b.files != [] {
      DataStep(p.items, p.align, NamesEnd(p), |b.files| - 1);
      SameData(c, b, |b.files| - 1);
    }
  }

  /** What is written, to the byte: head, entries, base directory, names and payloads, and how they are
      packed. */
  lemma WrittenExactly(c: Codec, b: Archive)
    requires Target(c, b)
    ensures var p := PlanOf(c, b);
      && |p.items| == |b.files| && HeadWritten(c, Image(p, 0), b, DirectoryField(p))
      && Packed(c, Image(p, 0), b, PayloadPlaces(p), NamePlaces(p), NamesEnd(p))
      && forall i :: 0 <= i < |b.files| ==>
           FileWritten(c, Image(p, 0), b, i, PayloadPlaces(p)[i], if Wide(b) && b.mode != 0 then NamePlaces(p)[i] else 0)
  {
    hide Target, Wide, PlanOf, NamesAt, NamePos, NamesEnd, PayloadAt, NameField, Image, ImageStands, NamesStart, HeadWritten, HeadStands, FileWritten,
      PackedAt;
    var p := PlanOf(c, b);
    TargetPieces(c, b);
    HeadSpelled(c, b);
    EndsPacked(c, b);
    forall i | 0 <= i < |b.files|
      ensures FileWritten(c, Image(p, 0), b, i, PayloadPlaces(p)[i], if Wide(b) && b.mode != 0 then NamePlaces(p)[i] else 0)
      ensures PackedAt(c, Image(p, 0), b, PayloadPlaces(p), NamePlaces(p), NamesEnd(p), i)
    {
      OneFileWritten(c, b, i);
      NameFieldIs(p, i);
      OnePacked(c, b, i);
    }
  }

  /** What is read back for a name: nothing, the id in decimal, or the text with its drive. */
  lemma NameReadBack(c: Codec, b: Archive, i: nat)
    requires Recoverable(c, b) && PayloadsEnd(PlanOf(c, b)) <= INT32_MAX && b.mode <= 3 && b.unk1b <= 1 && i < |b.files|
    ensures var r := ParseArchive(c, Image(PlanOf(c, b), 0));
      && r.Ok? && |r.value.files| == |b.files| && r.value.files[i].name.Some?
      && var name := r.value.files[i].name.value;
         if !Wide(b) then name == [] else if b.mode == 0 then Number(name, b.files[i].id) else NameText(b.mode, TextOf(b.files[i].name), name)
  {
    hide ParseArchive, Image, PlanOf, PayloadsEnd, Recoverable, HasNameOffsets, Bit, Number, DecimalText;
    RoundTrip(c, b);
    WideIs(b.fileFlags);
    NumberIs(b.files[i].id, DecimalText(b.files[i].id));
  }

  /** What can be written: texts that can be encoded, and an image of less than 2^31 bytes. */
  lemma WritableMeans(c: Codec, b: Archive)
    ensures Writable(c, b) <==>
      && |Image(PlanOf(c, b), 0)| < 0x8000_0000
      && (Wide(b) && b.mode == 3 ==> c.encode(TextOf(b.baseDirectory)).Ok?)
      && (Wide(b) && b.mode != 0 ==> forall i :: 0 <= i < |b.files| ==> NameWritable(c, b.mode, TextOf(b.files[i].name)))
  {
    hide Image, PlanOf, PayloadsEnd, ImageStands, Bit, HasNameOffsets, Prepared, NameText;
    WideIs(b.fileFlags);
    PlanShape(c, b);
    ImagePieces(PlanOf(c, b), 0);
    Pieces(Image(PlanOf(c, b), 0), PlanOf(c, b));
    forall i | 0 <= i < |b.files|
      ensures NameWritable(c, b.mode, TextOf(b.files[i].name)) <==> c.encode(Prepared(b.mode, TextOf(b.files[i].name))).Ok?
    {
      PreparedIs(b.mode, TextOf(b.files[i].name));
    }
  }

  ghost predicate NameWritable(c: Codec, mode: byte, name: bytes) {
    exists text :: NameText(mode, name, text) && c.encode(text).Ok?
  }

  lemma PreparedIs(mode: byte, name: bytes)
    ensures forall text :: NameText(mode, name, text) <==> text == Prepared(mode, name)
  {
  }

  // ------------------------------------------------------------------ the format check

  /** The quick check in words. */
  lemma FormatCheck(buf: bytes)
    ensures IsFormat(buf) <==>
      && |buf| >= 32 && buf[..4] == [0x42, 0x4E, 0x44, 0] && 202 <= I32(buf, 8, false) <= 211
      && 0 <= I32(buf, 20, false) <= |buf| && buf[26] <= 3 && (buf[26] < 3 ==> I32(buf, 20, false) == 0)
      && buf[27] <= 1 && U32(buf, 28, false) == 0
  {
    hide UnLE, I32, U32;
    Read32(buf, 8, false);
    Read32(buf, 20, false);
    Read32(buf, 28, false);
  }
}
