/** The archive of the first BND generation spelled out word by word: which bytes are read as which
    archive, and what is written. */
module BndWords {
  import opened Bytes
  import opened Reading
  import opened Words
  import opened Texts
  import opened Items
  import opened ItemWords
  import opened Bnd
  import opened BndReading

  // ------------------------------------------------------------------ the words

  ghost predicate HeadWords(buf: bytes, b: Archive) {
    && |buf| >= 32 && buf[..4] == [0x42, 0x4E, 0x44, 0] && U16(buf, 4, false) == 0xFFFF && U16(buf, 6, false) == 0
    && I32(buf, 8, false) == b.version && I32(buf, 16, false) == |b.files| && I32(buf, 20, false) >= 0
    && U16(buf, 24, false) == b.format0 && U16(buf, 26, false) == b.format1 && I32(buf, 28, false) == 0
  }

  /** The root stands where the head says; without a place there is none. */
  ghost predicate RootWords(c: Codec, buf: bytes, b: Archive) {
    && |buf| >= 24 && b.root.Some?
    && if I32(buf, 20, false) == 0 then b.root.value == [] else TextFound(c, buf, I32(buf, 20, false), b.root.value)
  }

  /** A file is named by the text its entry points to; without a place, "File_" and its id. */
  ghost predicate NameWords(c: Codec, buf: bytes, pos: nat, id: int, name: bytes) {
    pos + 4 <= |buf|
    && if U32(buf, pos, false) == 0 then |name| > 5 && name[..5] == [0x46, 0x69, 0x6C, 0x65, 0x5F] && Number(name[5..], id)
       else TextFound(c, buf, U32(buf, pos, false), name)
  }

  ghost predicate FileCarried(c: Codec, buf: bytes, b: Archive, i: nat) {
    i < |b.files|
    && var f, pos := b.files[i], 32 + 16 * i;
       && pos + 16 <= |buf| && I32(buf, pos, false) == f.id
       && f.name.Some? && NameWords(c, buf, pos + 12, f.id, f.name.value)
       && DataFound(buf, U32(buf, pos + 4, false), U32(buf, pos + 8, false), f.data)
  }

  ghost predicate Carries(c: Codec, buf: bytes, b: Archive) {
    && HeadWords(buf, b) && RootWords(c, buf, b)
    && forall i :: 0 <= i < |b.files| ==> FileCarried(c, buf, b, i)
  }

  // ------------------------------------------------------------------ reading

  lemma MarkRead(buf: bytes)
    ensures ParseMark(buf).Ok? <==> |buf| >= 8 && buf[..4] == [0x42, 0x4E, 0x44, 0] && U16(buf, 4, false) == 0xFFFF && U16(buf, 6, false) == 0
  {
    hide GetUInt, ExpectByte, U16;
    ReadOption(buf, 3, {0});
    Read16(buf, 4, false);
    Read16(buf, 6, false);
    assert |buf| >= 4 ==> buf[..4] == buf[0..3] + [buf[3]];
  }

  lemma RootRead(c: Codec, buf: bytes, at: int, root: bytes)
    ensures ParseRoot(c, buf, at) == Ok(root) <==> if at == 0 then root == [] else TextFound(c, buf, at, root)
  {
    hide GetText, TextFound;
    TextIs(c, buf, at, root);
  }

  lemma HeadRead(c: Codec, buf: bytes, b: Archive)
    requires b.root.Some?
    ensures ParseHead(c, buf) == Ok(Head(b.version, |b.files|, b.root.value, b.format0, b.format1)) <==> HeadWords(buf, b) && RootWords(c, buf, b)
  {
    hide GetUInt, GetSInt, ParseMark, ParseRoot, TextFound, U16, I32;
    MarkRead(buf);
    Read32(buf, 8, false);
    Read32(buf, 16, false);
    Read32(buf, 20, false);
    Read16(buf, 24, false);
    Read16(buf, 26, false);
    Read32(buf, 28, false);
    if |buf| >= 24 {
      RootRead(c, buf, I32(buf, 20, false), b.root.value);
    }
  }

  lemma PrefixedNumber(name: bytes, id: int)
    ensures FILE_PREFIX + DecimalText(id) == name <==> |name| > 5 && name[..5] == [0x46, 0x69, 0x6C, 0x65, 0x5F] && Number(name[5..], id)
  {
    hide DecimalText, Number;
    if |name| > 5 {
      NumberIs(id, name[5..]);
    }
    if FILE_PREFIX + DecimalText(id) == name {
      assert name[5..] == DecimalText(id);
    }
  }

  lemma NameRead(c: Codec, buf: bytes, pos: nat, id: int, name: bytes)
    ensures pos + 4 <= |buf| ==> (ParseName(c, buf, U32(buf, pos, false), id) == Ok(name) <==> NameWords(c, buf, pos, id, name))
  {
    hide GetText, TextFound, Number, DecimalText, U32, FILE_PREFIX;
    PrefixedNumber(name, id);
    if pos + 4 <= |buf| {
      TextIs(c, buf, U32(buf, pos, false), name);
    }
  }

  function EntryAt(i: nat): nat { 32 + 16 * i }

  /** File `i` as the parser finds it. */
  ghost predicate FileRead(c: Codec, buf: bytes, i: nat, f: File) {
    var x := ParseEntry(c, buf, EntryAt(i));
    x.Ok? && ParseData(buf, x.value) == Ok(f.data) && f.id == x.value.id && f.name == Some(x.value.name)
  }

  lemma OneRead(c: Codec, buf: bytes, b: Archive, i: nat)
    requires i < |b.files|
    ensures FileRead(c, buf, i, b.files[i]) <==> FileCarried(c, buf, b, i)
  {
    hide GetSInt, GetUInt, ParseName, NameWords, I32, U32;
    var pos, f := EntryAt(i), b.files[i];
    Read32(buf, pos, false);
    Read32(buf, pos + 4, false);
    Read32(buf, pos + 8, false);
    Read32(buf, pos + 12, false);
    if f.name.Some? {
      NameRead(c, buf, pos + 12, f.id, f.name.value);
    }
  }

  lemma {:induction false} EntriesFound(c: Codec, buf: bytes, n: nat)
    requires ParseEntries(c, buf, n).Ok?
    ensures forall i :: 0 <= i < n ==> ParseEntry(c, buf, EntryAt(i)) == Ok(ParseEntries(c, buf, n).value[i])
  {
    hide ParseEntry;
    if n > 0 {
      EntriesFound(c, buf, n - 1);
    }
  }

  lemma {:induction false} AllEntriesFound(c: Codec, buf: bytes, n: nat)
    requires forall i :: 0 <= i < n ==> ParseEntry(c, buf, EntryAt(i)).Ok?
    ensures ParseEntries(c, buf, n).Ok?
  {
    hide ParseEntry;
    if n > 0 {
      AllEntriesFound(c, buf, n - 1);
      var i := n - 1;
      assert ParseEntry(c, buf, EntryAt(i)).Ok?;
    }
  }

  lemma {:induction false} DataFoundBy(buf: bytes, hs: seq<Header>, files: seq<File>, n: nat)
    requires n <= |hs| == |files|
    ensures ParseFiles(buf, hs, n) == Ok(files[..n])
       <==> forall i :: 0 <= i < n ==> ParseData(buf, hs[i]) == Ok(files[i].data) && files[i].id == hs[i].id && files[i].name == Some(hs[i].name)
  {
    hide ParseData;
    if n > 0 {
      DataFoundBy(buf, hs, files, n - 1);
      assert files[..n] == files[..n - 1] + [files[n - 1]];
      var init, data := ParseFiles(buf, hs, n - 1), ParseData(buf, hs[n - 1]);
      if init.Ok? && data.Ok? {
        var last := File(hs[n - 1].id, Some(hs[n - 1].name), data.value);
        assert (init.value + [last])[..n - 1] == init.value && (init.value + [last])[n - 1] == last;
        assert files[..n][..n - 1] == files[..n - 1] && files[..n][n - 1] == files[n - 1];
      }
    }
  }

  lemma BodyRead(c: Codec, buf: bytes, files: seq<File>)
    ensures (var hs :- ParseEntries(c, buf, |files|); ParseFiles(buf, hs, |files|)) == Ok(files)
       <==> forall i :: 0 <= i < |files| ==> FileRead(c, buf, i, files[i])
  {
    hide ParseEntry, ParseData, ParseEntries, ParseFiles, EntryAt;
    var n, r := |files|, ParseEntries(c, buf, |files|);
    if r.Err? {
      if forall i :: 0 <= i < n ==> ParseEntry(c, buf, EntryAt(i)).Ok? {
        AllEntriesFound(c, buf, n);
      }
      var i :| 0 <= i < n && ParseEntry(c, buf, EntryAt(i)).Err?;
      assert !FileRead(c, buf, i, files[i]);
    } else {
      EntriesFound(c, buf, n);
      DataFoundBy(buf, r.value, files, n);
      assert files[..n] == files;
      forall i | 0 <= i < n
        ensures FileRead(c, buf, i, files[i]) <==>
          ParseData(buf, r.value[i]) == Ok(files[i].data) && files[i].id == r.value[i].id && files[i].name == Some(r.value[i].name)
      {
        assert ParseEntry(c, buf, EntryAt(i)) == Ok(r.value[i]);
      }
    }
  }

  lemma CarriedIsRead(c: Codec, buf: bytes, b: Archive)
    requires Carries(c, buf, b)
    ensures ParseArchive(c, buf) == Ok(b)
  {
    hide ParseHead, ParseEntries, ParseFiles, HeadWords, FileCarried, FileRead, I32;
    HeadRead(c, buf, b);
    forall i | 0 <= i < |b.files|
      ensures FileRead(c, buf, i, b.files[i])
    {
      OneRead(c, buf, b, i);
    }
    BodyRead(c, buf, b.files);
  }

  lemma ReadIsCarried(c: Codec, buf: bytes, b: Archive)
    requires ParseArchive(c, buf) == Ok(b)
    ensures Carries(c, buf, b)
  {
    hide ParseHead, ParseEntries, ParseFiles, HeadWords, RootWords, FileCarried, FileRead;
    HeadRead(c, buf, b);
    BodyRead(c, buf, b.files);
    forall i | 0 <= i < |b.files|
      ensures FileCarried(c, buf, b, i)
    {
      assert FileRead(c, buf, i, b.files[i]);
      OneRead(c, buf, b, i);
    }
  }

  /** What is read, to the word: the parser returns an archive exactly for the bytes that carry it. */
  lemma ReadExactly(c: Codec, buf: bytes, b: Archive)
    ensures ParseArchive(c, buf) == Ok(b) <==> Carries(c, buf, b)
  {
    hide ParseArchive, Carries;
    if ParseArchive(c, buf) == Ok(b) {
      ReadIsCarried(c, buf, b);
    }
    if Carries(c, buf, b) {
      CarriedIsRead(c, buf, b);
    }
  }

  // ------------------------------------------------------------------ writing

  /** The text written for a name: "File_" and the place in the archive, if it is empty. */
  ghost predicate NameText(i: nat, name: bytes, text: bytes) {
    if name == [] then |text| > 5 && text[..5] == [0x46, 0x69, 0x6C, 0x65, 0x5F] && Number(text[5..], i) else text == name
  }

  ghost predicate FileWritten(c: Codec, buf: bytes, b: Archive, i: nat, at: nat, name: nat) {
    i < |b.files|
    && var f := b.files[i];
       && EntryWords(buf, 32 + 16 * i, true, f.id, at, |f.data|, name) && At(buf, at, f.data)
       && exists text :: NameText(i, TextOf(f.name), text) && TextStored(c, buf, name, text)
  }

  ghost predicate HeadWritten(c: Codec, buf: bytes, b: Archive) {
    && HeadWords(buf, b) && I32(buf, 12, false) == |buf|
    && var root := TextOf(b.root);
       if root == [] then I32(buf, 20, false) == 0
       else I32(buf, 20, false) == 32 + 16 * |b.files| && TextStored(c, buf, 32 + 16 * |b.files|, root)
  }

  /** Name `i` follows what is in front of it, and payload `i` the payloads, on the next multiple of 16. */
  ghost predicate PackedAt(c: Codec, buf: bytes, b: Archive, ats: seq<nat>, names: seq<nat>, namesEnd: nat, i: nat) {
    i < |b.files| == |ats| == |names|
    && names[i] == (if i == 0 then NamesStart(c, b) else names[i - 1] + NameRoom(c, b, i - 1))
    && (i == |names| - 1 ==> namesEnd == names[i] + NameRoom(c, b, i))
    && var before := if i == 0 then namesEnd else ats[i - 1] + |b.files[i - 1].data|;
       && ats[i] == (before + 15) / 16 * 16 && ats[i] <= |buf|
       && forall k :: before <= k < ats[i] ==> buf[k] == 0
  }

  function NamesStart(c: Codec, b: Archive): nat {
    32 + 16 * |b.files| + if TextOf(b.root) == [] then 0 else |OrEmpty(c.encode(TextOf(b.root)))| + 1
  }

  function NameRoom(c: Codec, b: Archive, i: nat): nat
    requires i < |b.files|
  {
    |OrEmpty(c.encode(Prepared(i, TextOf(b.files[i].name))))| + 1
  }

  /** Without files the names, which are none, are padded to a multiple of 16 all the same. */
  ghost predicate Packed(c: Codec, buf: bytes, b: Archive, ats: seq<nat>, names: seq<nat>, namesEnd: nat) {
    && |ats| == |b.files| && |names| == |b.files|
    && (if b.files == [] then
          && namesEnd == NamesStart(c, b) && |buf| == (namesEnd + 15) / 16 * 16
          && forall k :: namesEnd <= k < |buf| ==> buf[k] == 0
        else |buf| == ats[|ats| - 1] + |b.files[|ats| - 1].data|)
    && forall i :: 0 <= i < |b.files| ==> PackedAt(c, buf, b, ats, names, namesEnd, i)
  }

  /** An archive that can be written. */
  ghost predicate Target(c: Codec, b: Archive) {
    && Writable(c, b) && Fits(b.version, 4) && b.format0 < 0x1_0000 && b.format1 < 0x1_0000
    && forall i :: 0 <= i < |b.files| ==> Fits(b.files[i].id, 4)
  }

  function WrittenImage(c: Codec, b: Archive): bytes {
    PlanShape(c, b);
    Image(PlanOf(c, b), Closing(PlanOf(c, b)))
  }

  lemma TargetPieces(c: Codec, b: Archive)
    requires Target(c, b)
    ensures var p, buf := PlanOf(c, b), WrittenImage(c, b);
      && Shaped(p) && ImageStands(buf, p, Closing(p)) && |p.items| == |b.files| && |buf| == Total(p) < 0x8000_0000
      && p.wide && p.named && p.align == 16 && p.kind == KIND && p.version == b.version
      && p.tail == Enc(false, b.format0, 2) + Enc(false, b.format1, 2)
      && p.directory == (if TextOf(b.root) == [] then [] else c.encode(TextOf(b.root)).value + [0])
      && (TextOf(b.root) != [] ==> c.encode(TextOf(b.root)).Ok?)
      && HeadStands(buf, p, Total(p)) && DirectoryPos(p) == 32 + 16 * |b.files|
  {
    hide At, Enc, Image, HeadStands, EntryRows, NameRows, DataRows, Flatten, DataEnd, PiecesOf, Fits, Closing;
    var p := PlanOf(c, b);
    PlanShape(c, b);
    ImagePieces(p, Closing(p));
    Pieces(WrittenImage(c, b), p);
  }

  lemma TailSpelled(buf: bytes, format0: nat, format1: nat)
    requires At(buf, 24, Enc(false, format0, 2) + Enc(false, format1, 2)) && format0 < 0x1_0000 && format1 < 0x1_0000
    ensures |buf| >= 28 && U16(buf, 24, false) == format0 && U16(buf, 26, false) == format1
  {
    hide Enc, U16;
    AtSplit(buf, 24, Enc(false, format0, 2), Enc(false, format1, 2));
    Stored16(buf, 24, false, format0);
    Stored16(buf, 26, false, format1);
  }

  lemma MarkSpelled(buf: bytes)
    requires At(buf, 0, MAGIC) && At(buf, 4, KIND)
    ensures |buf| >= 8 && buf[..4] == [0x42, 0x4E, 0x44, 0] && U16(buf, 4, false) == 0xFFFF && U16(buf, 6, false) == 0
  {
    var s: bytes := KIND;
    SameBytes(buf, 4, s);
    assert s[0] == buf[4 + 0] && s[1] == buf[4 + 1] && s[2] == buf[4 + 2] && s[3] == buf[4 + 3];
    assert buf[..4] == buf[0..4];
  }

  lemma DirectoryIs(p: Plan)
    ensures DirectoryField(p) == (if p.directory == [] then 0 else DirectoryPos(p)) && NamesAt(p) == DirectoryPos(p) + |p.directory|
  {
    hide DirectoryPos;
  }

  lemma HeadSpelled(c: Codec, b: Archive)
    requires Target(c, b)
    ensures HeadWritten(c, WrittenImage(c, b), b) && NamesAt(PlanOf(c, b)) == NamesStart(c, b)
  {
    hide At, Enc, WrittenImage, ImageStands, U16, U32, I32, PlanOf, PayloadsEnd, Total, DirectoryPos, DirectoryField, NamesAt, Writable, Fits;
    var p := PlanOf(c, b);
    TargetPieces(c, b);
    var buf := WrittenImage(c, b);
    MarkSpelled(buf);
    TailSpelled(buf, b.format0, b.format1);
    IdInRange(b.version);
    DirectoryIs(p);
    BelowTotal(p, 0);
    Stored32(buf, 8, false, p.version);
    Stored32(buf, 12, false, Total(p));
    Stored32(buf, 16, false, |p.items|);
    Stored32(buf, 20, false, DirectoryField(p));
    Stored32(buf, 28, false, 0);
    DirectoryThere(buf, p);
  }

  lemma DirectoryThere(buf: bytes, p: Plan)
    requires ImageStands(buf, p, Closing(p))
    ensures At(buf, DirectoryPos(p), p.directory)
  {
    hide At, HeadStands, Flatten, EntryRows, NameRows, DataRows, DirectoryPos, NamesAt, NamesEnd, PayloadsEnd, Closing;
  }

  lemma PreparedIs(i: nat, name: bytes)
    ensures NameText(i, name, Prepared(i, name))
  {
    hide DecimalText, Number;
    PrefixedNumber(Prepared(i, name), i);
  }

  lemma NameIs(c: Codec, b: Archive, i: nat)
    requires Target(c, b) && i < |b.files|
    ensures var p, text := PlanOf(c, b), Prepared(i, TextOf(b.files[i].name));
      && |p.items| == |b.files| && p.items[i].id == b.files[i].id && p.items[i].data == b.files[i].data && Fits(b.files[i].id, 4)
      && NameText(i, TextOf(b.files[i].name), text) && c.encode(text).Ok? && p.items[i].name == c.encode(text).value + [0]
      && |p.items[i].name| == NameRoom(c, b, i)
  {
    hide Enc, Total, Prepared, NameText, Fits;
    PreparedIs(i, TextOf(b.files[i].name));
  }

  lemma EntryPlace(p: Plan, i: nat)
    requires p.wide
    ensures EntryPos(p, i) == 32 + 16 * i
  {
  }

  lemma OneFileWritten(c: Codec, b: Archive, i: nat)
    requires Target(c, b) && i < |b.files|
    ensures var p := PlanOf(c, b); |p.items| == |b.files| && FileWritten(c, WrittenImage(c, b), b, i, PayloadAt(p, i), NamePos(p, i))
  {
    hide *;
    var p := PlanOf(c, b);
    TargetPieces(c, b);
    NameIs(c, b, i);
    EntryPlace(p, i);
    NameFieldIs(p, i);
    EntrySpelled(WrittenImage(c, b), p, Closing(p), i);
    FileAssembled(c, WrittenImage(c, b), b, p, i, Prepared(i, TextOf(b.files[i].name)));
  }

  lemma FileAssembled(c: Codec, buf: bytes, b: Archive, p: Plan, i: nat, text: bytes)
    requires i < |p.items| == |b.files| && p.wide && p.named && EntryPos(p, i) == 32 + 16 * i
    requires p.items[i].id == b.files[i].id && p.items[i].data == b.files[i].data
    requires NameText(i, TextOf(b.files[i].name), text) && c.encode(text).Ok? && p.items[i].name == c.encode(text).value + [0]
    requires NameField(p, i) == if p.named then NamePos(p, i) else 0
    requires EntryWords(buf, EntryPos(p, i), p.wide, p.items[i].id, PayloadAt(p, i), |p.items[i].data|, NameField(p, i))
    requires At(buf, PayloadAt(p, i), p.items[i].data) && At(buf, NamePos(p, i), p.items[i].name)
    ensures FileWritten(c, buf, b, i, PayloadAt(p, i), NamePos(p, i))
  {
    hide At, EntryWords, NameField, NamePos, PayloadAt, EntryPos, NameText;
  }

  function PayloadPlaces(p: Plan): (s: seq<nat>)
    ensures |s| == |p.items| && forall i :: 0 <= i < |s| ==> s[i] == PayloadAt(p, i)
  {
    seq(|p.items|, i requires 0 <= i < |p.items| => PayloadAt(p, i))
  }

  function NamePlaces(p: Plan): (s: seq<nat>)
    ensures |s| == |p.items| && forall i :: 0 <= i < |s| ==> s[i] == NamePos(p, i)
  {
    seq(|p.items|, i requires 0 <= i < |p.items| => NamePos(p, i))
  }

  lemma OnePacked(c: Codec, b: Archive, i: nat)
    requires Target(c, b) && i < |b.files|
    ensures var p := PlanOf(c, b);
      |p.items| == |b.files| && PackedAt(c, WrittenImage(c, b), b, PayloadPlaces(p), NamePlaces(p), NamesEnd(p), i)
  {
    hide *;
    var p := PlanOf(c, b);
    TargetPieces(c, b);
    HeadSpelled(c, b);
    NameEnds(p);
    ItemStands(WrittenImage(c, b), p, Closing(p), i);
    NameIs(c, b, i);
    if i > 0 {
      ItemStands(WrittenImage(c, b), p, Closing(p), i - 1);
      NameIs(c, b, i - 1);
    }
    PayloadPacked(WrittenImage(c, b), p, Closing(p), i);
    PackedAssembled(c, WrittenImage(c, b), b, p, i);
  }

  lemma PackedAssembled(c: Codec, buf: bytes, b: Archive, p: Plan, i: nat)
    requires i < |p.items| == |b.files| && p.align == 16
    requires NamePos(p, 0) == NamesAt(p) == NamesStart(c, b) && NamesEnd(p) == NamePos(p, |p.items|)
    requires NamePos(p, i + 1) == NamePos(p, i) + NameRoom(c, b, i)
    requires i > 0 ==> NamePos(p, i) == NamePos(p, i - 1) + NameRoom(c, b, i - 1) && p.items[i - 1].data == b.files[i - 1].data
    requires var before := if i == 0 then NamesEnd(p) else PayloadAt(p, i - 1) + |p.items[i - 1].data|;
      && PayloadAt(p, i) == Rounded(before, p.align) && PayloadAt(p, i) <= |buf|
      && forall k :: before <= k < PayloadAt(p, i) ==> buf[k] == 0
    ensures PackedAt(c, buf, b, PayloadPlaces(p), NamePlaces(p), NamesEnd(p), i)
  {
    hide NamesAt, NamePos, NamesEnd, PayloadAt, NameRoom, NamesStart;
  }

  lemma EndsPacked(c: Codec, b: Archive)
    requires Target(c, b)
    ensures var p, buf := PlanOf(c, b), WrittenImage(c, b);
      && |p.items| == |b.files|
      && if b.files == [] then
           && NamesEnd(p) == NamesStart(c, b) && |buf| == (NamesEnd(p) + 15) / 16 * 16
           && forall k :: NamesEnd(p) <= k < |buf| ==> buf[k] == 0
         else |buf| == PayloadAt(p, |b.files| - 1) + |b.files[|b.files| - 1].data|
  {
    hide Target, PlanOf, NamesAt, NamePos, NamesEnd, DataEnd, DataPos, WrittenImage, ImageStands, NamesStart, HeadWritten, HeadStands, AlignUp;
    var p := PlanOf(c, b);
    TargetPieces(c, b);
    HeadSpelled(c, b);
    NameEnds(p);
    NoData(p.items, p.align, NamesEnd(p));
    if b.files != [] {
      DataStep(p.items, p.align, NamesEnd(p), |b.files| - 1);
      NameIs(c, b, |b.files| - 1);
    } else {
      RoundsUp(NamesEnd(p), 16);
      ClosingThere(WrittenImage(c, b), p);
      ZerosAt(WrittenImage(c, b), PayloadsEnd(p), Closing(p));
    }
  }

  lemma ClosingThere(buf: bytes, p: Plan)
    requires ImageStands(buf, p, Closing(p))
    ensures At(buf, PayloadsEnd(p), Fill(Closing(p), 0)) && |buf| == PayloadsEnd(p) + Closing(p)
  {
    hide At, HeadStands, Flatten, EntryRows, NameRows, DataRows, DirectoryPos, NamesAt, NamesEnd, PayloadsEnd, Closing;
  }

  /** What is written, to the byte: head, entries, root, names and payloads, and how they are packed. */
  lemma WrittenExactly(c: Codec, b: Archive)
    requires Target(c, b)
    ensures var p := PlanOf(c, b);
      && |p.items| == |b.files| && HeadWritten(c, WrittenImage(c, b), b)
      && Packed(c, WrittenImage(c, b), b, PayloadPlaces(p), NamePlaces(p), NamesEnd(p))
      && forall i :: 0 <= i < |b.files| ==> FileWritten(c, WrittenImage(c, b), b, i, PayloadPlaces(p)[i], NamePlaces(p)[i])
  {
    hide Target, PlanOf, NamePos, NamesEnd, PayloadAt, WrittenImage, ImageStands, NamesStart, HeadWritten, HeadStands, FileWritten, PackedAt;
    var p := PlanOf(c, b);
    TargetPieces(c, b);
    HeadSpelled(c, b);
    EndsPacked(c, b);
    forall i | 0 <= i < |b.files|
      ensures FileWritten(c, WrittenImage(c, b), b, i, PayloadPlaces(p)[i], NamePlaces(p)[i])
      ensures PackedAt(c, WrittenImage(c, b), b, PayloadPlaces(p), NamePlaces(p), NamesEnd(p), i)
    {
      OneFileWritten(c, b, i);
      OnePacked(c, b, i);
    }
  }

  /** What can be written: texts that can be encoded, and an image of less than 2^31 bytes. */
  lemma WritableMeans(c: Codec, b: Archive)
    ensures Writable(c, b) <==>
      && |WrittenImage(c, b)| < 0x8000_0000 && (TextOf(b.root) != [] ==> c.encode(TextOf(b.root)).Ok?)
      && forall i :: 0 <= i < |b.files| ==> NameWritable(c, i, TextOf(b.files[i].name))
  {
    hide Image, PlanOf, Total, Closing, ImageStands, Prepared, NameText, NameWritable;
    PlanShape(c, b);
    ImagePieces(PlanOf(c, b), Closing(PlanOf(c, b)));
    Pieces(WrittenImage(c, b), PlanOf(c, b));
    forall i | 0 <= i < |b.files|
      ensures NameWritable(c, i, TextOf(b.files[i].name)) <==> c.encode(Prepared(i, TextOf(b.files[i].name))).Ok?
    {
      NameWritableIs(c, i, TextOf(b.files[i].name));
    }
  }

  ghost predicate NameWritable(c: Codec, i: nat, name: bytes) {
    exists text :: NameText(i, name, text) && c.encode(text).Ok?
  }

  lemma NameWritableIs(c: Codec, i: nat, name: bytes)
    ensures NameWritable(c, i, name) <==> c.encode(Prepared(i, name)).Ok?
  {
    hide DecimalText, Number;
    PreparedIs(i, name);
    forall text | NameText(i, name, text)
      ensures text == Prepared(i, name)
    {
      PrefixedNumber(text, i);
    }
  }
}
