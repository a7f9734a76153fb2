/** The BND2 reader, what comes back from a written archive, and the fixpoint: writing what was read
    reproduces the bytes. */
module Bnd2Reading {
  import opened Bytes
  import opened Reading
  import opened Texts
  import opened Items
  import opened Bnd2

  // ------------------------------------------------------------------ parsing as a function

  datatype Head = Head(headerFlags: byte, fileFlags: byte, unk06: byte, unk07: byte, version: int,
                       count: nat, base: nat, alignment: nat, mode: byte, unk1b: byte)

  datatype Header = Header(id: int, offset: nat, size: nat, name: bytes)

  /** The head ends behind one zero word, or two where entries have no name offset. */
  function ParseZeros(buf: bytes, fileFlags: byte): Result<()> {
    var _ :- ExpectUInt(buf, 28, false, 4, 0);
    if HasNameOffsets(fileFlags) then Ok(()) else ExpectUInt(buf, 32, false, 4, 0)
  }

  datatype Flags = Flags(header: byte, file: byte, unk06: byte, unk07: byte)

  function ParseFlags(buf: bytes): Result<Flags> {
    var _ :- ExpectBytes(buf, 0, [0x42, 0x4E, 0x44]);
    var _ :- ExpectByte(buf, 3, {0});
    var headerFlags :- GetUInt(buf, 4, false, 1);
    var fileFlags :- GetUInt(buf, 5, false, 1);
    var unk06 :- GetUInt(buf, 6, false, 1);
    var unk07 :- GetUInt(buf, 7, false, 1);
    Ok(Flags(headerFlags % 256, fileFlags % 256, unk06 % 256, unk07 % 256))
  }

  function ParseHead(buf: bytes): Result<Head> {
    var flags :- ParseFlags(buf);
    var version :- GetSInt(buf, 8, false, 4);
    var next :- SeekTo(buf, 16);
    var count :- GetSInt(buf, next, false, 4);
    var base :- GetSInt(buf, 20, false, 4);
    var alignment :- GetUInt(buf, 24, false, 2);
    var mode :- ExpectByte(buf, 26, MODES);
    var unk1b :- ExpectByte(buf, 27, UNK1B_OPTIONS);
    var _ :- ParseZeros(buf, flags.file);
    if count < 0 || base < 0 then Err(OutOfRange)
    else Ok(Head(flags.header, flags.file, flags.unk06, flags.unk07, version, count, base, alignment, mode % 256, unk1b % 256))
  }

  function ParseBase(c: Codec, buf: bytes, h: Head): Result<bytes> {
    if h.mode == BASE_DIRECTORY && HasNameOffsets(h.fileFlags) then GetText(c, false, buf, h.base) else Ok([])
  }

  /** In nameless mode a file is named after its id; without name offsets it has the empty name. */
  function ParseName(c: Codec, buf: bytes, pos: nat, h: Head, id: int): Result<bytes> {
    if !HasNameOffsets(h.fileFlags) then Ok([])
    else
      var off :- GetSInt(buf, pos, false, 4);
      if h.mode == NAMELESS then Ok(DecimalText(id))
      else if off < 0 then Err(OutOfRange)
      else GetText(c, false, buf, off)
  }

  function ParseEntry(c: Codec, buf: bytes, pos: nat, h: Head): Result<Header> {
    var id :- GetSInt(buf, pos, false, 4);
    var offset :- GetSInt(buf, pos + 4, false, 4);
    var size :- GetSInt(buf, pos + 8, false, 4);
    if offset < 0 || size < 0 then Err(OutOfRange)
    else
      var name :- ParseName(c, buf, pos + 12, h, id);
      Ok(Header(id, offset, size, name))
  }

  function EntryStart(h: Head, i: nat): nat {
    if HasNameOffsets(h.fileFlags) then 32 + 16 * i else 36 + 12 * i
  }

  function ParseEntries(c: Codec, buf: bytes, h: Head, k: nat): (r: Result<seq<Header>>)
    ensures r.Ok? ==> |r.value| == k
  {
    if k == 0 then Ok([])
    else
      var init :- ParseEntries(c, buf, h, k - 1);
      var last :- ParseEntry(c, buf, EntryStart(h, k - 1), h);
      Ok(init + [last])
  }

  function ParseData(buf: bytes, x: Header): Result<bytes> {
    if x.size == 0 then Ok([]) else GetAt(buf, x.offset, x.size)
  }

  function ParseFiles(buf: bytes, hs: seq<Header>, k: nat): (r: Result<seq<File>>)
    requires k <= |hs|
    ensures r.Ok? ==> |r.value| == k
  {
    if k == 0 then Ok([])
    else
      var init :- ParseFiles(buf, hs, k - 1);
      var data :- ParseData(buf, hs[k - 1]);
      Ok(init + [File(hs[k - 1].id, Some(hs[k - 1].name), data)])
  }

  function ArchiveOf(h: Head, base: bytes, files: seq<File>): Archive {
    Archive(h.headerFlags, h.fileFlags, h.unk06, h.unk07, h.version, h.alignment, h.mode, h.unk1b, Some(base), files)
  }

  function ParseArchive(c: Codec, buf: bytes): Result<Archive> {
    var h :- ParseHead(buf);
    var base :- ParseBase(c, buf, h);
    var hs :- ParseEntries(c, buf, h, h.count);
    var files :- ParseFiles(buf, hs, h.count);
    Ok(ArchiveOf(h, base, files))
  }

  // ------------------------------------------------------------------ the reading methods

  method ReadHead(rd: BinaryReader) returns (r: Result<Head>)
    requires rd.Valid() && rd.pos == 0 && !rd.bigEndian
    modifies rd`pos
    ensures rd.Valid()
    ensures r == ParseHead(rd.buf)
    ensures r.Ok? ==> rd.pos == EntryStart(r.value, 0)
  {
    hide ParseFlags, GetUInt, GetSInt, ExpectByte, ExpectUInt, MODES, UNK1B_OPTIONS, HasNameOffsets, SeekTo;
    var flags :- ReadFlags(rd);
    var version :- rd.ReadSInt(4);
    var _ :- rd.Seek(rd.pos + 4);
    var count :- rd.ReadSInt(4);
    var base :- rd.ReadSInt(4);
    var alignment :- rd.ReadUInt(2);
    var mode :- rd.AssertByte(MODES);
    var unk1b :- rd.AssertByte(UNK1B_OPTIONS);
    var _ :- rd.AssertUInt(4, 0);
    if !HasNameOffsets(flags.file) {
      var _ :- rd.AssertUInt(4, 0);
    }
    if count < 0 || base < 0 {
      return Err(OutOfRange);
    }
    return Ok(Head(flags.header, flags.file, flags.unk06, flags.unk07, version, count, base, alignment, mode % 256, unk1b % 256));
  }

  method ReadFlags(rd: BinaryReader) returns (r: Result<Flags>)
    requires rd.Valid() && rd.pos == 0 && !rd.bigEndian
    modifies rd`pos
    ensures rd.Valid()
    ensures r == ParseFlags(rd.buf)
    ensures r.Ok? ==> rd.pos == 8
  {
    hide GetUInt, ExpectBytes, ExpectByte;
    var _ :- rd.AssertBytes([0x42, 0x4E, 0x44]);
    var _ :- rd.AssertByte({0});
    var headerFlags :- rd.ReadByte();
    var fileFlags :- rd.ReadByte();
    var unk06 :- rd.ReadByte();
    var unk07 :- rd.ReadByte();
    return Ok(Flags(headerFlags % 256, fileFlags % 256, unk06 % 256, unk07 % 256));
  }

  method ReadEntry(rd: BinaryReader, c: Codec, h: Head) returns (r: Result<Header>)
    requires rd.Valid() && !rd.bigEndian
    modifies rd`pos
    ensures rd.Valid()
    ensures r == ParseEntry(c, rd.buf, old(rd.pos), h)
    ensures r.Ok? ==> rd.pos == old(rd.pos) + if HasNameOffsets(h.fileFlags) then 16 else 12
  {
    hide GetSInt, GetText, HasNameOffsets;
    var id :- rd.ReadSInt(4);
    var offset :- rd.ReadSInt(4);
    var size :- rd.ReadSInt(4);
    if offset < 0 || size < 0 {
      return Err(OutOfRange);
    }
    if !HasNameOffsets(h.fileFlags) {
      return Ok(Header(id, offset, size, []));
    }
    var off :- rd.ReadSInt(4);
    if h.mode == NAMELESS {
      return Ok(Header(id, offset, size, DecimalText(id)));
    }
    if off < 0 {
      return Err(OutOfRange);
    }
    var name :- ReadText(rd, c, false, off);
    return Ok(Header(id, offset, size, name));
  }

  lemma {:induction false} EntriesFailEarly(c: Codec, buf: bytes, h: Head, k: nat, n: nat)
    requires k <= n && ParseEntries(c, buf, h, k).Err?
    ensures ParseEntries(c, buf, h, n) == ParseEntries(c, buf, h, k)
    decreases n - k
  {
    hide ParseEntry;
    if k < n {
      EntriesFailEarly(c, buf, h, k + 1, n);
    }
  }

  lemma {:induction false} FilesFailEarly(buf: bytes, hs: seq<Header>, k: nat, n: nat)
    requires k <= n <= |hs| && ParseFiles(buf, hs, k).Err?
    ensures ParseFiles(buf, hs, n) == ParseFiles(buf, hs, k)
    decreases n - k
  {
    hide ParseData;
    if k < n {
      FilesFailEarly(buf, hs, k + 1, n);
    }
  }

  method ReadEntries(rd: BinaryReader, c: Codec, h: Head) returns (r: Result<seq<Header>>)
    requires rd.Valid() && !rd.bigEndian && rd.pos == EntryStart(h, 0)
    modifies rd`pos
    ensures rd.Valid()
    ensures r == ParseEntries(c, rd.buf, h, h.count)
  {
    hide ParseEntry;
    var hs: seq<Header> := [];
    for i := 0 to h.count
      invariant rd.Valid() && rd.pos == EntryStart(h, i)
      invariant ParseEntries(c, rd.buf, h, i) == Ok(hs)
    {
      var e := ReadEntry(rd, c, h);
      if e.Err? {
        EntriesFailEarly(c, rd.buf, h, i + 1, h.count);
        return Err(e.error);
      }
      hs := hs + [e.value];
    }
    return Ok(hs);
  }

  method ReadFiles(rd: BinaryReader, hs: seq<Header>) returns (r: Result<seq<File>>)
    requires rd.Valid()
    modifies rd`pos
    ensures rd.Valid()
    ensures r == ParseFiles(rd.buf, hs, |hs|)
  {
    hide Take, SeekTo;
    var files: seq<File> := [];
    for i := 0 to |hs|
      invariant rd.Valid()
      invariant ParseFiles(rd.buf, hs, i) == Ok(files)
    {
      var data: bytes := [];
      if hs[i].size > 0 {
        var d := rd.GetBytes(hs[i].offset, hs[i].size);
        if d.Err? {
          FilesFailEarly(rd.buf, hs, i + 1, |hs|);
          return Err(d.error);
        }
        data := d.value;
      }
      files := files + [File(hs[i].id, Some(hs[i].name), data)];
    }
    return Ok(files);
  }

  method ReadArchive(c: Codec, buf: bytes) returns (r: Result<Archive>)
    ensures r == ParseArchive(c, buf)
  {
    hide ParseHead, ParseEntries, ParseFiles, GetText;
    var rd := new BinaryReader(buf);
    var h :- ReadHead(rd);
    var base: bytes := [];
    if h.mode == BASE_DIRECTORY && HasNameOffsets(h.fileFlags) {
      base :- ReadText(rd, c, false, h.base);
    }
    var hs :- ReadEntries(rd, c, h);
    var files :- ReadFiles(rd, hs);
    return Ok(ArchiveOf(h, base, files));
  }

  // ------------------------------------------------------------------ reading after writing

  /** The name a file has after writing and reading. */
  function NormalName(b: Archive, f: File): bytes {
    if !HasNameOffsets(b.fileFlags) then []
    else if b.mode == NAMELESS then DecimalText(f.id)
    else Prepared(b.mode, TextOf(f.name))
  }

  function NormalFile(b: Archive, f: File): File {
    File(f.id, Some(NormalName(b, f)), f.data)
  }

  function NormalFiles(b: Archive): (files: seq<File>)
    ensures |files| == |b.files| && forall i :: 0 <= i < |files| ==> files[i] == NormalFile(b, b.files[i])
  {
    seq(|b.files|, i requires 0 <= i < |b.files| => NormalFile(b, b.files[i]))
  }

  /** What an archive is after writing and reading. */
  function Normal(b: Archive): Archive {
    b.(baseDirectory := Some(if WritesBase(b) then TextOf(b.baseDirectory) else []), files := NormalFiles(b))
  }

  /** The encoder restores what this archive hands it, and the numbers have their C types. */
  ghost predicate Recoverable(c: Codec, b: Archive) {
    && Fits(b.version, 4) && b.alignment < Pow256(2)
    && (WritesBase(b) ==> Encodable(c, false, TextOf(b.baseDirectory)))
    && forall i :: 0 <= i < |b.files| ==> FileRecoverable(c, b, b.files[i])
  }

  ghost predicate FileRecoverable(c: Codec, b: Archive, f: File) {
    Fits(f.id, 4) && (WritesNames(b) ==> Encodable(c, false, Prepared(b.mode, TextOf(f.name))))
  }

  function HeadOf(c: Codec, b: Archive): Head {
    Head(b.headerFlags, b.fileFlags, b.unk06, b.unk07, b.version, |b.files|, DirectoryField(PlanOf(c, b)), b.alignment, b.mode, b.unk1b)
  }

  ghost predicate Written(buf: bytes, c: Codec, b: Archive) {
    ImageStands(buf, PlanOf(c, b), 0) && Recoverable(c, b) && |buf| < MAX_SIZE
  }

  lemma FirstThree(buf: bytes)
    requires At(buf, 0, MAGIC)
    ensures ExpectBytes(buf, 0, [0x42, 0x4E, 0x44]) == Ok(()) && ExpectByte(buf, 3, {0}) == Ok(0)
  {
    assert buf[0..3] == buf[0..4][..3];
    assert buf[0..4][..3] == [0x42, 0x4E, 0x44];
    ByteRead(buf, 0, MAGIC, 3);
  }

  lemma PlacedZero(buf: bytes, pos: nat)
    requires At(buf, pos, Enc(false, 0, 4))
    ensures ExpectUInt(buf, pos, false, 4, 0) == Ok(())
  {
    SmallFits(0);
    PlacedUInt(buf, pos, false, 0, 4);
  }

  lemma HeadBack(buf: bytes, c: Codec, b: Archive)
    requires Written(buf, c, b)
    ensures ParseHead(buf) == if b.mode in MODES && b.unk1b in UNK1B_OPTIONS then Ok(HeadOf(c, b)) else Err(BadMagic)
  {
    hide At, Enc, GetUInt, GetSInt, ExpectByte, ExpectBytes, ExpectUInt, FileRecoverable, Encodable, PayloadsEnd, DirectoryField,
      EntryRows, NameRows, DataRows, PiecesOf, Flatten, Fits;
    var p := PlanOf(c, b);
    HeadFacts(buf, c, b);
    FirstThree(buf);
    ByteRead(buf, 4, p.kind, 0);
    ByteRead(buf, 4, p.kind, 1);
    ByteRead(buf, 4, p.kind, 2);
    ByteRead(buf, 4, p.kind, 3);
    SmallFits(|b.files|);
    SmallFits(DirectoryField(p));
    PlacedSInt(buf, 8, false, b.version, 4);
    PlacedSInt(buf, 16, false, |b.files|, 4);
    PlacedSInt(buf, 20, false, DirectoryField(p), 4);
    AtSplit(buf, 24, Enc(false, b.alignment, 2), [b.mode, b.unk1b]);
    PlacedUInt(buf, 24, false, b.alignment, 2);
    ByteRead(buf, 26, [b.mode, b.unk1b], 0);
    ByteRead(buf, 26, [b.mode, b.unk1b], 1);
    PlacedZero(buf, 28);
    if !HasNameOffsets(b.fileFlags) {
      PlacedZero(buf, 32);
    }
  }

  lemma HeadFacts(buf: bytes, c: Codec, b: Archive)
    requires Written(buf, c, b)
    ensures var p := PlanOf(c, b);
      && HeadStands(buf, p, PayloadsEnd(p)) && |b.files| < MAX_SIZE && DirectoryField(p) < MAX_SIZE
      && p.kind == [b.headerFlags, b.fileFlags, b.unk06, b.unk07] && p.version == b.version
      && p.tail == Enc(false, b.alignment, 2) + [b.mode, b.unk1b] && p.wide == HasNameOffsets(b.fileFlags)
      && |p.items| == |b.files| && Fits(b.version, 4) && b.alignment < Pow256(2)
  {
    hide At, Enc, HeadStands, DataEnd, EntryRows, NameRows, DataRows, Flatten, PiecesOf, Fits, FileRecoverable, Encodable, NamePos, NamesAt;
    PositionsBelowEnd(PlanOf(c, b), 0);
  }

  lemma BaseBack(buf: bytes, c: Codec, b: Archive)
    requires Written(buf, c, b)
    ensures ParseBase(c, buf, HeadOf(c, b)) == Ok(Normal(b).baseDirectory.value)
  {
    hide At, Enc, HeadStands, PayloadsEnd, EntryRows, NameRows, DataRows, Flatten, PiecesOf, Fits, FileRecoverable, EntryPos, NormalFiles, GetText;
    if WritesBase(b) {
      StoredText(c, TextOf(b.baseDirectory));
      TextRead(c, false, buf, DirectoryPos(PlanOf(c, b)), TextOf(b.baseDirectory));
    }
  }

  function HeaderOf(c: Codec, b: Archive, i: nat): Header
    requires i < |b.files|
  {
    Header(b.files[i].id, PayloadAt(PlanOf(c, b), i), |b.files[i].data|, NormalName(b, b.files[i]))
  }

  /** One file's entry, name and payload as they stand in the image. */
  ghost predicate FileStands(buf: bytes, c: Codec, b: Archive, i: nat)
    requires i < |b.files|
  {
    var p := PlanOf(c, b);
    var pos := EntryStart(HeadOf(c, b), i);
    && At(buf, pos, Enc(false, b.files[i].id, 4)) && At(buf, pos + 4, Enc(false, PayloadAt(p, i), 4))
    && At(buf, pos + 8, Enc(false, |b.files[i].data|, 4)) && (HasNameOffsets(b.fileFlags) ==> At(buf, pos + 12, Enc(false, NameField(p, i), 4)))
    && At(buf, PayloadAt(p, i), b.files[i].data)
    && (WritesNames(b) ==> At(buf, NamePos(p, i), OrEmpty(StoreText(c, false, Prepared(b.mode, TextOf(b.files[i].name))))))
    && PayloadAt(p, i) + |b.files[i].data| <= |buf| < MAX_SIZE && NamePos(p, i) <= |buf|
  }

  lemma FilePieces(buf: bytes, c: Codec, b: Archive, i: nat)
    requires Written(buf, c, b) && i < |b.files|
    ensures FileStands(buf, c, b, i)
  {
    hide At, Enc, HeadStands, EntryRow, EntryRows, NameRows, DataRows, Flatten, Fits, FileRecoverable, Encodable, NamePos, NamesAt, DataPos, DataEnd, Prepared, StoreText;
    var p := PlanOf(c, b);
    ItemStands(buf, p, 0, i);
    EntryPieces(buf, p, i);
    PayloadsLaidOut(p, i);
    PositionsBelowEnd(p, i);
    assert p.items[i] == PieceOf(c, b, b.files[i]);
  }

  lemma EntryBack(buf: bytes, c: Codec, b: Archive, i: nat)
    requires Written(buf, c, b) && i < |b.files|
    ensures ParseEntry(c, buf, EntryStart(HeadOf(c, b), i), HeadOf(c, b)) == Ok(HeaderOf(c, b, i))
    ensures ParseData(buf, HeaderOf(c, b, i)) == Ok(b.files[i].data)
  {
    hide At, Enc, GetSInt, GetText, Fits, PayloadAt, NamePos, ImageStands, PlanOf, Prepared, StoreText, Encodable, EntryStart, HasNameOffsets;
    PlanShape(c, b);
    var p, f := PlanOf(c, b), b.files[i];
    var pos := EntryStart(HeadOf(c, b), i);
    FilePieces(buf, c, b, i);
    FileNumbers(c, b, i);
    SmallFits(PayloadAt(p, i));
    SmallFits(|f.data|);
    PlacedSInt(buf, pos, false, f.id, 4);
    PlacedSInt(buf, pos + 4, false, PayloadAt(p, i), 4);
    PlacedSInt(buf, pos + 8, false, |f.data|, 4);
    NameBack(buf, c, b, i);
    PlacedBound(buf, PayloadAt(p, i), f.data);
  }

  lemma FileNumbers(c: Codec, b: Archive, i: nat)
    requires Recoverable(c, b) && i < |b.files|
    ensures Fits(b.files[i].id, 4) && (WritesNames(b) ==> Encodable(c, false, Prepared(b.mode, TextOf(b.files[i].name))))
  {
    hide Fits, Encodable, Prepared;
    assert FileRecoverable(c, b, b.files[i]);
  }

  lemma NameBack(buf: bytes, c: Codec, b: Archive, i: nat)
    requires Written(buf, c, b) && i < |b.files| && FileStands(buf, c, b, i)
    ensures ParseName(c, buf, EntryStart(HeadOf(c, b), i) + 12, HeadOf(c, b), b.files[i].id) == Ok(NormalName(b, b.files[i]))
  {
    hide At, Enc, GetSInt, GetText, Fits, PayloadAt, NamePos, ImageStands, Prepared, StoreText, Encodable, EntryStart, PiecesOf, HasNameOffsets;
    var p := PlanOf(c, b);
    FileNumbers(c, b, i);
    if HasNameOffsets(b.fileFlags) {
      SmallFits(NameField(p, i));
      PlacedSInt(buf, EntryStart(HeadOf(c, b), i) + 12, false, NameField(p, i), 4);
    }
    if WritesNames(b) {
      StoredText(c, Prepared(b.mode, TextOf(b.files[i].name)));
      TextRead(c, false, buf, NamePos(p, i), Prepared(b.mode, TextOf(b.files[i].name)));
    }
  }

  lemma {:induction false} EntriesBack(buf: bytes, c: Codec, b: Archive, k: nat)
    requires Written(buf, c, b) && k <= |b.files|
    ensures var r := ParseEntries(c, buf, HeadOf(c, b), k);
      r.Ok? && forall i :: 0 <= i < k ==> r.value[i] == HeaderOf(c, b, i)
  {
    hide Written, ParseEntry, HeadOf, HeaderOf, EntryStart;
    if k > 0 {
      EntriesBack(buf, c, b, k - 1);
      EntryBack(buf, c, b, k - 1);
    }
  }

  lemma {:induction false} FilesBack(buf: bytes, c: Codec, b: Archive, hs: seq<Header>, k: nat)
    requires Written(buf, c, b) && k <= |hs| == |b.files| && forall i :: 0 <= i < |hs| ==> hs[i] == HeaderOf(c, b, i)
    ensures ParseFiles(buf, hs, k) == Ok(NormalFiles(b)[..k])
  {
    hide Written, ParseEntry, HeadOf, EntryStart, ParseData, PlanOf, PayloadAt, NormalName;
    if k > 0 {
      FilesBack(buf, c, b, hs, k - 1);
      EntryBack(buf, c, b, k - 1);
      assert hs[k - 1] == HeaderOf(c, b, k - 1);
      assert NormalFiles(b)[..k] == NormalFiles(b)[..k - 1] + [NormalFile(b, b.files[k - 1])];
    }
  }

  /** Reading what was written gives the normal form, exactly when path mode and unknown byte are ones
      the reader knows. */
  lemma RoundTrip(c: Codec, b: Archive)
    requires Recoverable(c, b) && PayloadsEnd(PlanOf(c, b)) <= INT32_MAX
    ensures ParseArchive(c, Image(PlanOf(c, b), 0)) == Ok(Normal(b)) <==> b.mode in MODES && b.unk1b in UNK1B_OPTIONS
    ensures ParseArchive(c, Image(PlanOf(c, b), 0)).Ok? ==> ParseArchive(c, Image(PlanOf(c, b), 0)) == Ok(Normal(b))
  {
    hide At, ImageStands, Image, PlanOf, ParseHead, ParseBase, ParseEntries, ParseFiles, Recoverable, NormalFiles, MODES, UNK1B_OPTIONS, PayloadsEnd, HeaderOf;
    PlanShape(c, b);
    var buf := Image(PlanOf(c, b), 0);
    ImagePieces(PlanOf(c, b), 0);
    Pieces(buf, PlanOf(c, b));
    HeadBack(buf, c, b);
    if b.mode in MODES && b.unk1b in UNK1B_OPTIONS {
      BaseBack(buf, c, b);
      EntriesBack(buf, c, b, |b.files|);
      FilesBack(buf, c, b, ParseEntries(c, buf, HeadOf(c, b), |b.files|).value, |b.files|);
      AllRows(NormalFiles(b));
    }
  }

  /** The normal form is laid down exactly like the archive itself, and is its own normal form. */
  lemma NormalIsStable(c: Codec, b: Archive)
    ensures PlanOf(c, Normal(b)) == PlanOf(c, b)
    ensures Normal(Normal(b)) == Normal(b)
  {
    hide StoreText, Enc, Prepared;
    forall i | 0 <= i < |b.files|
      ensures PieceOf(c, Normal(b), Normal(b).files[i]) == PieceOf(c, b, b.files[i])
      ensures NormalFile(Normal(b), Normal(b).files[i]) == Normal(b).files[i]
    {
      PreparedTwice(b.mode, TextOf(b.files[i].name));
    }
    assert PiecesOf(c, Normal(b)) == PiecesOf(c, b);
    assert NormalFiles(Normal(b)) == NormalFiles(b);
  }

  /** Writing what was read from a written archive reproduces it byte for byte. */
  lemma WriteReadWrite(c: Codec, b: Archive)
    requires Recoverable(c, b) && Writable(c, b)
    requires ParseArchive(c, Image(PlanOf(c, b), 0)).Ok?
    ensures var again := ParseArchive(c, Image(PlanOf(c, b), 0)).value;
      Writable(c, again) && Image(PlanOf(c, again), 0) == Image(PlanOf(c, b), 0)
  {
    hide Image, PlanOf, Recoverable, PayloadsEnd, ParseArchive, Prepared;
    RoundTrip(c, b);
    NormalIsStable(c, b);
    forall i | 0 <= i < |b.files|
      ensures Prepared(b.mode, NormalName(b, b.files[i])) == Prepared(b.mode, TextOf(b.files[i].name)) || !WritesNames(b)
    {
      PreparedTwice(b.mode, TextOf(b.files[i].name));
    }
  }

  /** Even an archive without files does not come back with a path mode of 7. */
  lemma NotReadBack(c: Codec, b: Archive)
    requires b == Archive(0, 0, 0, 0, 211, 0, 7, 0, None, []) && c == PLAIN
    ensures Writable(c, b) && ParseArchive(c, Image(PlanOf(c, b), 0)) != Ok(Normal(b))
  {
    hide ParseArchive, Image, Normal;
    Widths();
    RoundTrip(c, b);
  }
}
