/** The reader of the first BND generation, and the fixpoint of writing and reading. */
module BndReading {
  import opened Bytes
  import opened Reading
  import opened Texts
  import opened Items
  import opened Bnd

  // ------------------------------------------------------------------ parsing as a function

  datatype Head = Head(version: int, count: nat, root: bytes, format0: nat, format1: nat)
  datatype Header = Header(id: int, offset: nat, size: nat, name: bytes)

  function ParseRoot(c: Codec, buf: bytes, off: int): Result<bytes> {
    if off == 0 then Ok([]) else GetText(c, false, buf, off)
  }

  function ParseMark(buf: bytes): Result<()> {
    var _ :- ExpectBytes(buf, 0, [0x42, 0x4E, 0x44]);
    var _ :- ExpectByte(buf, 3, {0});
    var _ :- ExpectUInt(buf, 4, false, 2, 0xFFFF);
    ExpectUInt(buf, 6, false, 2, 0)
  }

  function ParseHead(c: Codec, buf: bytes): Result<Head> {
    var _ :- ParseMark(buf);
    var version :- GetSInt(buf, 8, false, 4);
    var next :- SeekTo(buf, 16);
    var count :- GetSInt(buf, next, false, 4);
    var rootAt :- GetSInt(buf, 20, false, 4);
    if count < 0 || rootAt < 0 then Err(OutOfRange)
    else
      var root :- ParseRoot(c, buf, rootAt);
      var format0 :- GetUInt(buf, 24, false, 2);
      var format1 :- GetUInt(buf, 26, false, 2);
      var _ :- ExpectSInt(buf, 28, false, 4, 0);
      Ok(Head(version, count, root, format0, format1))
  }

  /** Without a name offset a file is called after its id. */
  function ParseName(c: Codec, buf: bytes, off: nat, id: int): Result<bytes> {
    if off == 0 then Ok(FILE_PREFIX + DecimalText(id)) else GetText(c, false, buf, off)
  }

  function ParseEntry(c: Codec, buf: bytes, pos: nat): Result<Header> {
    var id :- GetSInt(buf, pos, false, 4);
    var offset :- GetUInt(buf, pos + 4, false, 4);
    var size :- GetUInt(buf, pos + 8, false, 4);
    var nameAt :- GetUInt(buf, pos + 12, false, 4);
    var name :- ParseName(c, buf, nameAt, id);
    Ok(Header(id, offset, size, name))
  }

  function ParseEntries(c: Codec, buf: bytes, k: nat): (r: Result<seq<Header>>)
    ensures r.Ok? ==> |r.value| == k
  {
    if k == 0 then Ok([])
    else
      var init :- ParseEntries(c, buf, k - 1);
      var last :- ParseEntry(c, buf, 32 + 16 * (k - 1));
      Ok(init + [last])
  }

  function ParseData(buf: bytes, x: Header): Result<bytes> {
    if x.size == 0 then Ok([]) else GetAt(buf, x.offset, x.size)
  }

  function ParseFiles(buf: bytes, hs: seq<Header>, k: nat): (r: Result<seq<File>>)
    requires k <= |hs|
    ensures r.Ok? ==> |r.value| == k
  {
    if k == 0 then Ok([])
    else
      var init :- ParseFiles(buf, hs, k - 1);
      var data :- ParseData(buf, hs[k - 1]);
      Ok(init + [File(hs[k - 1].id, Some(hs[k - 1].name), data)])
  }

  function ParseArchive(c: Codec, buf: bytes): Result<Archive> {
    var h :- ParseHead(c, buf);
    var hs :- ParseEntries(c, buf, h.count);
    var files :- ParseFiles(buf, hs, h.count);
    Ok(Archive(h.version, Some(h.root), h.format0, h.format1, files))
  }

  // ------------------------------------------------------------------ the reading methods

  method ReadHead(rd: BinaryReader, c: Codec) returns (r: Result<Head>)
    requires rd.Valid() && rd.pos == 0 && !rd.bigEndian
    modifies rd`pos
    ensures rd.Valid()
    ensures r == ParseHead(c, rd.buf)
    ensures r.Ok? ==> rd.pos == 32
  {
    hide GetUInt, GetSInt, ExpectBytes, ExpectByte, ExpectUInt, ExpectSInt, GetText, SeekTo;
    var _ :- rd.AssertBytes([0x42, 0x4E, 0x44]);
    var _ :- rd.AssertByte({0});
    var _ :- rd.AssertUInt(2, 0xFFFF);
    var _ :- rd.AssertUInt(2, 0);
    var version :- rd.ReadSInt(4);
    var _ :- rd.Seek(rd.pos + 4);
    var count :- rd.ReadSInt(4);
    var rootAt :- rd.ReadSInt(4);
    if count < 0 || rootAt < 0 {
      return Err(OutOfRange);
    }
    var root: bytes := [];
    if rootAt != 0 {
      root :- ReadText(rd, c, false, rootAt);
    }
    var format0 :- rd.ReadUInt(2);
    var format1 :- rd.ReadUInt(2);
    var _ :- rd.AssertSInt(4, 0);
    return Ok(Head(version, count, root, format0, format1));
  }

  method ReadEntry(rd: BinaryReader, c: Codec) returns (r: Result<Header>)
    requires rd.Valid() && !rd.bigEndian
    modifies rd`pos
    ensures rd.Valid()
    ensures r == ParseEntry(c, rd.buf, old(rd.pos))
    ensures r.Ok? ==> rd.pos == old(rd.pos) + 16
  {
    hide GetSInt, GetUInt, GetText;
    var id :- rd.ReadSInt(4);
    var offset :- rd.ReadUInt(4);
    var size :- rd.ReadUInt(4);
    var nameAt :- rd.ReadUInt(4);
    var name := FILE_PREFIX + DecimalText(id);
    if nameAt != 0 {
      name :- ReadText(rd, c, false, nameAt);
    }
    return Ok(Header(id, offset, size, name));
  }

  lemma {:induction false} EntriesFailEarly(c: Codec, buf: bytes, k: nat, n: nat)
    requires k <= n && ParseEntries(c, buf, k).Err?
    ensures ParseEntries(c, buf, n) == ParseEntries(c, buf, k)
    decreases n - k
  {
    hide ParseEntry;
    if k < n {
      EntriesFailEarly(c, buf, k + 1, n);
    }
  }

  lemma {:induction false} FilesFailEarly(buf: bytes, hs: seq<Header>, k: nat, n: nat)
    requires k <= n <= |hs| && ParseFiles(buf, hs, k).Err?
    ensures ParseFiles(buf, hs, n) == ParseFiles(buf, hs, k)
    decreases n - k
  {
    hide ParseData;
    if k < n {
      FilesFailEarly(buf, hs, k + 1, n);
    }
  }

  method ReadEntries(rd: BinaryReader, c: Codec, n: nat) returns (r: Result<seq<Header>>)
    requires rd.Valid() && !rd.bigEndian && rd.pos == 32
    modifies rd`pos
    ensures rd.Valid()
    ensures r == ParseEntries(c, rd.buf, n)
  {
    hide ParseEntry;
    var hs: seq<Header> := [];
    for i := 0 to n
      invariant rd.Valid() && rd.pos == 32 + 16 * i
      invariant ParseEntries(c, rd.buf, i) == Ok(hs)
    {
      var e := ReadEntry(rd, c);
      if e.Err? {
        EntriesFailEarly(c, rd.buf, i + 1, n);
        return Err(e.error);
      }
      hs := hs + [e.value];
    }
    return Ok(hs);
  }

  method ReadFiles(rd: BinaryReader, hs: seq<Header>) returns (r: Result<seq<File>>)
    requires rd.Valid()
    modifies rd`pos
    ensures rd.Valid()
    ensures r == ParseFiles(rd.buf, hs, |hs|)
  {
    hide Take, SeekTo;
    var files: seq<File> := [];
    for i := 0 to |hs|
      invariant rd.Valid()
      invariant ParseFiles(rd.buf, hs, i) == Ok(files)
    {
      var data: bytes := [];
      if hs[i].size > 0 {
        var d := rd.GetBytes(hs[i].offset, hs[i].size);
        if d.Err? {
          FilesFailEarly(rd.buf, hs, i + 1, |hs|);
          return Err(d.error);
        }
        data := d.value;
      }
      files := files + [File(hs[i].id, Some(hs[i].name), data)];
    }
    return Ok(files);
  }

  method ReadArchive(c: Codec, buf: bytes) returns (r: Result<Archive>)
    ensures r == ParseArchive(c, buf)
  {
    hide ParseHead, ParseEntries, ParseFiles;
    var rd := new BinaryReader(buf);
    var h :- ReadHead(rd, c);
    var hs :- ReadEntries(rd, c, h.count);
    var files :- ReadFiles(rd, hs);
    return Ok(Archive(h.version, Some(h.root), h.format0, h.format1, files));
  }

  // ------------------------------------------------------------------ reading after writing

  function NormalFile(f: File, i: nat): File {
    File(f.id, Some(Prepared(i, TextOf(f.name))), f.data)
  }

  function NormalFiles(files: seq<File>): (s: seq<File>)
    ensures |s| == |files| && forall i :: 0 <= i < |s| ==> s[i] == NormalFile(files[i], i)
  {
    seq(|files|, i requires 0 <= i < |files| => NormalFile(files[i], i))
  }

  /** What an archive is after writing and reading: no name is missing, and no root. */
  function Normal(b: Archive): Archive {
    b.(root := Some(TextOf(b.root)), files := NormalFiles(b.files))
  }

  /** The encoder restores what this archive hands it, and the numbers have their C types. */
  ghost predicate Recoverable(c: Codec, b: Archive) {
    && Fits(b.version, 4) && b.format0 < Pow256(2) && b.format1 < Pow256(2)
    && (TextOf(b.root) != [] ==> Encodable(c, false, TextOf(b.root)))
    && forall i :: 0 <= i < |b.files| ==> FileRecoverable(c, b.files[i], i)
  }

  ghost predicate FileRecoverable(c: Codec, f: File, i: nat) {
    Fits(f.id, 4) && Encodable(c, false, Prepared(i, TextOf(f.name)))
  }

  ghost predicate Written(buf: bytes, c: Codec, b: Archive) {
    ImageStands(buf, PlanOf(c, b), Closing(PlanOf(c, b))) && Recoverable(c, b) && |buf| < MAX_SIZE
  }

  lemma MarkBack(buf: bytes)
    requires At(buf, 0, MAGIC) && At(buf, 4, KIND)
    ensures ParseMark(buf) == Ok(())
  {
    assert buf[0..3] == buf[0..4][..3];
    assert buf[0..4][..3] == [0x42, 0x4E, 0x44];
    ByteRead(buf, 0, MAGIC, 3);
    KindInts();
    Widths();
    AtSplit(buf, 4, Enc(false, 0xFFFF, 2), Enc(false, 0, 2));
    PlacedUInt(buf, 4, false, 0xFFFF, 2);
    PlacedUInt(buf, 6, false, 0, 2);
  }

  lemma KindInts()
    ensures KIND == Enc(false, 0xFFFF, 2) + Enc(false, 0, 2)
  {
    assert LE(0xFFFF, 2) == [0xFFFF % 256] + LE(0xFFFF / 256, 1);
    assert LE(0xFF, 1) == [0xFF] + LE(0, 0);
    assert LE(0, 2) == [0] + LE(0, 1) && LE(0, 1) == [0] + LE(0, 0);
  }

  lemma HeadFacts(buf: bytes, c: Codec, b: Archive)
    requires Written(buf, c, b)
    ensures var p := PlanOf(c, b);
      && HeadStands(buf, p, Total(p)) && |b.files| < MAX_SIZE && DirectoryField(p) < MAX_SIZE
      && p.kind == KIND && p.version == b.version && p.tail == Enc(false, b.format0, 2) + Enc(false, b.format1, 2)
      && |p.items| == |b.files| && Fits(b.version, 4) && b.format0 < Pow256(2) && b.format1 < Pow256(2)
  {
    hide At, Enc, HeadStands, DataEnd, EntryRows, NameRows, DataRows, Flatten, PiecesOf, Fits, FileRecoverable, Encodable, NamePos, NamesAt, Closing;
    BelowTotal(PlanOf(c, b), 0);
  }

  lemma RootBack(buf: bytes, c: Codec, b: Archive)
    requires Written(buf, c, b)
    ensures ParseRoot(c, buf, DirectoryField(PlanOf(c, b))) == Ok(TextOf(b.root))
  {
    hide At, Enc, HeadStands, PayloadsEnd, EntryRows, NameRows, DataRows, Flatten, PiecesOf, Fits, FileRecoverable, GetText, Closing;
    if TextOf(b.root) != [] {
      StoredText(c, TextOf(b.root));
      TextRead(c, false, buf, DirectoryPos(PlanOf(c, b)), TextOf(b.root));
    }
  }

  function HeadOf(b: Archive): Head {
    Head(b.version, |b.files|, TextOf(b.root), b.format0, b.format1)
  }

  lemma HeadBack(buf: bytes, c: Codec, b: Archive)
    requires Written(buf, c, b)
    ensures ParseHead(c, buf) == Ok(HeadOf(b))
  {
    hide At, Enc, GetUInt, GetSInt, ParseMark, ParseRoot, PlanOf, Written, DirectoryField, Fits, Total;
    var p := PlanOf(c, b);
    HeadFacts(buf, c, b);
    MarkBack(buf);
    RootBack(buf, c, b);
    SmallFits(|b.files|);
    SmallFits(DirectoryField(p));
    SmallFits(0);
    PlacedSInt(buf, 8, false, b.version, 4);
    PlacedSInt(buf, 16, false, |b.files|, 4);
    PlacedSInt(buf, 20, false, DirectoryField(p), 4);
    AtSplit(buf, 24, Enc(false, b.format0, 2), Enc(false, b.format1, 2));
    PlacedUInt(buf, 24, false, b.format0, 2);
    PlacedUInt(buf, 26, false, b.format1, 2);
    PlacedSInt(buf, 28, false, 0, 4);
  }

  function HeaderOf(c: Codec, b: Archive, i: nat): Header
    requires i < |b.files|
  {
    Header(b.files[i].id, PayloadAt(PlanOf(c, b), i), |b.files[i].data|, Prepared(i, TextOf(b.files[i].name)))
  }

  /** One file's entry, name and payload as they stand in the image. */
  ghost predicate FileStands(buf: bytes, c: Codec, b: Archive, i: nat)
    requires i < |b.files|
  {
    var p, pos := PlanOf(c, b), 32 + 16 * i;
    && At(buf, pos, Enc(false, b.files[i].id, 4)) && At(buf, pos + 4, Enc(false, PayloadAt(p, i), 4))
    && At(buf, pos + 8, Enc(false, |b.files[i].data|, 4)) && At(buf, pos + 12, Enc(false, NamePos(p, i), 4))
    && At(buf, PayloadAt(p, i), b.files[i].data)
    && At(buf, NamePos(p, i), OrEmpty(StoreText(c, false, Prepared(i, TextOf(b.files[i].name)))))
    && PayloadAt(p, i) + |b.files[i].data| <= |buf| < MAX_SIZE && 0 < NamePos(p, i) <= |buf|
  }

  lemma FilePieces(buf: bytes, c: Codec, b: Archive, i: nat)
    requires Written(buf, c, b) && i < |b.files|
    ensures FileStands(buf, c, b, i)
  {
    hide At, Enc, HeadStands, EntryRow, EntryRows, NameRows, DataRows, Flatten, Fits, FileRecoverable, Encodable, NamePos, NamesAt, DataPos,
      DataEnd, Prepared, StoreText, Closing;
    var p := PlanOf(c, b);
    ItemStands(buf, p, Closing(p), i);
    EntryPieces(buf, p, i);
    PayloadsLaidOut(p, i);
    BelowTotal(p, i);
    assert p.items[i] == PieceOf(c, b.files[i], i);
  }

  lemma FileNumbers(c: Codec, b: Archive, i: nat)
    requires Recoverable(c, b) && i < |b.files|
    ensures Fits(b.files[i].id, 4) && Encodable(c, false, Prepared(i, TextOf(b.files[i].name)))
  {
    hide Fits, Encodable, Prepared;
    assert FileRecoverable(c, b.files[i], i);
  }

  lemma EntryBack(buf: bytes, c: Codec, b: Archive, i: nat)
    requires Written(buf, c, b) && i < |b.files|
    ensures ParseEntry(c, buf, 32 + 16 * i) == Ok(HeaderOf(c, b, i))
    ensures ParseData(buf, HeaderOf(c, b, i)) == Ok(b.files[i].data)
  {
    hide At, Enc, GetSInt, GetUInt, GetText, Fits, PayloadAt, NamePos, ImageStands, PlanOf, Prepared, StoreText, Encodable, Recoverable;
    PlanShape(c, b);
    var p, f, pos := PlanOf(c, b), b.files[i], 32 + 16 * i;
    FilePieces(buf, c, b, i);
    FileNumbers(c, b, i);
    SmallFits(PayloadAt(p, i));
    SmallFits(|f.data|);
    SmallFits(NamePos(p, i));
    PlacedSInt(buf, pos, false, f.id, 4);
    PlacedUInt(buf, pos + 4, false, PayloadAt(p, i), 4);
    PlacedUInt(buf, pos + 8, false, |f.data|, 4);
    PlacedUInt(buf, pos + 12, false, NamePos(p, i), 4);
    StoredText(c, Prepared(i, TextOf(f.name)));
    TextRead(c, false, buf, NamePos(p, i), Prepared(i, TextOf(f.name)));
    PlacedBound(buf, PayloadAt(p, i), f.data);
  }

  lemma {:induction false} EntriesBack(buf: bytes, c: Codec, b: Archive, k: nat)
    requires Written(buf, c, b) && k <= |b.files|
    ensures var r := ParseEntries(c, buf, k);
      r.Ok? && forall i :: 0 <= i < k ==> r.value[i] == HeaderOf(c, b, i)
  {
    hide Written, ParseEntry, HeaderOf;
    if k > 0 {
      EntriesBack(buf, c, b, k - 1);
      EntryBack(buf, c, b, k - 1);
    }
  }

  lemma {:induction false} FilesBack(buf: bytes, c: Codec, b: Archive, hs: seq<Header>, k: nat)
    requires Written(buf, c, b) && k <= |hs| == |b.files| && forall i :: 0 <= i < |hs| ==> hs[i] == HeaderOf(c, b, i)
    ensures ParseFiles(buf, hs, k) == Ok(NormalFiles(b.files)[..k])
  {
    hide Written, ParseEntry, ParseData, PlanOf, PayloadAt, Prepared;
    if k > 0 {
      FilesBack(buf, c, b, hs, k - 1);
      EntryBack(buf, c, b, k - 1);
      assert hs[k - 1] == HeaderOf(c, b, k - 1);
      assert NormalFiles(b.files)[..k] == NormalFiles(b.files)[..k - 1] + [NormalFile(b.files[k - 1], k - 1)];
    }
  }

  /** Reading what was written always gives the normal form. */
  lemma RoundTrip(c: Codec, b: Archive)
    requires Recoverable(c, b) && Total(PlanOf(c, b)) <= INT32_MAX
    ensures Shaped(PlanOf(c, b)) && ParseArchive(c, Image(PlanOf(c, b), Closing(PlanOf(c, b)))) == Ok(Normal(b))
  {
    hide At, ImageStands, Image, PlanOf, ParseHead, ParseEntries, ParseFiles, Recoverable, NormalFiles, Total, HeaderOf;
    PlanShape(c, b);
    var buf := Image(PlanOf(c, b), Closing(PlanOf(c, b)));
    ImagePieces(PlanOf(c, b), Closing(PlanOf(c, b)));
    Pieces(buf, PlanOf(c, b));
    HeadBack(buf, c, b);
    EntriesBack(buf, c, b, |b.files|);
    FilesBack(buf, c, b, ParseEntries(c, buf, |b.files|).value, |b.files|);
    AllRows(NormalFiles(b.files));
  }

  /** The normal form is laid down exactly like the archive itself, and is its own normal form. */
  lemma NormalIsStable(c: Codec, b: Archive)
    ensures PlanOf(c, Normal(b)) == PlanOf(c, b)
    ensures Normal(Normal(b)) == Normal(b)
  {
    hide StoreText, Enc;
    forall i | 0 <= i < |b.files|
      ensures PieceOf(c, Normal(b).files[i], i) == PieceOf(c, b.files[i], i)
      ensures NormalFile(Normal(b).files[i], i) == Normal(b).files[i]
    {
    }
    assert PiecesOf(c, Normal(b).files) == PiecesOf(c, b.files);
    assert NormalFiles(Normal(b).files) == NormalFiles(b.files);
  }

  /** Writing what was read from a written archive reproduces it byte for byte. */
  lemma WriteReadWrite(c: Codec, b: Archive)
    requires Recoverable(c, b) && Writable(c, b)
    ensures Shaped(PlanOf(c, b))
    ensures var image := Image(PlanOf(c, b), Closing(PlanOf(c, b)));
      && ParseArchive(c, image).Ok?
      && var again := ParseArchive(c, image).value;
         Writable(c, again) && Image(PlanOf(c, again), Closing(PlanOf(c, again))) == image
  {
    hide Image, PlanOf, Recoverable, Total, Closing, ParseArchive;
    RoundTrip(c, b);
    NormalIsStable(c, b);
    forall i | 0 <= i < |b.files|
      ensures Prepared(i, TextOf(Normal(b).files[i].name)) == Prepared(i, TextOf(b.files[i].name))
    {
    }
  }
}
