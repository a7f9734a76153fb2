/** BND2: the archive, what its names become, its writer, and which images the format check accepts. */
module Bnd2 {
  import opened Bytes
  import opened Reading
  import opened Texts
  import opened Labels
  import opened Writing
  import opened Emitting
  import opened Items
  import opened ItemWriting

  datatype File = File(id: int, name: Option<bytes>, data: bytes)

  datatype Archive = Archive(
    headerFlags: byte,
    fileFlags: byte,
    unk06: byte,
    unk07: byte,
    version: int,
    alignment: nat,
    mode: byte,
    unk1b: byte,
    baseDirectory: Option<bytes>,
    files: seq<File>
  )

  const NAMELESS: byte := 0
  const FULL_PATH: byte := 2
  const BASE_DIRECTORY: byte := 3
  const MODES: set<int> := {0, 1, 2, 3}
  const UNK1B_OPTIONS: set<int> := {0, 1}

  const PREFIX: bytes := [0x4B, 0x3A, 0x5C]
  const COLON: byte := 0x3A

  predicate HasNameOffsets(fileFlags: byte) {
    fileFlags / 8 % 2 == 1
  }

  predicate WritesNames(b: Archive) {
    HasNameOffsets(b.fileFlags) && b.mode != NAMELESS
  }

  predicate WritesBase(b: Archive) {
    HasNameOffsets(b.fileFlags) && b.mode == BASE_DIRECTORY
  }

  /** In full-path mode a name without a drive gets one. */
  function Prepared(mode: byte, name: bytes): bytes {
    if mode != FULL_PATH || (|name| > 1 && name[1] == COLON) then name else PREFIX + name
  }

  /** A drive is added at most once. */
  lemma PreparedTwice(mode: byte, name: bytes)
    ensures Prepared(mode, Prepared(mode, name)) == Prepared(mode, name)
  {
  }

  // ------------------------------------------------------------------ layout

  const HOLES := Holes(ItemOffset, true)

  function PieceOf(c: Codec, b: Archive, f: File): Piece {
    Piece(f.id, if WritesNames(b) then OrEmpty(StoreText(c, false, Prepared(b.mode, TextOf(f.name)))) else [], f.data)
  }

  function PiecesOf(c: Codec, b: Archive): (s: seq<Piece>)
    ensures |s| == |b.files| && forall i :: 0 <= i < |s| ==> s[i] == PieceOf(c, b, b.files[i])
  {
    seq(|b.files|, i requires 0 <= i < |b.files| => PieceOf(c, b, b.files[i]))
  }

  function PlanOf(c: Codec, b: Archive): Plan {
    Plan([b.headerFlags, b.fileFlags, b.unk06, b.unk07], b.version, Enc(false, b.alignment, 2) + [b.mode, b.unk1b],
         HasNameOffsets(b.fileFlags), WritesNames(b),
         if WritesBase(b) then OrEmpty(StoreText(c, false, TextOf(b.baseDirectory))) else [],
         PiecesOf(c, b), b.alignment)
  }

  // ------------------------------------------------------------------ writing

  ghost predicate NamesOk(c: Codec, b: Archive, k: nat)
    requires k <= |b.files|
  {
    WritesNames(b) ==> forall i :: 0 <= i < k ==> c.encode(Prepared(b.mode, TextOf(b.files[i].name))).Ok?
  }

  /** What the writer needs: texts that can be encoded, and an image within 31 bits. */
  ghost predicate Writable(c: Codec, b: Archive) {
    && (WritesBase(b) ==> c.encode(TextOf(b.baseDirectory)).Ok?)
    && NamesOk(c, b, |b.files|)
    && PayloadsEnd(PlanOf(c, b)) <= INT32_MAX
  }

  /** The first text that cannot be encoded, the base directory coming before the names. */
  ghost predicate Fails(c: Codec, b: Archive, e: Error) {
    BaseFails(c, b, e) || ((WritesBase(b) ==> c.encode(TextOf(b.baseDirectory)).Ok?) && WritesNames(b) && NamesFail(c, b, e))
  }

  ghost predicate BaseFails(c: Codec, b: Archive, e: Error) {
    WritesBase(b) && c.encode(TextOf(b.baseDirectory)) == Err(e)
  }

  ghost predicate NamesFail(c: Codec, b: Archive, e: Error) {
    exists i :: 0 <= i < |b.files| && NamesOk(c, b, i) && c.encode(Prepared(b.mode, TextOf(b.files[i].name))) == Err(e)
  }

  ghost predicate TooLong(c: Codec, b: Archive, e: Error) {
    e == OutOfRange && PayloadsEnd(PlanOf(c, b)) > INT32_MAX
  }

  /** What the steps of a write rely on. */
  ghost predicate Aimed(w: BinaryWriter, p: Plan)
    reads w
  {
    Shaped(p) && ImageStands(w.target, p, 0)
  }

  method WriteEntries(w: BinaryWriter, b: Archive, ghost c: Codec, ghost p: Plan, ghost wholes: map<Hole, nat>)
    requires p == PlanOf(c, b) && Aimed(w, p) && Stage(w, p, HOLES, wholes, 0, 0, 0) && |w.buf| == HeadSize(p)
    modifies w`buf, w`pos, w`open, w.table
    ensures |w.buf| == DirectoryPos(p) && Stage(w, p, HOLES, wholes, |p.items|, 0, 0)
  {
    hide Stage, ImageStands, PayloadsEnd, DataEnd, DataPos, EntryRow, At;
    for i := 0 to |b.files|
      invariant |w.buf| == EntryPos(p, i) && Stage(w, p, HOLES, wholes, i, 0, 0)
    {
      ItemStands(w.target, p, 0, i);
      WriteEntry(w, b.files[i].id, |b.files[i].data|, true, HasNameOffsets(b.fileFlags), WritesNames(b), ItemOffset, i, p, HOLES, wholes);
    }
  }

  lemma PieceName(c: Codec, b: Archive, i: nat)
    requires i < |b.files| && WritesNames(b)
    ensures |PlanOf(c, b).items| == |b.files|
    ensures PlanOf(c, b).items[i].name == OrEmpty(StoreText(c, false, Prepared(b.mode, TextOf(b.files[i].name))))
  {
    hide StoreText, Prepared, Enc;
  }

  /** Names, each after the offset that points to it. Fails when one cannot be encoded or lies too
      far into the image. */
  method WriteNames(w: BinaryWriter, c: Codec, b: Archive, ghost p: Plan, ghost wholes: map<Hole, nat>) returns (r: Result<()>)
    requires p == PlanOf(c, b) && Aimed(w, p) && Stage(w, p, HOLES, wholes, |p.items|, 0, 0) && |w.buf| == NamesAt(p) && WritesNames(b)
    modifies w`buf, w`pos, w`steps, w`open, w.table
    ensures NamesOk(c, b, |b.files|) && PayloadsEnd(p) <= INT32_MAX ==> r.Ok?
    ensures r.Err? ==> NamesFail(c, b, r.error) || TooLong(c, b, r.error)
    ensures r.Ok? ==> NamesOk(c, b, |b.files|) && |w.buf| == NamesEnd(p) && Stage(w, p, HOLES, wholes, |p.items|, |p.items|, 0)
  {
    hide Stage, ImageStands, PayloadsEnd, NamesEnd, DataEnd, DataPos, EntryRow, At, Prepared, StoreText, EntryPos, PlanOf, NamePos, NamesAt;
    PlanShape(c, b);
    NameEnds(p);
    for i := 0 to |b.files|
      invariant |w.buf| == NamePos(p, i) && Stage(w, p, HOLES, wholes, |p.items|, i, 0) && NamesOk(c, b, i)
    {
      PositionsBelowEnd(p, i);
      ItemStands(w.target, p, 0, i);
      PieceName(c, b, i);
      if |w.buf| > INT32_MAX {
        return Err(OutOfRange);
      }
      FillName(w, i, p, HOLES, wholes, |p.items|);
      var text := StoreText(c, false, Prepared(b.mode, TextOf(b.files[i].name)));
      StoredOk(c, Prepared(b.mode, TextOf(b.files[i].name)));
      if text.Err? {
        return Err(text.error);
      }
      Append(w, text.value, p, HOLES, wholes, |p.items|, i + 1, 0);
    }
    return Ok(());
  }

  method WritePayloads(w: BinaryWriter, b: Archive, ghost c: Codec, ghost p: Plan) returns (r: Result<()>)
    requires p == PlanOf(c, b) && Aimed(w, p) && Stage(w, p, HOLES, TOTAL_ONLY, |p.items|, |p.items|, 0) && |w.buf| == NamesEnd(p)
    modifies w`buf, w`pos, w`steps, w`open, w.table
    ensures PayloadsEnd(p) <= INT32_MAX ==> r.Ok?
    ensures r.Err? ==> r.error == OutOfRange
    ensures r.Ok? ==> |w.buf| == PayloadsEnd(p) && Stage(w, p, HOLES, TOTAL_ONLY, |p.items|, |p.items|, |p.items|)
  {
    hide Stage, ImageStands, NamesEnd, DataEnd, DataPos, EntryRow, At, Prepared, StoreText, EntryPos;
    NoData(p.items, p.align, NamesEnd(p));
    for i := 0 to |b.files|
      invariant |w.buf| == DataEnd(p.items, p.align, NamesEnd(p), i) && Stage(w, p, HOLES, TOTAL_ONLY, |p.items|, |p.items|, i)
    {
      PositionsBelowEnd(p, i + 1);
      DataStep(p.items, p.align, NamesEnd(p), i);
      ItemStands(w.target, p, 0, i);
      Padding(p, i);
      if b.alignment > 0 {
        PadTo(w, b.alignment, p, HOLES, TOTAL_ONLY, |p.items|, |p.items|, i);
      }
      if |w.buf| > INT32_MAX || |b.files[i].data| > INT32_MAX {
        return Err(OutOfRange);
      }
      WritePayload(w, b.files[i].data, true, ItemOffset, i, p, HOLES, TOTAL_ONLY, |p.items|);
    }
    return Ok(());
  }

  lemma Padding(p: Plan, i: nat)
    requires i < |p.items|
    ensures PayloadAt(p, i) == PadUp(DataEnd(p.items, p.align, NamesEnd(p), i), p.align)
  {
    hide DataEnd, NamesEnd;
  }

  /** The base directory, or the zero that stands for none. */
  method WriteBase(w: BinaryWriter, c: Codec, b: Archive, ghost p: Plan) returns (r: Result<()>)
    requires p == PlanOf(c, b) && Aimed(w, p) && Stage(w, p, HOLES, HeadHoles(BaseDirOffset), |p.items|, 0, 0) && |w.buf| == DirectoryPos(p)
    modifies w`buf, w`pos, w`steps, w`open, w.table
    ensures (WritesBase(b) ==> c.encode(TextOf(b.baseDirectory)).Ok?) && PayloadsEnd(p) <= INT32_MAX ==> r.Ok?
    ensures r.Err? ==> BaseFails(c, b, r.error) || TooLong(c, b, r.error)
    ensures r.Ok? ==>
      && (WritesBase(b) ==> c.encode(TextOf(b.baseDirectory)).Ok?)
      && |w.buf| == NamesAt(p) && Stage(w, p, HOLES, TOTAL_ONLY, |p.items|, 0, 0)
  {
    hide Stage, PayloadsEnd, DataEnd, DataPos, EntryRow, At, Prepared, EntryPos, PiecesOf, Enc, EntryRows, NameRows, DataRows, Flatten;
    PositionsBelowEnd(p, 0);
    assert HeadHoles(BaseDirOffset) - {DirectoryHole(BaseDirOffset)} == TOTAL_ONLY;
    if WritesBase(b) {
      if |w.buf| > INT32_MAX {
        return Err(OutOfRange);
      }
      var text := StoreText(c, false, TextOf(b.baseDirectory));
      if text.Err? {
        return Err(text.error);
      }
      FillHead(w, BaseDirOffset, |w.buf|, p, HOLES, HeadHoles(BaseDirOffset), |p.items|, 0, 0);
      Append(w, text.value, p, HOLES, TOTAL_ONLY, |p.items|, 0, 0);
    } else {
      FillHead(w, BaseDirOffset, 0, p, HOLES, HeadHoles(BaseDirOffset), |p.items|, 0, 0);
    }
    return Ok(());
  }

  /** Writing succeeds exactly for writable archives, and then yields the closed-form image; no
      reservation is ever taken twice or left open. */
  method WriteArchive(c: Codec, b: Archive) returns (r: Result<bytes>)
    ensures r.Ok? <==> Writable(c, b)
    ensures r.Ok? ==> r.value == Image(PlanOf(c, b), 0)
    ensures r.Err? ==> Fails(c, b, r.error) || TooLong(c, b, r.error)
  {
    hide Live, Stage, ImageStands, PayloadsEnd, DataEnd, DataPos, EntryRow, At, Prepared, EntryPos, PiecesOf, Image, Enc, HeadStands, PlanOf,
      NamesAt, NamePos;
    ghost var p := PlanOf(c, b);
    PlanShape(c, b);
    ImagePieces(p, 0);
    Pieces(Image(p, 0), p);
    PositionsBelowEnd(p, 0);
    var w := Start(false, Image(p, 0));
    if |b.files| > INT32_MAX {
      return Err(OutOfRange);
    }
    WriteHead(w, [b.headerFlags, b.fileFlags, b.unk06, b.unk07], b.version, |b.files|, Enc(false, b.alignment, 2) + [b.mode, b.unk1b],
              HasNameOffsets(b.fileFlags), BaseDirOffset, p, HOLES, PayloadsEnd(p));
    WriteEntries(w, b, c, p, HeadHoles(BaseDirOffset));
    var _ :- WriteBase(w, c, b, p);
    if WritesNames(b) {
      var _ :- WriteNames(w, c, b, p, TOTAL_ONLY);
    } else {
      NoNamesWritten(c, b, w);
    }
    var _ :- WritePayloads(w, b, c, p);
    if |w.buf| > INT32_MAX {
      return Err(OutOfRange);
    }
    r := Close(w, p, HOLES);
  }

  lemma PlanShape(c: Codec, b: Archive)
    ensures var p := PlanOf(c, b);
      && Shaped(p) && |p.items| == |b.files| && p.wide == HasNameOffsets(b.fileFlags) && p.named == WritesNames(b)
      && p.kind == [b.headerFlags, b.fileFlags, b.unk06, b.unk07] && p.version == b.version
      && p.tail == Enc(false, b.alignment, 2) + [b.mode, b.unk1b]
  {
    hide Enc;
  }

  lemma Pieces(buf: bytes, p: Plan)
    requires ImageStands(buf, p, 0)
    ensures HeadStands(buf, p, PayloadsEnd(p)) && |buf| == PayloadsEnd(p) && At(buf, TOTAL_AT, Enc(false, PayloadsEnd(p), 4))
  {
    hide At, Enc, DataEnd, Flatten, EntryRows, NameRows, DataRows;
  }

  /** Without names the name area is empty. */
  lemma NoNamesWritten(c: Codec, b: Archive, w: BinaryWriter)
    requires !WritesNames(b)
    ensures var p := PlanOf(c, b);
      && NamesAt(p) == NamesEnd(p)
      && (Stage(w, p, HOLES, TOTAL_ONLY, |p.items|, 0, 0) ==> Stage(w, p, HOLES, TOTAL_ONLY, |p.items|, |p.items|, 0))
  {
    hide Live, OpenAfter, EntryPos;
    var p := PlanOf(c, b);
    NoNames(p, HOLES, TOTAL_ONLY, |p.items|);
    FlattenUniform(NameRows(p.items), 0);
    AllRows(NameRows(p.items));
  }

  // ------------------------------------------------------------------ the format check

  /** The quick check on raw bytes. */
  predicate IsFormat(s: bytes) {
    |s| >= 32 && s[..4] == MAGIC
    && var version := Signed(UnLE(s[8..12]), 4);
       var base := Signed(UnLE(s[20..24]), 4);
       var mode, unk1b := s[26], s[27];
       && (if mode == 0 || mode == 1 || mode == 2 then base >= 0 && base <= |s| && base == 0
           else mode == BASE_DIRECTORY && base >= 0 && base <= |s|)
       && 202 <= version <= 211
       && (unk1b == 0 || unk1b == 1)
       && UnLE(s[28..32]) == 0
  }

  /** A written image passes the check exactly when its version, path mode and unknown byte are in
      range; the offsets are always right. */
  lemma RecognisesOwn(c: Codec, b: Archive)
    requires Fits(b.version, 4) && PayloadsEnd(PlanOf(c, b)) <= INT32_MAX
    ensures IsFormat(Image(PlanOf(c, b), 0)) <==> 202 <= b.version <= 211 && b.mode in MODES && b.unk1b in UNK1B_OPTIONS
  {
    hide Enc, UnLE, Image, EntryRows, NameRows, DataRows, Flatten, PiecesOf, EntryPos, DataEnd, Pow256, Signed;
    var p := PlanOf(c, b);
    var s := Image(p, 0);
    ImagePieces(p, 0);
    PositionsBelowEnd(p, 0);
    SmallFits(DirectoryField(p));
    SmallFits(0);
    EncSigned(false, b.version, 4);
    EncSigned(false, DirectoryField(p), 4);
    EncUnsigned(false, 0, 4);
    assert s[26] == s[24..28][2] && s[27] == s[24..28][3];
  }
}
