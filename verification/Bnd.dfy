/** The first BND generation: archive, layout and writer. */
module Bnd {
  import opened Bytes
  import opened Reading
  import opened Texts
  import opened Labels
  import opened Writing
  import opened Emitting
  import opened Items
  import opened ItemWriting

  datatype File = File(id: int, name: Option<bytes>, data: bytes)

  datatype Archive = Archive(version: int, root: Option<bytes>, format0: nat, format1: nat, files: seq<File>)

  const KIND: bytes := [0xFF, 0xFF, 0, 0]
  const ALIGN: nat := 16
  const FILE_PREFIX: bytes := [0x46, 0x69, 0x6C, 0x65, 0x5F]

  /** A file without a name is called after its place in the archive. */
  function Prepared(i: nat, name: bytes): (s: bytes)
    ensures s != []
  {
    if name == [] then FILE_PREFIX + DecimalText(i) else name
  }

  // ------------------------------------------------------------------ layout

  const HOLES := Holes(ItemData, false)

  function PieceOf(c: Codec, f: File, i: nat): Piece {
    Piece(f.id, OrEmpty(StoreText(c, false, Prepared(i, TextOf(f.name)))), f.data)
  }

  function PiecesOf(c: Codec, files: seq<File>): (s: seq<Piece>)
    ensures |s| == |files| && forall i :: 0 <= i < |s| ==> s[i] == PieceOf(c, files[i], i)
  {
    seq(|files|, i requires 0 <= i < |files| => PieceOf(c, files[i], i))
  }

  function PlanOf(c: Codec, b: Archive): Plan {
    Plan(KIND, b.version, Enc(false, b.format0, 2) + Enc(false, b.format1, 2), true, true,
         if TextOf(b.root) == [] then [] else OrEmpty(StoreText(c, false, TextOf(b.root))),
         PiecesOf(c, b.files), ALIGN)
  }

  /** The names are padded even when no payload follows. */
  function Closing(p: Plan): nat {
    if p.items == [] then AlignUp(NamesEnd(p), ALIGN) - NamesEnd(p) else 0
  }

  function Total(p: Plan): nat { PayloadsEnd(p) + Closing(p) }

  // ------------------------------------------------------------------ writing

  ghost predicate NamesOk(c: Codec, b: Archive, k: nat)
    requires k <= |b.files|
  {
    forall i :: 0 <= i < k ==> c.encode(Prepared(i, TextOf(b.files[i].name))).Ok?
  }

  ghost predicate RootOk(c: Codec, b: Archive) {
    TextOf(b.root) != [] ==> c.encode(TextOf(b.root)).Ok?
  }

  /** What the writer needs: texts that can be encoded, and an image within 31 bits. */
  ghost predicate Writable(c: Codec, b: Archive) {
    RootOk(c, b) && NamesOk(c, b, |b.files|) && Total(PlanOf(c, b)) <= INT32_MAX
  }

  /** The first text that cannot be encoded, the root coming before the names. */
  ghost predicate Fails(c: Codec, b: Archive, e: Error) {
    RootFails(c, b, e) || (RootOk(c, b) && NamesFail(c, b, e))
  }

  ghost predicate RootFails(c: Codec, b: Archive, e: Error) {
    TextOf(b.root) != [] && c.encode(TextOf(b.root)) == Err(e)
  }

  ghost predicate NamesFail(c: Codec, b: Archive, e: Error) {
    exists i :: 0 <= i < |b.files| && NamesOk(c, b, i) && c.encode(Prepared(i, TextOf(b.files[i].name))) == Err(e)
  }

  ghost predicate TooLong(c: Codec, b: Archive, e: Error) {
    e == OutOfRange && Total(PlanOf(c, b)) > INT32_MAX
  }

  lemma BelowTotal(p: Plan, k: nat)
    requires k <= |p.items|
    ensures |p.items| <= DirectoryPos(p) <= NamePos(p, k) <= PayloadsEnd(p) <= Total(p)
  {
    hide NamesEnd, NamePos, DirectoryPos;
    PositionsBelowEnd(p, k);
  }

  /** What the steps of a write rely on. */
  ghost predicate Aimed(w: BinaryWriter, p: Plan)
    reads w
  {
    Shaped(p) && ImageStands(w.target, p, Closing(p))
  }

  lemma PayloadBound(p: Plan, i: nat)
    requires i < |p.items|
    ensures PayloadAt(p, i) + |p.items[i].data| <= Total(p)
  {
    hide PayloadsEnd, PayloadAt;
    PayloadsLaidOut(p, i);
  }

  method WriteEntries(w: BinaryWriter, b: Archive, ghost c: Codec, ghost p: Plan, ghost wholes: map<Hole, nat>) returns (r: Result<()>)
    requires p == PlanOf(c, b) && Aimed(w, p) && Stage(w, p, HOLES, wholes, 0, 0, 0) && |w.buf| == HeadSize(p)
    modifies w`buf, w`pos, w`open, w.table
    ensures Total(p) <= INT32_MAX ==> r.Ok?
    ensures r.Err? ==> r.error == OutOfRange
    ensures r.Ok? ==> |w.buf| == DirectoryPos(p) && Stage(w, p, HOLES, wholes, |p.items|, 0, 0)
  {
    hide Stage, ImageStands, Total, Closing, PayloadAt, EntryRow, At;
    for i := 0 to |b.files|
      invariant |w.buf| == EntryPos(p, i) && Stage(w, p, HOLES, wholes, i, 0, 0)
    {
      ItemStands(w.target, p, Closing(p), i);
      PayloadBound(p, i);
      if |b.files[i].data| > INT32_MAX {
        return Err(OutOfRange);
      }
      WriteEntry(w, b.files[i].id, |b.files[i].data|, false, true, true, ItemData, i, p, HOLES, wholes);
    }
    return Ok(());
  }

  method WriteRoot(w: BinaryWriter, c: Codec, b: Archive, ghost p: Plan) returns (r: Result<()>)
    requires p == PlanOf(c, b) && Aimed(w, p) && Stage(w, p, HOLES, HeadHoles(RootFilePath), |p.items|, 0, 0) && |w.buf| == DirectoryPos(p)
    modifies w`buf, w`pos, w`steps, w`open, w.table
    ensures RootOk(c, b) && Total(p) <= INT32_MAX ==> r.Ok?
    ensures r.Err? ==> RootFails(c, b, r.error) || TooLong(c, b, r.error)
    ensures r.Ok? ==> RootOk(c, b) && |w.buf| == NamesAt(p) && Stage(w, p, HOLES, TOTAL_ONLY, |p.items|, 0, 0)
  {
    hide Stage, PayloadsEnd, Total, Closing, At, EntryPos, PiecesOf, Enc, EntryRows, NameRows, DataRows, Flatten;
    BelowTotal(p, 0);
    assert HeadHoles(RootFilePath) - {DirectoryHole(RootFilePath)} == TOTAL_ONLY;
    if TextOf(b.root) != [] {
      if |w.buf| > INT32_MAX {
        return Err(OutOfRange);
      }
      var text := StoreText(c, false, TextOf(b.root));
      if text.Err? {
        return Err(text.error);
      }
      FillHead(w, RootFilePath, |w.buf|, p, HOLES, HeadHoles(RootFilePath), |p.items|, 0, 0);
      Append(w, text.value, p, HOLES, TOTAL_ONLY, |p.items|, 0, 0);
    } else {
      FillHead(w, RootFilePath, 0, p, HOLES, HeadHoles(RootFilePath), |p.items|, 0, 0);
    }
    return Ok(());
  }

  lemma PieceName(c: Codec, b: Archive, i: nat)
    requires i < |b.files|
    ensures |PlanOf(c, b).items| == |b.files|
    ensures PlanOf(c, b).items[i].name == OrEmpty(StoreText(c, false, Prepared(i, TextOf(b.files[i].name))))
  {
    hide StoreText, Prepared, Enc;
  }

  method WriteNames(w: BinaryWriter, c: Codec, b: Archive, ghost p: Plan, ghost wholes: map<Hole, nat>) returns (r: Result<()>)
    requires p == PlanOf(c, b) && Aimed(w, p) && Stage(w, p, HOLES, wholes, |p.items|, 0, 0) && |w.buf| == NamesAt(p)
    modifies w`buf, w`pos, w`steps, w`open, w.table
    ensures NamesOk(c, b, |b.files|) && Total(p) <= INT32_MAX ==> r.Ok?
    ensures r.Err? ==> NamesFail(c, b, r.error) || TooLong(c, b, r.error)
    ensures r.Ok? ==> NamesOk(c, b, |b.files|) && |w.buf| == NamesEnd(p) && Stage(w, p, HOLES, wholes, |p.items|, |p.items|, 0)
  {
    hide Stage, ImageStands, PayloadsEnd, Total, Closing, NamesEnd, DataEnd, DataPos, EntryRow, At, Prepared, StoreText, EntryPos, PlanOf, NamePos, NamesAt;
    PlanShape(c, b);
    NameEnds(p);
    for i := 0 to |b.files|
      invariant |w.buf| == NamePos(p, i) && Stage(w, p, HOLES, wholes, |p.items|, i, 0) && NamesOk(c, b, i)
    {
      BelowTotal(p, i);
      ItemStands(w.target, p, Closing(p), i);
      PieceName(c, b, i);
      if |w.buf| > INT32_MAX {
        return Err(OutOfRange);
      }
      FillName(w, i, p, HOLES, wholes, |p.items|);
      var text := StoreText(c, false, Prepared(i, TextOf(b.files[i].name)));
      StoredOk(c, Prepared(i, TextOf(b.files[i].name)));
      if text.Err? {
        return Err(text.error);
      }
      Append(w, text.value, p, HOLES, wholes, |p.items|, i + 1, 0);
    }
    return Ok(());
  }

  /** Behind the names, and between payloads, the image is padded. */
  lemma PaddingStands(buf: bytes, p: Plan, i: nat)
    requires p.align == ALIGN && ImageStands(buf, p, Closing(p)) && i <= |p.items| && (i == |p.items| ==> i == 0)
    ensures var e := DataEnd(p.items, p.align, NamesEnd(p), i);
      && At(buf, e, Fill(AlignUp(e, ALIGN) - e, 0))
      && AlignUp(e, ALIGN) == (if i < |p.items| then PayloadAt(p, i) else Total(p))
      && (i == 0 ==> e == NamesEnd(p))
  {
    hide *;
    NoData(p.items, p.align, NamesEnd(p));
    if i < |p.items| {
      ItemStands(buf, p, Closing(p), i);
      PayloadAligned(p, i);
    } else {
      ClosingStands(buf, p);
    }
  }

  lemma PayloadAligned(p: Plan, i: nat)
    requires p.align == ALIGN && i < |p.items|
    ensures AlignUp(DataEnd(p.items, p.align, NamesEnd(p), i), ALIGN) == PayloadAt(p, i)
  {
    hide DataEnd, NamesEnd, AlignUp;
  }

  lemma ClosingStands(buf: bytes, p: Plan)
    requires ImageStands(buf, p, Closing(p)) && |p.items| == 0
    ensures var e := NamesEnd(p);
      At(buf, e, Fill(AlignUp(e, ALIGN) - e, 0)) && AlignUp(e, ALIGN) == Total(p)
  {
    hide At, NamesEnd, HeadStands, Flatten, EntryRows, NameRows, DataRows, AlignUp;
    NoData(p.items, p.align, NamesEnd(p));
  }

  method WritePayloads(w: BinaryWriter, b: Archive, ghost c: Codec, ghost p: Plan) returns (r: Result<()>)
    requires p == PlanOf(c, b) && Aimed(w, p) && Stage(w, p, HOLES, TOTAL_ONLY, |p.items|, |p.items|, 0) && |w.buf| == NamesEnd(p)
    modifies w`buf, w`pos, w`steps, w`open, w.table
    ensures Total(p) <= INT32_MAX ==> r.Ok?
    ensures r.Err? ==> r.error == OutOfRange
    ensures r.Ok? ==> |w.buf| == Total(p) && Stage(w, p, HOLES, TOTAL_ONLY, |p.items|, |p.items|, |p.items|)
  {
    hide Stage, ImageStands, NamesEnd, DataEnd, DataPos, PayloadAt, EntryRow, At, Prepared, StoreText, EntryPos, AlignUp, Total, Closing, PayloadsEnd;
    ghost var n := |p.items|;
    PaddingStands(w.target, p, 0);
    PadTo(w, ALIGN, p, HOLES, TOTAL_ONLY, n, n, 0);
    for i := 0 to |b.files|
      invariant |w.buf| == (if i < n then PayloadAt(p, i) else Total(p)) && Stage(w, p, HOLES, TOTAL_ONLY, n, n, i)
    {
      PayloadBound(p, i);
      ItemStands(w.target, p, Closing(p), i);
      if |w.buf| > INT32_MAX {
        return Err(OutOfRange);
      }
      WritePayload(w, b.files[i].data, false, ItemData, i, p, HOLES, TOTAL_ONLY, n);
      NextPayload(p, i);
      if i + 1 < |b.files| {
        PaddingStands(w.target, p, i + 1);
        PadTo(w, ALIGN, p, HOLES, TOTAL_ONLY, n, n, i + 1);
      }
    }
    return Ok(());
  }

  lemma NextPayload(p: Plan, i: nat)
    requires i < |p.items|
    ensures PayloadAt(p, i) + |p.items[i].data| == DataEnd(p.items, p.align, NamesEnd(p), i + 1)
    ensures i + 1 == |p.items| ==> DataEnd(p.items, p.align, NamesEnd(p), i + 1) == Total(p)
  {
    hide NamesEnd, DataEnd, DataPos, AlignUp, PadUp;
    DataStep(p.items, p.align, NamesEnd(p), i);
  }

  lemma PlanShape(c: Codec, b: Archive)
    ensures var p := PlanOf(c, b);
      && Shaped(p) && |p.items| == |b.files| && p.wide && p.named && p.kind == KIND && p.version == b.version && p.align == ALIGN
      && p.tail == Enc(false, b.format0, 2) + Enc(false, b.format1, 2)
  {
    hide Enc;
  }

  lemma Pieces(buf: bytes, p: Plan)
    requires ImageStands(buf, p, Closing(p))
    ensures HeadStands(buf, p, Total(p)) && |buf| == Total(p) && At(buf, TOTAL_AT, Enc(false, Total(p), 4))
  {
    hide At, Enc, DataEnd, Flatten, EntryRows, NameRows, DataRows, Closing;
  }

  /** Writing succeeds exactly for writable archives, and then yields the closed-form image; no
      reservation is ever taken twice or left open. */
  method WriteArchive(c: Codec, b: Archive) returns (r: Result<bytes>)
    ensures r.Ok? <==> Writable(c, b)
    ensures r.Ok? ==> r.value == Image(PlanOf(c, b), Closing(PlanOf(c, b)))
    ensures r.Err? ==> Fails(c, b, r.error) || TooLong(c, b, r.error)
  {
    hide Live, Stage, ImageStands, PayloadsEnd, DataEnd, DataPos, At, Prepared, EntryPos, PiecesOf, Image, Enc, HeadStands, PlanOf,
      NamesAt, NamePos, Total, Closing, RootOk, RootFails, NamesFail;
    ghost var p := PlanOf(c, b);
    PlanShape(c, b);
    ImagePieces(p, Closing(p));
    Pieces(Image(p, Closing(p)), p);
    BelowTotal(p, 0);
    TotalIs(p);
    var w := Start(false, Image(p, Closing(p)));
    if |b.files| > INT32_MAX {
      return Err(OutOfRange);
    }
    WriteHead(w, KIND, b.version, |b.files|, Enc(false, b.format0, 2) + Enc(false, b.format1, 2), true, RootFilePath, p, HOLES, Total(p));
    var _ :- WriteEntries(w, b, c, p, HeadHoles(RootFilePath));
    var _ :- WriteRoot(w, c, b, p);
    var _ :- WriteNames(w, c, b, p, TOTAL_ONLY);
    var _ :- WritePayloads(w, b, c, p);
    if |w.buf| > INT32_MAX {
      return Err(OutOfRange);
    }
    r := Close(w, p, HOLES);
  }

  lemma TotalIs(p: Plan)
    ensures Total(p) == PayloadsEnd(p) + Closing(p)
  {
  }
}
