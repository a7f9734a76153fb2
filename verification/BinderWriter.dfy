/** The shared writing steps of BND3 and BND4: entry headers full of placeholders, then names,
    then padded payloads, each step filling the placeholders it has made obsolete. */
module BinderWriting {
  import opened Bytes
  import opened Format
  import opened Labels
  import opened Reservations
  import opened Writing
  import opened Reading
  import opened Texts
  import opened Binder

  // ------------------------------------------------------------------ which reservations are open

  function SizeKind(g: Geometry): Kind { if g.v4 then I64 else I32 }
  function OffsetKind(f: byte): Kind { if HasLongOffsets(f) then I64 else U32 }

  /** The kind with which an entry field is reserved, where it stands, and whether it exists. */
  function KindOf(g: Geometry, f: Field): Kind {
    match f
    case FileCompressedSize => SizeKind(g)
    case FileUncompressedSize => SizeKind(g)
    case FileDataOffset => OffsetKind(g.format)
    case _ => I32
  }

  function FieldAt(g: Geometry, f: Field): nat {
    match f
    case FileCompressedSize => CompressedAt(g)
    case FileUncompressedSize => UncompressedAt(g)
    case FileDataOffset => DataAt(g)
    case _ => NameAt(g)
  }

  predicate InUse(g: Geometry, f: Field) {
    match f
    case FileCompressedSize => true
    case FileUncompressedSize => HasCompression(g.format)
    case FileDataOffset => true
    case FileNameOffset => HasNames(g.format)
    case _ => false
  }

  /** For each entry field the files `lo..hi` whose reservation is open. */
  datatype Range = Range(lo: nat, hi: nat)
  datatype Phase = Phase(compressed: Range, uncompressed: Range, data: Range, name: Range)

  function RangeOf(ph: Phase, f: Field): Range {
    match f
    case FileCompressedSize => ph.compressed
    case FileUncompressedSize => ph.uncompressed
    case FileDataOffset => ph.data
    case _ => ph.name
  }

  function SetRange(ph: Phase, f: Field, r: Range): Phase {
    match f
    case FileCompressedSize => ph.(compressed := r)
    case FileUncompressedSize => ph.(uncompressed := r)
    case FileDataOffset => ph.(data := r)
    case _ => ph.(name := r)
  }

  /** One more file has the field reserved; one more file has it filled. */
  function Grown(ph: Phase, f: Field): Phase {
    SetRange(ph, f, RangeOf(ph, f).(hi := RangeOf(ph, f).hi + 1))
  }

  function Shrunk(ph: Phase, f: Field): Phase {
    SetRange(ph, f, RangeOf(ph, f).(lo := RangeOf(ph, f).lo + 1))
  }

  /** `entries` headers, `names` names and `data` payloads have been written. */
  function Progress(entries: nat, names: nat, data: nat): Phase {
    Phase(Range(data, entries), Range(data, entries), Range(data, entries), Range(names, entries))
  }

  function HoleOf(g: Geometry, f: Field, i: nat): Hole {
    Hole(Item(f, i), KindOf(g, f))
  }

  ghost predicate Pending(g: Geometry, ph: Phase, h: Hole) {
    && h.tag.Item?
    && InUse(g, h.tag.field)
    && h.kind == KindOf(g, h.tag.field)
    && RangeOf(ph, h.tag.field).lo <= h.tag.index < RangeOf(ph, h.tag.field).hi
  }

  /** The open reservations are exactly the archive-wide ones in `wholes` and the pending ones
      of the phase, each at the position of its field. */
  ghost predicate OpenIs(open: map<Hole, nat>, g: Geometry, base: nat, ph: Phase, wholes: map<Hole, nat>) {
    && (forall h :: h in wholes ==> h.tag.Whole?)
    && (forall h :: h in open <==> h in wholes || Pending(g, ph, h))
    && (forall h :: h in wholes ==> h in open && open[h] == wholes[h])
    && (forall h :: h in open && h.tag.Item? ==> open[h] == EntryPos(g, base, h.tag.index) + FieldAt(g, h.tag.field))
  }

  predicate EntryField(f: Field) {
    f.FileCompressedSize? || f.FileUncompressedSize? || f.FileDataOffset? || f.FileNameOffset?
  }

  /** The next reservation of a field is never taken, and extends the field's range. */
  lemma OpenStep(open: map<Hole, nat>, g: Geometry, base: nat, ph: Phase, wholes: map<Hole, nat>, f: Field)
    requires OpenIs(open, g, base, ph, wholes) && EntryField(f)
    requires RangeOf(ph, f).lo <= RangeOf(ph, f).hi
    ensures var i := RangeOf(ph, f).hi; var h := HoleOf(g, f, i);
      if InUse(g, f) then h !in open && OpenIs(open[h := EntryPos(g, base, i) + FieldAt(g, f)], g, base, Grown(ph, f), wholes)
      else OpenIs(open, g, base, Grown(ph, f), wholes)
  {
    hide EntryPos, FieldAt, KindOf;
  }

  /** The first open reservation of a field can be filled, and leaves the field's range. */
  lemma CloseStep(open: map<Hole, nat>, g: Geometry, base: nat, ph: Phase, wholes: map<Hole, nat>, f: Field)
    requires OpenIs(open, g, base, ph, wholes) && EntryField(f)
    requires RangeOf(ph, f).lo < RangeOf(ph, f).hi
    ensures var i := RangeOf(ph, f).lo; var h := HoleOf(g, f, i);
      if InUse(g, f) then
        h in open && open[h] == EntryPos(g, base, i) + FieldAt(g, f) && OpenIs(open - {h}, g, base, Shrunk(ph, f), wholes)
      else OpenIs(open, g, base, Shrunk(ph, f), wholes)
  {
    hide EntryPos, FieldAt, KindOf;
  }

  /** When every name and payload is written, nothing of the entries is left open. */
  lemma AllFilled(open: map<Hole, nat>, g: Geometry, base: nat, n: nat, wholes: map<Hole, nat>)
    requires OpenIs(open, g, base, Progress(n, n, n), wholes)
    ensures open == wholes
  {
    hide EntryPos;
  }

  // ------------------------------------------------------------------ what a step promises
  //
  // A step that starts from a live writer cannot fail, so its result code is not passed on:
  // the early returns behind it in the source are unreachable.

  /** The writer is live, in the right byte order, and agrees with its target so far. */
  ghost predicate Ready(w: BinaryWriter, be: bool, at: nat)
    reads w, w.table
  {
    w.Valid() && !w.closed && w.bigEndian == be && |w.buf| == at && w.OnTrack()
  }

  /** ... and its open reservations are those of the phase. */
  ghost predicate Going(w: BinaryWriter, g: Geometry, base: nat, ph: Phase, wholes: map<Hole, nat>, at: nat)
    reads w, w.table
  {
    Ready(w, g.be, at) && OpenIs(w.open, g, base, ph, wholes)
  }

  method Append(w: BinaryWriter, s: bytes, ghost g: Geometry, ghost base: nat, ghost ph: Phase, ghost wholes: map<Hole, nat>)
    requires Going(w, g, base, ph, wholes, |w.buf|) && At(w.target, |w.buf|, s)
    modifies w`buf, w`pos
    ensures |w.buf| == old(|w.buf|) + |s| && Going(w, g, base, ph, wholes, |w.buf|)
  {
    hide Agrees, Linked, Inside, Sound, OpenIs, At;
    var _ := w.Write(s);
  }

  method AppendInt(w: BinaryWriter, v: int, n: nat, ghost g: Geometry, ghost base: nat, ghost ph: Phase, ghost wholes: map<Hole, nat>)
    requires Going(w, g, base, ph, wholes, |w.buf|) && At(w.target, |w.buf|, Enc(g.be, v, n))
    modifies w`buf, w`pos
    ensures |w.buf| == old(|w.buf|) + n && Going(w, g, base, ph, wholes, |w.buf|)
  {
    hide Agrees, Linked, Inside, Sound, OpenIs, At;
    var _ := w.WriteInt(v, n);
  }

  /** Reserves an entry field of file `i`, formatting its name from prefix and index. */
  method ReserveField(w: BinaryWriter, f: Field, kind: Kind, i: nat, ghost g: Geometry, ghost base: nat, ghost ph: Phase, ghost wholes: map<Hole, nat>)
    requires EntryField(f) && InUse(g, f) && kind == KindOf(g, f) && i == RangeOf(ph, f).hi && RangeOf(ph, f).lo <= i
    requires |w.buf| == EntryPos(g, base, i) + FieldAt(g, f) && Going(w, g, base, ph, wholes, |w.buf|)
    requires |w.buf| + Width(kind) <= |w.target|
    modifies w`buf, w`pos, w`open, w.table
    ensures |w.buf| == old(|w.buf|) + Width(kind) && Going(w, g, base, Grown(ph, f), wholes, |w.buf|)
  {
    hide Agrees, Linked, Inside, Sound, OpenIs, EntryPos, FieldAt, KindOf, Grown;
    OpenStep(w.open, g, base, ph, wholes, f);
    var _ := w.Reserve(Item(f, i), kind);
  }

  /** Fills an entry field of file `i`. */
  method FillField(w: BinaryWriter, f: Field, kind: Kind, i: nat, v: int, ghost g: Geometry, ghost base: nat, ghost ph: Phase, ghost wholes: map<Hole, nat>)
    requires EntryField(f) && InUse(g, f) && kind == KindOf(g, f) && i == RangeOf(ph, f).lo && i < RangeOf(ph, f).hi
    requires Going(w, g, base, ph, wholes, |w.buf|)
    requires At(w.target, EntryPos(g, base, i) + FieldAt(g, f), Enc(g.be, v, Width(kind)))
    modifies w`buf, w`pos, w`steps, w`open, w.table
    ensures |w.buf| == old(|w.buf|) && Going(w, g, base, Shrunk(ph, f), wholes, |w.buf|)
  {
    hide Agrees, Linked, Inside, Sound, OpenIs, EntryPos, FieldAt, KindOf, Shrunk, At, Enc, Splice;
    CloseStep(w.open, g, base, ph, wholes, f);
    var _ := w.FillIn(Item(f, i), kind, v);
  }

  lemma WholeStep(open: map<Hole, nat>, g: Geometry, base: nat, ph: Phase, wholes: map<Hole, nat>, h: Hole, p: nat)
    requires OpenIs(open, g, base, ph, wholes) && h.tag.Whole?
    ensures h in open <==> h in wholes
    ensures h in wholes ==> open[h] == wholes[h]
    ensures OpenIs(open[h := p], g, base, ph, wholes[h := p])
    ensures OpenIs(open - {h}, g, base, ph, wholes - {h})
  {
    hide EntryPos, FieldAt, KindOf;
  }

  /** Reserves a field of the archive header. */
  method ReserveWhole(w: BinaryWriter, f: Field, kind: Kind, ghost g: Geometry, ghost base: nat, ghost ph: Phase, ghost wholes: map<Hole, nat>)
    requires Hole(Whole(f), kind) !in wholes
    requires Going(w, g, base, ph, wholes, |w.buf|) && |w.buf| + Width(kind) <= |w.target|
    modifies w`buf, w`pos, w`open, w.table
    ensures |w.buf| == old(|w.buf|) + Width(kind)
    ensures Going(w, g, base, ph, wholes[Hole(Whole(f), kind) := old(|w.buf|)], |w.buf|)
  {
    hide Agrees, Linked, Inside, Sound, OpenIs;
    WholeStep(w.open, g, base, ph, wholes, Hole(Whole(f), kind), |w.buf|);
    var _ := w.Reserve(Whole(f), kind);
  }

  method FillWhole(w: BinaryWriter, f: Field, kind: Kind, v: int, ghost g: Geometry, ghost base: nat, ghost ph: Phase, ghost wholes: map<Hole, nat>)
    requires Hole(Whole(f), kind) in wholes
    requires Going(w, g, base, ph, wholes, |w.buf|)
    requires At(w.target, wholes[Hole(Whole(f), kind)], Enc(g.be, v, Width(kind)))
    modifies w`buf, w`pos, w`steps, w`open, w.table
    ensures |w.buf| == old(|w.buf|)
    ensures Going(w, g, base, ph, wholes - {Hole(Whole(f), kind)}, |w.buf|)
  {
    hide Agrees, Linked, Inside, Sound, OpenIs, At, Enc, Splice;
    WholeStep(w.open, g, base, ph, wholes, Hole(Whole(f), kind), 0);
    var _ := w.FillIn(Whole(f), kind, v);
  }

  /** Aiming at a target that agrees with the old one on everything written so far. */
  ghost method Retarget(w: BinaryWriter, target: bytes, front: bytes, g: Geometry, base: nat, ph: Phase, wholes: map<Hole, nat>)
    requires Going(w, g, base, ph, wholes, |w.buf|)
    requires At(w.target, 0, front) && At(target, 0, front) && |w.buf| <= |front|
    modifies w`target
    ensures w.target == target && Going(w, g, base, ph, wholes, |w.buf|)
  {
    hide Linked, Inside, Sound, OpenIs;
    SamePrefix(w.target, target, front);
    w.target := target;
  }

  lemma SamePrefix(s: bytes, t: bytes, front: bytes)
    requires At(s, 0, front) && At(t, 0, front)
    ensures |front| <= |s| && |front| <= |t| && forall p :: 0 <= p < |front| ==> s[p] == t[p]
  {
    assert s[0..|front|] == t[0..|front|];
    forall p | 0 <= p < |front|
      ensures s[p] == t[p]
    {
      assert s[0..|front|][p] == s[p] && t[0..|front|][p] == t[p];
    }
  }

  // ------------------------------------------------------------------ the steps

  /** The entry's fields follow each other in the order of the format. */
  lemma Layout4(g: Geometry, base: nat, i: nat)
    requires g.v4
    ensures CompressedAt(g) == 8 && SizeKind(g) == I64
    ensures HasCompression(g.format) ==> UncompressedAt(g) == 16
    ensures DataAt(g) == if HasCompression(g.format) then 24 else 16
    ensures IdAt(g) == DataAt(g) + Width(OffsetKind(g.format))
    ensures NameAt(g) == IdAt(g) + if HasIds(g.format) then 4 else 0
    ensures TailAt(g) == NameAt(g) + if HasNames(g.format) then 4 else 0
    ensures Binder.EntrySize(g) == TailAt(g) + if g.format == NAMES1_ONLY then 8 else 0
    ensures EntryPos(g, base, i + 1) == EntryPos(g, base, i) + Binder.EntrySize(g)
  {
  }

  lemma Layout3(g: Geometry, base: nat, i: nat)
    requires !g.v4
    ensures CompressedAt(g) == 4 && SizeKind(g) == I32
    ensures DataAt(g) == 8
    ensures IdAt(g) == DataAt(g) + Width(OffsetKind(g.format))
    ensures NameAt(g) == IdAt(g) + if HasIds(g.format) then 4 else 0
    ensures TailAt(g) == UncompressedAt(g) == NameAt(g) + if HasNames(g.format) then 4 else 0
    ensures Binder.EntrySize(g) == TailAt(g) + if HasCompression(g.format) then 4 else 0
    ensures EntryPos(g, base, i + 1) == EntryPos(g, base, i) + Binder.EntrySize(g)
  {
  }

  lemma FieldsKinds(g: Geometry)
    ensures KindOf(g, FileCompressedSize) == KindOf(g, FileUncompressedSize) == SizeKind(g)
    ensures KindOf(g, FileDataOffset) == OffsetKind(g.format)
    ensures KindOf(g, FileNameOffset) == I32
    ensures Width(SizeKind(g)) == SizeWidth(g) && Width(OffsetKind(g.format)) == OffsetWidth(g.format)
    ensures FieldAt(g, FileCompressedSize) == CompressedAt(g) && FieldAt(g, FileUncompressedSize) == UncompressedAt(g)
    ensures FieldAt(g, FileDataOffset) == DataAt(g) && FieldAt(g, FileNameOffset) == NameAt(g)
  {
  }

  /** The pieces of an entry, each where the header writer will put it. */
  lemma EntryPieces(buf: bytes, pos: int, g: Geometry, v: Fields)
    requires EntryStands(buf, pos, g, v)
    ensures At(buf, pos, [WriteFlags(v.flags, g.bitBig)]) && At(buf, pos + 1, Fill(3, 0))
    ensures g.v4 ==> At(buf, pos + 4, Enc(g.be, -1, 4))
    ensures pos + CompressedAt(g) + SizeWidth(g) <= |buf|
    ensures HasCompression(g.format) ==> pos + UncompressedAt(g) + SizeWidth(g) <= |buf|
    ensures pos + DataAt(g) + OffsetWidth(g.format) <= |buf|
    ensures HasIds(g.format) ==> At(buf, pos + IdAt(g), Enc(g.be, v.id, 4))
    ensures HasNames(g.format) ==> pos + NameAt(g) + 4 <= |buf|
    ensures g.v4 && g.format == NAMES1_ONLY ==>
      At(buf, pos + TailAt(g), Enc(g.be, v.id, 4)) && At(buf, pos + TailAt(g) + 4, Enc(g.be, 0, 4))
  {
    hide Enc, Fill, WriteFlags, HasNames, HasIds, HasCompression, HasLongOffsets;
  }

  /** A field the format does not have is skipped on both sides. */
  lemma SkipField(w: BinaryWriter, f: Field, g: Geometry, base: nat, ph: Phase, wholes: map<Hole, nat>)
    requires EntryField(f) && !InUse(g, f) && Going(w, g, base, ph, wholes, |w.buf|)
    requires RangeOf(ph, f).lo <= RangeOf(ph, f).hi
    ensures Going(w, g, base, Grown(ph, f), wholes, |w.buf|)
    ensures RangeOf(ph, f).lo < RangeOf(ph, f).hi ==> Going(w, g, base, Shrunk(ph, f), wholes, |w.buf|)
  {
    hide Agrees, Linked, Inside, Sound, OpenIs;
    OpenStep(w.open, g, base, ph, wholes, f);
    if RangeOf(ph, f).lo < RangeOf(ph, f).hi {
      CloseStep(w.open, g, base, ph, wholes, f);
    }
  }

  method WriteHeader4(w: BinaryWriter, g: Geometry, flags: byte, id: int, i: nat,
                      ghost v: Fields, ghost base: nat, ghost wholes: map<Hole, nat>)
    requires g.v4 && v.flags == flags && v.id == id
    requires |w.buf| == EntryPos(g, base, i) && Going(w, g, base, Progress(i, 0, 0), wholes, |w.buf|)
    requires EntryStands(w.target, |w.buf|, g, v)
    modifies w`buf, w`pos, w`open, w.table
    ensures |w.buf| == EntryPos(g, base, i + 1) && Going(w, g, base, Progress(i + 1, 0, 0), wholes, |w.buf|)
  {
    hide Going, EntryStands, At, Enc, WriteFlags, KindOf, SizeKind, OffsetKind, FieldAt, EntryPos, Binder.EntrySize,
      HasNames, HasIds, HasCompression, HasLongOffsets,
      CompressedAt, UncompressedAt, DataAt, IdAt, NameAt, TailAt, SizeWidth, OffsetWidth;
    ghost var pos := EntryPos(g, base, i);
    EntryPieces(w.target, pos, g, v);
    Layout4(g, base, i);
    FieldsKinds(g);
    ghost var ph := Progress(i, 0, 0);
    Append(w, [WriteFlags(flags, g.bitBig)], g, base, ph, wholes);
    Append(w, Fill(3, 0), g, base, ph, wholes);
    AppendInt(w, -1, 4, g, base, ph, wholes);
    ReserveField(w, FileCompressedSize, I64, i, g, base, ph, wholes);
    ph := Grown(ph, FileCompressedSize);
    if HasCompression(g.format) {
      ReserveField(w, FileUncompressedSize, I64, i, g, base, ph, wholes);
    } else {
      SkipField(w, FileUncompressedSize, g, base, ph, wholes);
    }
    ph := Grown(ph, FileUncompressedSize);
    ReserveField(w, FileDataOffset, OffsetKind(g.format), i, g, base, ph, wholes);
    ph := Grown(ph, FileDataOffset);
    if HasIds(g.format) {
      AppendInt(w, id, 4, g, base, ph, wholes);
    }
    if HasNames(g.format) {
      ReserveField(w, FileNameOffset, I32, i, g, base, ph, wholes);
    } else {
      SkipField(w, FileNameOffset, g, base, ph, wholes);
    }
    ph := Grown(ph, FileNameOffset);
    if g.format == NAMES1_ONLY {
      AppendInt(w, id, 4, g, base, ph, wholes);
      AppendInt(w, 0, 4, g, base, ph, wholes);
    }
  }

  method WriteHeader3(w: BinaryWriter, g: Geometry, flags: byte, id: int, i: nat,
                      ghost v: Fields, ghost base: nat, ghost wholes: map<Hole, nat>)
    requires !g.v4 && v.flags == flags && v.id == id
    requires |w.buf| == EntryPos(g, base, i) && Going(w, g, base, Progress(i, 0, 0), wholes, |w.buf|)
    requires EntryStands(w.target, |w.buf|, g, v)
    modifies w`buf, w`pos, w`open, w.table
    ensures |w.buf| == EntryPos(g, base, i + 1) && Going(w, g, base, Progress(i + 1, 0, 0), wholes, |w.buf|)
  {
    hide Going, EntryStands, At, Enc, WriteFlags, KindOf, SizeKind, OffsetKind, FieldAt, EntryPos, Binder.EntrySize,
      HasNames, HasIds, HasCompression, HasLongOffsets,
      CompressedAt, UncompressedAt, DataAt, IdAt, NameAt, TailAt, SizeWidth, OffsetWidth;
    ghost var pos := EntryPos(g, base, i);
    EntryPieces(w.target, pos, g, v);
    Layout3(g, base, i);
    FieldsKinds(g);
    ghost var ph := Progress(i, 0, 0);
    Append(w, [WriteFlags(flags, g.bitBig)], g, base, ph, wholes);
    Append(w, Fill(3, 0), g, base, ph, wholes);
    ReserveField(w, FileCompressedSize, I32, i, g, base, ph, wholes);
    ph := Grown(ph, FileCompressedSize);
    ReserveField(w, FileDataOffset, OffsetKind(g.format), i, g, base, ph, wholes);
    ph := Grown(ph, FileDataOffset);
    if HasIds(g.format) {
      AppendInt(w, id, 4, g, base, ph, wholes);
    }
    if HasNames(g.format) {
      ReserveField(w, FileNameOffset, I32, i, g, base, ph, wholes);
    } else {
      SkipField(w, FileNameOffset, g, base, ph, wholes);
    }
    ph := Grown(ph, FileNameOffset);
    if HasCompression(g.format) {
      ReserveField(w, FileUncompressedSize, I32, i, g, base, ph, wholes);
    } else {
      SkipField(w, FileUncompressedSize, g, base, ph, wholes);
    }
  }

  /** Fills the name offset of file `i` with the current position and writes its text there. */
  method WriteName(w: BinaryWriter, c: Codec, wide: bool, g: Geometry, name: Option<bytes>, i: nat,
                   ghost n: nat, ghost stored: bytes, ghost base: nat, ghost wholes: map<Hole, nat>)
    returns (r: Result<()>)
    requires i < n && Going(w, g, base, Progress(n, i, 0), wholes, |w.buf|)
    requires HasNames(g.format) ==> At(w.target, EntryPos(g, base, i) + NameAt(g), Enc(g.be, |w.buf|, 4))
    requires At(w.target, |w.buf|, stored)
    requires stored == if HasNames(g.format) then OrEmpty(StoreText(c, wide, TextOf(name))) else []
    modifies w`buf, w`pos, w`steps, w`open, w.table
    ensures r.Ok? <==> (HasNames(g.format) ==> StoreText(c, wide, TextOf(name)).Ok?)
    ensures r.Err? ==> StoreText(c, wide, TextOf(name)) == Err(r.error)
    ensures r.Ok? ==> |w.buf| == old(|w.buf|) + |stored| && Going(w, g, base, Progress(n, i + 1, 0), wholes, |w.buf|)
  {
    hide Going, At, Enc, KindOf, FieldAt, EntryPos, HasNames, NameAt;
    ghost var ph := Progress(n, i, 0);
    FieldsKinds(g);
    if !HasNames(g.format) {
      SkipField(w, FileNameOffset, g, base, ph, wholes);
      return Ok(());
    }
    FillField(w, FileNameOffset, I32, i, |w.buf|, g, base, ph, wholes);
    var text :- c.encode(TextOf(name));
    Append(w, text + Terminator(wide), g, base, Progress(n, i + 1, 0), wholes);
    return Ok(());
  }

  /** Pads to 16 bytes unless the file is empty, then writes the payload, compressed if flagged. */
  method WriteDataCore(w: BinaryWriter, env: Env, f: BinderFile, ghost g: Geometry, ghost files: seq<StoredFile>, i: nat,
                       ghost dataBase: nat, ghost base: nat, ghost ph: Phase, ghost wholes: map<Hole, nat>)
    returns (r: Result<(nat, nat)>)
    requires i < |files| && files[i].size == |f.data| && files[i].payload == OrEmpty(StorePayload(env, f))
    requires |w.buf| == DataEnd(files, dataBase, i) && Going(w, g, base, ph, wholes, |w.buf|)
    requires At(w.target, DataEnd(files, dataBase, i), Padded(files, dataBase, i))
    modifies w`buf, w`pos
    ensures r.Ok? <==> StorePayload(env, f).Ok?
    ensures r.Err? ==> StorePayload(env, f) == Err(r.error)
    ensures r.Ok? ==> r.value == (DataPos(files, dataBase, i), |files[i].payload|)
    ensures r.Ok? ==> |w.buf| == DataEnd(files, dataBase, i + 1) && Going(w, g, base, ph, wholes, |w.buf|)
  {
    hide Going, At, DataEnd, OpenIs;
    DataEndStep(files, dataBase, i);
    AtSplit(w.target, DataEnd(files, dataBase, i), Fill(DataPos(files, dataBase, i) - DataEnd(files, dataBase, i), 0), files[i].payload);
    if |f.data| > 0 {
      PadTo(w, 16, g, base, ph, wholes);
    }
    var pos := |w.buf|;
    if IsCompressed(f.flags) {
      var compressed :- env.compress(f.data, f.info);
      Append(w, compressed, g, base, ph, wholes);
      return Ok((pos, |compressed|));
    }
    if |f.data| > 0 {
      Append(w, f.data, g, base, ph, wholes);
    }
    return Ok((pos, |f.data|));
  }

  method PadTo(w: BinaryWriter, align: nat, ghost g: Geometry, ghost base: nat, ghost ph: Phase, ghost wholes: map<Hole, nat>)
    requires align > 0 && Going(w, g, base, ph, wholes, |w.buf|)
    requires At(w.target, |w.buf|, Fill(AlignUp(|w.buf|, align) - |w.buf|, 0))
    modifies w`buf, w`pos
    ensures |w.buf| == AlignUp(old(|w.buf|), align) && Going(w, g, base, ph, wholes, |w.buf|)
  {
    hide Agrees, Linked, Inside, Sound, OpenIs, At, AlignUp;
    var _ := w.Pad(align);
  }

  lemma BeginGoing(w: BinaryWriter, g: Geometry, base: nat)
    requires Ready(w, g.be, 0) && w.open == map[]
    ensures Going(w, g, base, Progress(0, 0, 0), map[], |w.buf|)
  {
    hide Agrees, Linked, Inside, Sound;
  }

  lemma EndGoing(w: BinaryWriter, g: Geometry, base: nat, n: nat)
    requires Going(w, g, base, Progress(n, n, n), map[], |w.buf|)
    ensures Ready(w, g.be, |w.buf|) && w.open == map[]
  {
    hide Agrees, Linked, Inside, Sound, OpenIs;
    AllFilled(w.open, g, base, n, map[]);
  }

  /** Writes the payload of file `i` and fills its two sizes and its offset. */
  method WriteData(w: BinaryWriter, env: Env, g: Geometry, f: BinderFile, i: nat,
                   ghost files: seq<StoredFile>, ghost nameBase: nat, ghost dataBase: nat, ghost base: nat, ghost wholes: map<Hole, nat>)
    returns (r: Result<()>)
    requires i < |files| && files[i].size == |f.data| && files[i].payload == OrEmpty(StorePayload(env, f))
    requires |w.buf| == DataEnd(files, dataBase, i)
    requires Going(w, g, base, Progress(|files|, |files|, i), wholes, |w.buf|)
    requires At(w.target, DataEnd(files, dataBase, i), Padded(files, dataBase, i))
    requires EntryStands(w.target, EntryPos(g, base, i), g, FieldsOf(files, nameBase, dataBase, i))
    modifies w`buf, w`pos, w`steps, w`open, w.table
    ensures r.Ok? <==> StorePayload(env, f).Ok?
    ensures r.Err? ==> StorePayload(env, f) == Err(r.error)
    ensures r.Ok? ==>
      && |w.buf| == DataEnd(files, dataBase, i + 1)
      && Going(w, g, base, Progress(|files|, |files|, i + 1), wholes, |w.buf|)
  {
    hide Going, At, Enc, KindOf, FieldAt, EntryPos, HasCompression, HasNames, HasIds, DataEnd, DataPos,
      CompressedAt, UncompressedAt, DataAt, IdAt, NameAt, TailAt, SizeWidth, OffsetWidth, StorePayload;
    ghost var n := |files|;
    ghost var ph := Progress(n, n, i);
    FieldsKinds(g);
    var placed :- WriteDataCore(w, env, f, g, files, i, dataBase, base, ph, wholes);
    FillField(w, FileCompressedSize, SizeKind(g), i, placed.1, g, base, ph, wholes);
    ph := Shrunk(ph, FileCompressedSize);
    if HasCompression(g.format) {
      FillField(w, FileUncompressedSize, SizeKind(g), i, |f.data|, g, base, ph, wholes);
    } else {
      SkipField(w, FileUncompressedSize, g, base, ph, wholes);
    }
    ph := Shrunk(ph, FileUncompressedSize);
    FillField(w, FileDataOffset, OffsetKind(g.format), i, placed.0, g, base, ph, wholes);
    return Ok(());
  }

  // ------------------------------------------------------------------ the three passes over the files

  method WriteEntries(w: BinaryWriter, g: Geometry, files: seq<BinderFile>,
                      ghost stored: seq<StoredFile>, ghost base: nat, ghost nameBase: nat, ghost dataBase: nat, ghost wholes: map<Hole, nat>)
    requires |stored| == |files| && forall i :: 0 <= i < |files| ==> stored[i].flags == files[i].flags && stored[i].id == files[i].id
    requires |w.buf| == base && Going(w, g, base, Progress(0, 0, 0), wholes, |w.buf|)
    requires BodyStands(w.target, g, stored, base, nameBase, dataBase)
    modifies w`buf, w`pos, w`open, w.table
    ensures |w.buf| == EntryPos(g, base, |stored|) && Going(w, g, base, Progress(|stored|, 0, 0), wholes, |w.buf|)
  {
    hide At, Enc, Going, EntryPos, EntryStands, BodyStands, Progress, FieldsOf, NameAt, NamePos, DataEnd, Padded, HasNames;
    LayoutBegins(g, stored, base);
    for i := 0 to |files|
      invariant |w.buf| == EntryPos(g, base, i) && Going(w, g, base, Progress(i, 0, 0), wholes, |w.buf|)
    {
      FileStands(w.target, g, stored, base, nameBase, dataBase, i);
      ghost var v := FieldsOf(stored, nameBase, dataBase, i);
      if g.v4 {
        WriteHeader4(w, g, files[i].flags, files[i].id, i, v, base, wholes);
      } else {
        WriteHeader3(w, g, files[i].flags, files[i].id, i, v, base, wholes);
      }
    }
  }

  ghost predicate NamesOk(c: Codec, wide: bool, format: byte, files: seq<BinderFile>) {
    forall i :: 0 <= i < |files| ==> StoreName(c, wide, format, files[i]).Ok?
  }

  ghost predicate PayloadsOk(env: Env, files: seq<BinderFile>) {
    forall i :: 0 <= i < |files| ==> StorePayload(env, files[i]).Ok?
  }

  /** The first name that cannot be encoded, and the first payload that cannot be compressed, with their errors. */
  ghost predicate NamesFail(c: Codec, wide: bool, format: byte, files: seq<BinderFile>, e: Error) {
    exists i :: 0 <= i < |files| && NameFails(c, wide, format, files, i, e)
  }

  ghost predicate NameFails(c: Codec, wide: bool, format: byte, files: seq<BinderFile>, i: nat, e: Error) {
    && i < |files| && StoreName(c, wide, format, files[i]) == Err(e)
    && forall j :: 0 <= j < i ==> StoreName(c, wide, format, files[j]).Ok?
  }

  ghost predicate PayloadsFail(env: Env, files: seq<BinderFile>, e: Error) {
    exists i :: 0 <= i < |files| && PayloadFails(env, files, i, e)
  }

  ghost predicate PayloadFails(env: Env, files: seq<BinderFile>, i: nat, e: Error) {
    i < |files| && StorePayload(env, files[i]) == Err(e) && forall j :: 0 <= j < i ==> StorePayload(env, files[j]).Ok?
  }

  /** Succeeds exactly when every name can be encoded. */
  method WriteNames(w: BinaryWriter, env: Env, c: Codec, wide: bool, g: Geometry, files: seq<BinderFile>,
                    ghost stored: seq<StoredFile>, ghost base: nat, ghost nameBase: nat, ghost dataBase: nat, ghost wholes: map<Hole, nat>)
    returns (r: Result<()>)
    requires stored == StoreAll(env, c, wide, g.format, files)
    requires |w.buf| == nameBase && Going(w, g, base, Progress(|stored|, 0, 0), wholes, |w.buf|)
    requires BodyStands(w.target, g, stored, base, nameBase, dataBase)
    modifies w`buf, w`pos, w`steps, w`open, w.table
    ensures r.Ok? <==> NamesOk(c, wide, g.format, files)
    ensures r.Err? ==> NamesFail(c, wide, g.format, files, r.error)
    ensures r.Ok? ==> |w.buf| == NamePos(stored, nameBase, |stored|)
    ensures r.Ok? ==> Going(w, g, base, Progress(|stored|, |stored|, 0), wholes, |w.buf|)
  {
    hide At, Enc, Going, EntryPos, EntryStands, BodyStands, Progress, FieldsOf, NameAt, NamePos, DataEnd, Padded, HasNames,
      StoreText, StoreName, StorePayload, StoreAll;
    ghost var n := |stored|;
    LayoutBegins(g, stored, nameBase);
    for i := 0 to |files|
      invariant forall j :: 0 <= j < i ==> StoreName(c, wide, g.format, files[j]).Ok?
      invariant |w.buf| == NamePos(stored, nameBase, i) && Going(w, g, base, Progress(n, i, 0), wholes, |w.buf|)
    {
      FileStands(w.target, g, stored, base, nameBase, dataBase, i);
      StoredParts(env, c, wide, g.format, files, i);
      NextName(stored, nameBase, i);
      var named := WriteName(w, c, wide, g, files[i].name, i, n, stored[i].name, base, wholes);
      if named.Err? {
        assert NameFails(c, wide, g.format, files, i, named.error);
        return named;
      }
    }
    return Ok(());
  }

  /** Succeeds exactly when every payload can be compressed as flagged. */
  method WritePayloads(w: BinaryWriter, env: Env, g: Geometry, files: seq<BinderFile>, ghost c: Codec, ghost wide: bool,
                       ghost stored: seq<StoredFile>, ghost base: nat, ghost nameBase: nat, ghost dataBase: nat, ghost wholes: map<Hole, nat>)
    returns (r: Result<()>)
    requires stored == StoreAll(env, c, wide, g.format, files)
    requires |w.buf| == dataBase && Going(w, g, base, Progress(|stored|, |stored|, 0), wholes, |w.buf|)
    requires BodyStands(w.target, g, stored, base, nameBase, dataBase)
    modifies w`buf, w`pos, w`steps, w`open, w.table
    ensures r.Ok? <==> PayloadsOk(env, files)
    ensures r.Err? ==> PayloadsFail(env, files, r.error)
    ensures r.Ok? ==> |w.buf| == DataEnd(stored, dataBase, |stored|)
    ensures r.Ok? ==> Going(w, g, base, Progress(|stored|, |stored|, |stored|), wholes, |w.buf|)
  {
    hide At, Enc, Going, EntryPos, EntryStands, BodyStands, Progress, FieldsOf, NameAt, NamePos, DataEnd, Padded, HasNames,
      StoreText, StoreName, StorePayload, StoreAll;
    ghost var n := |stored|;
    LayoutBegins(g, stored, dataBase);
    for i := 0 to |files|
      invariant forall j :: 0 <= j < i ==> StorePayload(env, files[j]).Ok?
      invariant |w.buf| == DataEnd(stored, dataBase, i) && Going(w, g, base, Progress(n, n, i), wholes, |w.buf|)
    {
      FileStands(w.target, g, stored, base, nameBase, dataBase, i);
      StoredParts(env, c, wide, g.format, files, i);
      var written := WriteData(w, env, g, files[i], i, stored, nameBase, dataBase, base, wholes);
      if written.Err? {
        assert PayloadFails(env, files, i, written.error);
        return written;
      }
    }
    return Ok(());
  }
}
