/** The shared writing steps of the two oldest containers: the head, one entry, one name offset, one
    payload record; each step keeps account of the open reservations. */
module ItemWriting {
  import opened Bytes
  import opened Labels
  import opened Reservations
  import opened Writing
  import opened Emitting
  import opened Items

  const TOTAL_HOLE := Hole(Whole(TotalSize), I32)

  function DirectoryHole(f: Field): Hole { Hole(Whole(f), I32) }

  /** The reservations of the head. */
  function HeadHoles(f: Field): map<Hole, nat> {
    map[TOTAL_HOLE := TOTAL_AT, DirectoryHole(f) := DIRECTORY_AT]
  }

  const TOTAL_ONLY: map<Hole, nat> := map[TOTAL_HOLE := TOTAL_AT]

  predicate DirectoryName(f: Field) {
    f.BaseDirOffset? || f.RootFilePath?
  }

  /** After `e` entries, `n` names and `d` payloads. */
  ghost predicate Stage(w: BinaryWriter, p: Plan, x: Holes, wholes: map<Hole, nat>, e: nat, n: nat, d: nat)
    reads w, w.table
  {
    Regular(x) && OnlyWholes(wholes) && Live(w, false, OpenAfter(p, x, wholes, e, n, d))
  }

  method WriteHead(w: BinaryWriter, kind: bytes, version: int, count: nat, tail: bytes, wide: bool, f: Field,
                   ghost p: Plan, ghost x: Holes, ghost total: nat)
    requires Live(w, false, map[]) && |w.buf| == 0 && HeadStands(w.target, p, total) && DirectoryName(f) && Regular(x)
    requires kind == p.kind && version == p.version && count == |p.items| && tail == p.tail && wide == p.wide
    modifies w`buf, w`pos, w`open, w.table
    ensures |w.buf| == HeadSize(p) && Stage(w, p, x, HeadHoles(f), 0, 0, 0)
  {
    hide Live, At, Enc, DirectoryField;
    ghost var one := map[TOTAL_HOLE := 12 as nat];
    Emit(w, MAGIC, false, map[]);
    Emit(w, kind, false, map[]);
    EmitInt(w, version, 4, false, map[]);
    EmitHole(w, Whole(TotalSize), I32, false, map[]);
    EmitInt(w, count, 4, false, one);
    EmitHole(w, Whole(f), I32, false, one);
    ghost var both := one[DirectoryHole(f) := 20];
    Emit(w, tail, false, both);
    EmitInt(w, 0, 4, false, both);
    if !wide {
      EmitInt(w, 0, 4, false, both);
    }
    assert both == HeadHoles(f);
    NothingOpen(p, x, HeadHoles(f), 0);
  }

  /** One entry: what is known is written, the rest is reserved. */
  method WriteEntry(w: BinaryWriter, id: int, size: nat, sized: bool, wide: bool, named: bool, offset: Field, i: nat,
                    ghost p: Plan, ghost x: Holes, ghost wholes: map<Hole, nat>)
    requires i < |p.items| && Stage(w, p, x, wholes, i, 0, 0) && |w.buf| == EntryPos(p, i)
    requires At(w.target, EntryPos(p, i), EntryRow(p, i))
    requires id == p.items[i].id && size == |p.items[i].data| && sized == x.sized && wide == p.wide && named == p.named && offset == x.offset
    requires named ==> wide
    modifies w`buf, w`pos, w`open, w.table
    ensures |w.buf| == EntryPos(p, i + 1) && Stage(w, p, x, wholes, i + 1, 0, 0)
  {
    hide Live, At, Enc, OpenAfter, EntryRow, PayloadAt, NameField, OffsetHole, SizeHole, NameHole;
    EntryPieces(w.target, p, i);
    EntryOpens(p, x, wholes, i);
    EntryHoles(x, i);
    NextEntryPos(p, i);
    ghost var open := OpenAfter(p, x, wholes, i, 0, 0);
    EmitInt(w, id, 4, false, open);
    EmitHole(w, Item(offset, i), I32, false, open);
    ghost var one := open[OffsetHole(x, i) := EntryPos(p, i) + 4];
    ghost var two := if x.sized then one[SizeHole(i) := EntryPos(p, i) + 8] else one;
    if sized {
      EmitHole(w, Item(ItemSize, i), I32, false, one);
    } else {
      EmitInt(w, size, 4, false, one);
    }
    if named {
      EmitHole(w, Item(ItemName, i), I32, false, two);
    } else if wide {
      NoNameField(p, i);
      EmitInt(w, 0, 4, false, two);
    }
  }

  lemma EntryHoles(x: Holes, i: nat)
    ensures OffsetHole(x, i) == Hole(Item(x.offset, i), I32) && SizeHole(i) == Hole(Item(ItemSize, i), I32)
    ensures NameHole(i) == Hole(Item(ItemName, i), I32)
  {
  }

  lemma NextEntryPos(p: Plan, i: nat)
    ensures EntryPos(p, i + 1) == EntryPos(p, i) + if p.wide then 16 else 12
  {
  }

  lemma NoNameField(p: Plan, i: nat)
    requires i < |p.items| && !p.named
    ensures NameField(p, i) == 0
  {
  }

  /** Fills the name offset of file `i` with the current position. */
  method FillName(w: BinaryWriter, i: nat, ghost p: Plan, ghost x: Holes, ghost wholes: map<Hole, nat>, ghost e: nat)
    requires i < e == |p.items| && p.wide && p.named && Stage(w, p, x, wholes, e, i, 0) && |w.buf| == NamePos(p, i)
    requires At(w.target, EntryPos(p, i), EntryRow(p, i))
    modifies w`buf, w`pos, w`steps, w`open, w.table
    ensures |w.buf| == NamePos(p, i) && Stage(w, p, x, wholes, e, i + 1, 0)
  {
    hide Live, At, Enc, OpenAfter, EntryRow, PayloadAt, NamePos, EntryPos;
    EntryPieces(w.target, p, i);
    NameCloses(p, x, wholes, e, i);
    FillHole(w, Item(ItemName, i), I32, |w.buf|, false, OpenAfter(p, x, wholes, e, i, 0));
  }

  /** Fills the payload's offset, and its size where that was reserved, and writes the payload. */
  method WritePayload(w: BinaryWriter, data: bytes, sized: bool, offset: Field, i: nat,
                      ghost p: Plan, ghost x: Holes, ghost wholes: map<Hole, nat>, ghost e: nat)
    requires i < e == |p.items| && Stage(w, p, x, wholes, e, e, i) && |w.buf| == PayloadAt(p, i)
    requires data == p.items[i].data && sized == x.sized && offset == x.offset
    requires At(w.target, EntryPos(p, i), EntryRow(p, i)) && At(w.target, PayloadAt(p, i), data)
    modifies w`buf, w`pos, w`steps, w`open, w.table
    ensures |w.buf| == PayloadAt(p, i) + |data| && Stage(w, p, x, wholes, e, e, i + 1)
  {
    hide Live, At, Enc, OpenAfter, EntryRow, PayloadAt, NamePos, EntryPos;
    EntryPieces(w.target, p, i);
    PayloadCloses(p, x, wholes, e, i);
    ghost var open := OpenAfter(p, x, wholes, e, e, i);
    FillHole(w, Item(offset, i), I32, |w.buf|, false, open);
    if sized {
      FillHole(w, Item(ItemSize, i), I32, |data|, false, open - {OffsetHole(x, i)});
    }
    if |data| > 0 {
      Emit(w, data, false, OpenAfter(p, x, wholes, e, e, i + 1));
    }
  }

  /** Fills a field of the head. */
  method FillHead(w: BinaryWriter, f: Field, v: nat, ghost p: Plan, ghost x: Holes, ghost wholes: map<Hole, nat>, ghost e: nat, ghost n: nat, ghost d: nat)
    requires DirectoryHole(f) in wholes && Stage(w, p, x, wholes, e, n, d)
    requires At(w.target, wholes[DirectoryHole(f)], Enc(false, v, 4))
    modifies w`buf, w`pos, w`steps, w`open, w.table
    ensures |w.buf| == old(|w.buf|) && Stage(w, p, x, wholes - {DirectoryHole(f)}, e, n, d)
  {
    hide Live, At, Enc, OpenAfter;
    WholeCloses(p, x, wholes, e, n, d, DirectoryHole(f));
    FillHole(w, Whole(f), I32, v, false, OpenAfter(p, x, wholes, e, n, d));
  }

  method Append(w: BinaryWriter, s: bytes, ghost p: Plan, ghost x: Holes, ghost wholes: map<Hole, nat>, ghost e: nat, ghost n: nat, ghost d: nat)
    requires Stage(w, p, x, wholes, e, n, d) && At(w.target, |w.buf|, s)
    modifies w`buf, w`pos
    ensures |w.buf| == old(|w.buf|) + |s| && Stage(w, p, x, wholes, e, n, d)
  {
    hide Live, At, OpenAfter;
    Emit(w, s, false, OpenAfter(p, x, wholes, e, n, d));
  }

  method PadTo(w: BinaryWriter, align: nat, ghost p: Plan, ghost x: Holes, ghost wholes: map<Hole, nat>, ghost e: nat, ghost n: nat, ghost d: nat)
    requires align > 0 && Stage(w, p, x, wholes, e, n, d)
    requires At(w.target, |w.buf|, Fill(AlignUp(|w.buf|, align) - |w.buf|, 0))
    modifies w`buf, w`pos
    ensures |w.buf| == AlignUp(old(|w.buf|), align) && Stage(w, p, x, wholes, e, n, d)
  {
    hide Live, At, OpenAfter, AlignUp;
    EmitPad(w, align, false, OpenAfter(p, x, wholes, e, n, d));
  }

  /** The total size is the last thing to be filled in; then the writer can finish. */
  method Close(w: BinaryWriter, ghost p: Plan, ghost x: Holes) returns (r: Result<bytes>)
    requires Stage(w, p, x, TOTAL_ONLY, |p.items|, |p.items|, |p.items|)
    requires |w.buf| == |w.target| && At(w.target, TOTAL_AT, Enc(false, |w.target|, 4))
    modifies w`buf, w`pos, w`steps, w`open, w`closed, w.table
    ensures r == Ok(old(w.target))
  {
    hide Live, At, Enc, OpenAfter;
    FillHead(w, TotalSize, |w.buf|, p, x, TOTAL_ONLY, |p.items|, |p.items|, |p.items|);
    assert TOTAL_ONLY - {TOTAL_HOLE} == map[];
    NothingOpen(p, x, map[], |p.items|);
    r := Complete(w, false);
  }
}
