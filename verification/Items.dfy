/** What the two oldest containers share: a table of fixed-size entries, then the names, then the
    payloads; the closed-form layout and the reservations open while it is being written. Both are
    little-endian throughout. */
module Items {
  import opened Bytes
  import opened Labels
  import opened Reservations
  import opened Writing

  /** A file as it is laid down: encoded name with its terminator, and payload. */
  datatype Piece = Piece(id: int, name: bytes, data: bytes)

  /** An archive ready to be laid down. `wide` entries have a name offset; `named` ones use it. */
  datatype Plan = Plan(
    kind: bytes,
    version: int,
    tail: bytes,
    wide: bool,
    named: bool,
    directory: bytes,
    items: seq<Piece>,
    align: nat
  )

  const MAGIC: bytes := [0x42, 0x4E, 0x44, 0]
  const INT32_MAX: nat := 0x7FFF_FFFF
  const TOTAL_AT: nat := 12
  const DIRECTORY_AT: nat := 20

  // ------------------------------------------------------------------ offsets

  function HeadSize(p: Plan): nat { if p.wide then 32 else 36 }
  function EntrySize(p: Plan): nat { if p.wide then 16 else 12 }
  function EntryPos(p: Plan, i: nat): nat { HeadSize(p) + EntrySize(p) * i }
  function DirectoryPos(p: Plan): nat { EntryPos(p, |p.items|) }
  function NamesAt(p: Plan): nat { DirectoryPos(p) + |p.directory| }

  function NamePos(p: Plan, k: nat): nat
    requires k <= |p.items|
  {
    NamesAt(p) + |Flatten(NameRows(p.items)[..k])|
  }

  /** No alignment at all is written as alignment zero. */
  function PadUp(pos: nat, align: nat): (r: nat)
    ensures r >= pos
    ensures align > 0 ==> r % align == 0
  {
    if align == 0 then pos else AlignUp(pos, align)
  }

  function DataEnd(items: seq<Piece>, align: nat, base: nat, k: nat): (p: nat)
    requires k <= |items|
    ensures p >= base
    decreases k, 0
  {
    if k == 0 then base else DataPos(items, align, base, k - 1) + |items[k - 1].data|
  }

  function DataPos(items: seq<Piece>, align: nat, base: nat, k: nat): (p: nat)
    requires k < |items|
    ensures p >= DataEnd(items, align, base, k)
    decreases k, 1
  {
    PadUp(DataEnd(items, align, base, k), align)
  }

  function NamesEnd(p: Plan): nat { NamePos(p, |p.items|) }
  function PayloadAt(p: Plan, i: nat): nat
    requires i < |p.items|
  {
    DataPos(p.items, p.align, NamesEnd(p), i)
  }
  function PayloadsEnd(p: Plan): nat { DataEnd(p.items, p.align, NamesEnd(p), |p.items|) }

  function DirectoryField(p: Plan): nat { if p.directory == [] then 0 else DirectoryPos(p) }

  lemma NameEnds(p: Plan)
    ensures NamePos(p, 0) == NamesAt(p) && NamesEnd(p) == NamePos(p, |p.items|)
  {
    assert NameRows(p.items)[..0] == [];
  }

  // ------------------------------------------------------------------ rows

  function NameRows(items: seq<Piece>): (rows: seq<bytes>)
    ensures |rows| == |items| && forall i :: 0 <= i < |rows| ==> rows[i] == items[i].name
  {
    seq(|items|, i requires 0 <= i < |items| => items[i].name)
  }

  /** A payload with the zero bytes in front of it. */
  function DataRow(items: seq<Piece>, align: nat, base: nat, i: nat): (s: bytes)
    requires i < |items|
    ensures |s| == DataPos(items, align, base, i) - DataEnd(items, align, base, i) + |items[i].data|
  {
    Fill(DataPos(items, align, base, i) - DataEnd(items, align, base, i), 0) + items[i].data
  }

  function DataRows(items: seq<Piece>, align: nat, base: nat): (rows: seq<bytes>)
    ensures |rows| == |items| && forall i :: 0 <= i < |rows| ==> rows[i] == DataRow(items, align, base, i)
  {
    seq(|items|, i requires 0 <= i < |items| => DataRow(items, align, base, i))
  }

  function NameField(p: Plan, i: nat): nat
    requires i < |p.items|
  {
    if p.named then NamePos(p, i) else 0
  }

  function EntryBytes(wide: bool, id: int, at: nat, size: nat, name: nat): (s: bytes)
    ensures |s| == if wide then 16 else 12
  {
    Enc(false, id, 4) + Enc(false, at, 4) + Enc(false, size, 4) + if wide then Enc(false, name, 4) else []
  }

  function EntryRow(p: Plan, i: nat): (s: bytes)
    requires i < |p.items|
    ensures |s| == EntrySize(p)
  {
    EntryBytes(p.wide, p.items[i].id, PayloadAt(p, i), |p.items[i].data|, NameField(p, i))
  }

  function EntryRows(p: Plan): (rows: seq<bytes>)
    ensures |rows| == |p.items| && AllSized(rows, EntrySize(p))
    ensures forall i :: 0 <= i < |rows| ==> rows[i] == EntryRow(p, i)
  {
    seq(|p.items|, i requires 0 <= i < |p.items| => EntryRow(p, i))
  }

  // ------------------------------------------------------------------ image

  ghost predicate Shaped(p: Plan) {
    |p.kind| == 4 && |p.tail| == 4
  }

  /** The head, with the total size recorded in it. */
  function Head(p: Plan, total: nat): (s: bytes)
    requires Shaped(p)
    ensures |s| == HeadSize(p)
  {
    MAGIC + p.kind + Enc(false, p.version, 4) + Enc(false, total, 4)
    + (Enc(false, |p.items|, 4) + Enc(false, DirectoryField(p), 4) + p.tail + Enc(false, 0, 4))
    + if p.wide then [] else Enc(false, 0, 4)
  }

  /** Everything in front of the payloads. */
  function Front(p: Plan, total: nat): bytes
    requires Shaped(p)
  {
    Head(p, total) + Flatten(EntryRows(p)) + p.directory + Flatten(NameRows(p.items))
  }

  /** The archive, with `closing` zero bytes behind the last payload. */
  function Image(p: Plan, closing: nat): bytes
    requires Shaped(p)
  {
    Front(p, PayloadsEnd(p) + closing) + Flatten(DataRows(p.items, p.align, NamesEnd(p))) + Fill(closing, 0)
  }

  ghost predicate HeadStands(buf: bytes, p: Plan, total: nat) {
    && Shaped(p)
    && At(buf, 0, MAGIC) && At(buf, 4, p.kind) && At(buf, 8, Enc(false, p.version, 4)) && At(buf, 12, Enc(false, total, 4))
    && At(buf, 16, Enc(false, |p.items|, 4)) && At(buf, 20, Enc(false, DirectoryField(p), 4)) && At(buf, 24, p.tail)
    && At(buf, 28, Enc(false, 0, 4)) && (!p.wide ==> At(buf, 32, Enc(false, 0, 4)))
    && HeadSize(p) <= |buf|
  }

  ghost predicate ImageStands(buf: bytes, p: Plan, closing: nat) {
    && HeadStands(buf, p, PayloadsEnd(p) + closing)
    && At(buf, HeadSize(p), Flatten(EntryRows(p)))
    && At(buf, DirectoryPos(p), p.directory)
    && At(buf, NamesAt(p), Flatten(NameRows(p.items)))
    && At(buf, NamesEnd(p), Flatten(DataRows(p.items, p.align, NamesEnd(p))))
    && At(buf, PayloadsEnd(p), Fill(closing, 0))
    && |buf| == PayloadsEnd(p) + closing
  }

  lemma DataStep(items: seq<Piece>, align: nat, base: nat, k: nat)
    requires k < |items|
    ensures DataEnd(items, align, base, k + 1) == DataPos(items, align, base, k) + |items[k].data|
  {
  }

  lemma NoData(items: seq<Piece>, align: nat, base: nat)
    ensures DataEnd(items, align, base, 0) == base
  {
  }

  lemma {:induction false} DataSize(items: seq<Piece>, align: nat, base: nat, k: nat)
    requires k <= |items|
    ensures DataEnd(items, align, base, k) == base + |Flatten(DataRows(items, align, base)[..k])|
  {
    hide DataEnd, DataPos, DataRow;
    NoData(items, align, base);
    var rows := DataRows(items, align, base);
    if k > 0 {
      DataSize(items, align, base, k - 1);
      DataStep(items, align, base, k - 1);
      assert rows[..k][..k - 1] == rows[..k - 1];
    }
  }

  lemma AllRows<T>(s: seq<T>)
    ensures s[..|s|] == s
  {
  }

  lemma HeadPieces(buf: bytes, p: Plan, total: nat)
    requires Shaped(p) && At(buf, 0, Head(p, total))
    ensures HeadStands(buf, p, total)
  {
    hide At, Enc, DirectoryField;
    AtSplit3(buf, 0, MAGIC + p.kind + Enc(false, p.version, 4) + Enc(false, total, 4),
             Enc(false, |p.items|, 4) + Enc(false, DirectoryField(p), 4) + p.tail + Enc(false, 0, 4),
             if p.wide then [] else Enc(false, 0, 4));
    AtSplit4(buf, 0, MAGIC, p.kind, Enc(false, p.version, 4), Enc(false, total, 4));
    AtSplit4(buf, 16, Enc(false, |p.items|, 4), Enc(false, DirectoryField(p), 4), p.tail, Enc(false, 0, 4));
    InBounds(buf, 0, Head(p, total));
  }

  lemma InBounds(buf: bytes, pos: nat, s: bytes)
    requires At(buf, pos, s)
    ensures pos + |s| <= |buf|
  {
  }

  /** The image carries its pieces where the offsets say. */
  lemma ImagePieces(p: Plan, closing: nat)
    requires Shaped(p)
    ensures ImageStands(Image(p, closing), p, closing)
  {
    hide At, Enc, Head, HeadStands, EntryRows, NameRows, DataRows, Flatten, AllSized, DataEnd;
    var buf, total := Image(p, closing), PayloadsEnd(p) + closing;
    AtWhole(buf);
    FlattenUniform(EntryRows(p), EntrySize(p));
    AllRows(NameRows(p.items));
    DataSize(p.items, p.align, NamesEnd(p), |p.items|);
    AllRows(DataRows(p.items, p.align, NamesEnd(p)));
    AtSplit3(buf, 0, Front(p, total), Flatten(DataRows(p.items, p.align, NamesEnd(p))), Fill(closing, 0));
    AtSplit4(buf, 0, Head(p, total), Flatten(EntryRows(p)), p.directory, Flatten(NameRows(p.items)));
    HeadPieces(buf, p, total);
  }

  /** Entry, name and payload of file `i` in a buffer that carries the image. */
  lemma ItemStands(buf: bytes, p: Plan, closing: nat, i: nat)
    requires ImageStands(buf, p, closing) && i < |p.items|
    ensures At(buf, EntryPos(p, i), EntryRow(p, i))
    ensures At(buf, NamePos(p, i), p.items[i].name) && NamePos(p, i + 1) == NamePos(p, i) + |p.items[i].name|
    ensures At(buf, DataEnd(p.items, p.align, NamesEnd(p), i), Fill(PayloadAt(p, i) - DataEnd(p.items, p.align, NamesEnd(p), i), 0))
    ensures At(buf, PayloadAt(p, i), p.items[i].data)
  {
    hide At, HeadStands, EntryRow, Flatten, AllSized, DataPos, DataEnd, NamesAt;
    RowStands(buf, HeadSize(p), EntryRows(p), EntrySize(p), i);
    PartStands(buf, NamesAt(p), NameRows(p.items), i);
    PartStands(buf, NamesEnd(p), DataRows(p.items, p.align, NamesEnd(p)), i);
    DataSize(p.items, p.align, NamesEnd(p), i);
    AtSplit(buf, DataEnd(p.items, p.align, NamesEnd(p), i),
            Fill(PayloadAt(p, i) - DataEnd(p.items, p.align, NamesEnd(p), i), 0), p.items[i].data);
  }

  lemma EntryPieces(buf: bytes, p: Plan, i: nat)
    requires i < |p.items| && At(buf, EntryPos(p, i), EntryRow(p, i))
    ensures var pos := EntryPos(p, i);
      && At(buf, pos, Enc(false, p.items[i].id, 4)) && At(buf, pos + 4, Enc(false, PayloadAt(p, i), 4))
      && At(buf, pos + 8, Enc(false, |p.items[i].data|, 4)) && (p.wide ==> At(buf, pos + 12, Enc(false, NameField(p, i), 4)))
      && pos + EntrySize(p) <= |buf|
  {
    hide At, Enc, PayloadAt, NameField;
    AtSplit4(buf, EntryPos(p, i), Enc(false, p.items[i].id, 4), Enc(false, PayloadAt(p, i), 4), Enc(false, |p.items[i].data|, 4),
             if p.wide then Enc(false, NameField(p, i), 4) else []);
    InBounds(buf, EntryPos(p, i), EntryRow(p, i));
  }

  lemma {:induction false} DataMonotone(items: seq<Piece>, align: nat, base: nat, i: nat, j: nat)
    requires i <= j <= |items|
    ensures DataEnd(items, align, base, i) <= DataEnd(items, align, base, j)
    decreases j
  {
    hide DataEnd, DataPos;
    if i < j {
      DataMonotone(items, align, base, i, j - 1);
      DataStep(items, align, base, j - 1);
    }
  }

  lemma PayloadAligned(items: seq<Piece>, align: nat, base: nat, k: nat)
    requires k < |items|
    ensures align > 0 ==> DataPos(items, align, base, k) % align == 0
  {
    hide DataEnd;
  }

  /** Payloads lie behind the names, in file order, without overlap, inside the image, each on a
      multiple of the alignment. */
  lemma PayloadsLaidOut(p: Plan, i: nat)
    requires i < |p.items|
    ensures NamesEnd(p) <= PayloadAt(p, i) && PayloadAt(p, i) + |p.items[i].data| <= PayloadsEnd(p)
    ensures p.align > 0 ==> PayloadAt(p, i) % p.align == 0
    ensures forall j :: i < j < |p.items| ==> PayloadAt(p, i) + |p.items[i].data| <= PayloadAt(p, j)
  {
    hide NamesEnd, DataPos, DataEnd;
    PayloadAligned(p.items, p.align, NamesEnd(p), i);
    DataStep(p.items, p.align, NamesEnd(p), i);
    DataMonotone(p.items, p.align, NamesEnd(p), i + 1, |p.items|);
    forall j | i < j < |p.items|
      ensures PayloadAt(p, i) + |p.items[i].data| <= PayloadAt(p, j)
    {
      DataMonotone(p.items, p.align, NamesEnd(p), i + 1, j);
    }
  }

  lemma PositionsBelowEnd(p: Plan, k: nat)
    requires k <= |p.items|
    ensures |p.items| <= DirectoryPos(p) <= NamesAt(p) <= NamePos(p, k) <= NamesEnd(p) <= PayloadsEnd(p)
    ensures DataEnd(p.items, p.align, NamesEnd(p), k) <= PayloadsEnd(p)
  {
    hide DataEnd, NameRows;
    FlattenPrefix(NameRows(p.items), k);
    AllRows(NameRows(p.items));
    DataMonotone(p.items, p.align, NamesEnd(p), k, |p.items|);
  }

  // ------------------------------------------------------------------ open reservations

  /** Which header fields of an entry are reserved, besides the name: the payload's offset under
      one of two names, and its size where that is not written at once. */
  datatype Holes = Holes(offset: Field, sized: bool)

  function FieldAt(f: Field): nat {
    match f
    case ItemName => 12
    case ItemSize => 8
    case _ => 4
  }

  function HolesFor(f: Field, lo: nat, hi: nat): (s: set<Hole>)
    ensures forall h :: h in s <==> h.tag.Item? && h.tag.field == f && h.kind == I32 && lo <= h.tag.index < hi
  {
    set i: nat | lo <= i < hi :: Hole(Item(f, i), I32)
  }

  function AllHoles(p: Plan, x: Holes, e: nat, n: nat, d: nat): set<Hole> {
    HolesFor(x.offset, d, e)
    + (if x.sized then HolesFor(ItemSize, d, e) else {})
    + (if p.named then HolesFor(ItemName, n, e) else {})
  }

  function HolePos(p: Plan, h: Hole): nat {
    if h.tag.Item? then EntryPos(p, h.tag.index) + FieldAt(h.tag.field) else 0
  }

  predicate Pending(p: Plan, x: Holes, e: nat, n: nat, d: nat, h: Hole) {
    h.tag.Item? && h.kind == I32
    && ((h.tag.field == x.offset && d <= h.tag.index < e)
        || (x.sized && h.tag.field == ItemSize && d <= h.tag.index < e)
        || (p.named && h.tag.field == ItemName && n <= h.tag.index < e))
  }

  /** The open reservations after `e` entries, `n` names and `d` payloads, and the archive-wide ones. */
  function OpenAfter(p: Plan, x: Holes, wholes: map<Hole, nat>, e: nat, n: nat, d: nat): (open: map<Hole, nat>)
    ensures forall h :: h in open <==> h in wholes || Pending(p, x, e, n, d, h)
    ensures forall h :: h in open ==> open[h] == if Pending(p, x, e, n, d, h) then HolePos(p, h) else wholes[h]
  {
    wholes + map h | h in AllHoles(p, x, e, n, d) :: HolePos(p, h)
  }

  predicate Regular(x: Holes) {
    x.offset.ItemOffset? || x.offset.ItemData?
  }

  predicate OnlyWholes(wholes: map<Hole, nat>) {
    forall h :: h in wholes ==> h.tag.Whole?
  }

  function OffsetHole(x: Holes, i: nat): Hole { Hole(Item(x.offset, i), I32) }
  function SizeHole(i: nat): Hole { Hole(Item(ItemSize, i), I32) }
  function NameHole(i: nat): Hole { Hole(Item(ItemName, i), I32) }

  lemma EntryIsNew(p: Plan, x: Holes, wholes: map<Hole, nat>, i: nat)
    requires Regular(x) && OnlyWholes(wholes)
    ensures var open := OpenAfter(p, x, wholes, i, 0, 0);
      OffsetHole(x, i) !in open && SizeHole(i) !in open && NameHole(i) !in open
    ensures OffsetHole(x, i) != SizeHole(i) && OffsetHole(x, i) != NameHole(i) && SizeHole(i) != NameHole(i)
  {
    hide EntryPos, AllHoles;
  }

  /** What is pending after one more entry. */
  lemma PendingNext(p: Plan, x: Holes, i: nat, h: Hole)
    requires Regular(x)
    ensures Pending(p, x, i + 1, 0, 0, h)
       <==> Pending(p, x, i, 0, 0, h) || h == OffsetHole(x, i) || (x.sized && h == SizeHole(i)) || (p.named && h == NameHole(i))
  {
  }

  /** The reservations of entry `i` are new, and make up the difference to the next entry. */
  lemma EntryOpens(p: Plan, x: Holes, wholes: map<Hole, nat>, i: nat)
    requires Regular(x) && OnlyWholes(wholes)
    ensures var open, pos := OpenAfter(p, x, wholes, i, 0, 0), EntryPos(p, i);
      var one := open[OffsetHole(x, i) := pos + 4];
      var two := if x.sized then one[SizeHole(i) := pos + 8] else one;
      var three := if p.named then two[NameHole(i) := pos + 12] else two;
      && OffsetHole(x, i) !in open && SizeHole(i) !in one && NameHole(i) !in two
      && three == OpenAfter(p, x, wholes, i + 1, 0, 0)
  {
    hide EntryPos, OpenAfter, AllHoles, Pending;
    EntryIsNew(p, x, wholes, i);
    var open, pos := OpenAfter(p, x, wholes, i, 0, 0), EntryPos(p, i);
    var one := open[OffsetHole(x, i) := pos + 4];
    var two := if x.sized then one[SizeHole(i) := pos + 8] else one;
    var three := if p.named then two[NameHole(i) := pos + 12] else two;
    var next := OpenAfter(p, x, wholes, i + 1, 0, 0);
    forall h
      ensures h in three <==> h in next
      ensures h in next ==> three[h] == next[h]
    {
      PendingNext(p, x, i, h);
    }
  }

  lemma NameCloses(p: Plan, x: Holes, wholes: map<Hole, nat>, e: nat, n: nat)
    requires Regular(x) && OnlyWholes(wholes) && n < e
    ensures var open := OpenAfter(p, x, wholes, e, n, 0);
      if p.named then NameHole(n) in open && open[NameHole(n)] == EntryPos(p, n) + 12 && open - {NameHole(n)} == OpenAfter(p, x, wholes, e, n + 1, 0)
      else open == OpenAfter(p, x, wholes, e, n + 1, 0)
  {
    hide EntryPos, OpenAfter, AllHoles;
  }

  lemma PayloadCloses(p: Plan, x: Holes, wholes: map<Hole, nat>, e: nat, d: nat)
    requires Regular(x) && OnlyWholes(wholes) && d < e
    ensures var open := OpenAfter(p, x, wholes, e, e, d);
      var one := open - {OffsetHole(x, d)};
      var two := if x.sized then one - {SizeHole(d)} else one;
      && OffsetHole(x, d) in open && open[OffsetHole(x, d)] == EntryPos(p, d) + 4
      && (x.sized ==> SizeHole(d) in one && one[SizeHole(d)] == EntryPos(p, d) + 8)
      && two == OpenAfter(p, x, wholes, e, e, d + 1)
  {
    hide EntryPos, OpenAfter, AllHoles;
  }

  lemma WholeCloses(p: Plan, x: Holes, wholes: map<Hole, nat>, e: nat, n: nat, d: nat, h: Hole)
    requires Regular(x) && OnlyWholes(wholes) && h in wholes
    ensures var open := OpenAfter(p, x, wholes, e, n, d);
      h in open && open[h] == wholes[h] && open - {h} == OpenAfter(p, x, wholes - {h}, e, n, d)
  {
    hide EntryPos, OpenAfter, AllHoles;
  }

  /** Before the first entry and after the last payload only the archive-wide reservations are open. */
  lemma NothingOpen(p: Plan, x: Holes, wholes: map<Hole, nat>, n: nat)
    requires OnlyWholes(wholes)
    ensures OpenAfter(p, x, wholes, 0, 0, 0) == wholes && OpenAfter(p, x, wholes, n, n, n) == wholes
  {
    hide EntryPos, OpenAfter, AllHoles;
  }

  /** Without names the name pass has nothing to fill. */
  lemma NoNames(p: Plan, x: Holes, wholes: map<Hole, nat>, e: nat)
    requires !p.named
    ensures OpenAfter(p, x, wholes, e, 0, 0) == OpenAfter(p, x, wholes, e, e, 0)
  {
  }
}
