/** The binary writer over a memory stream: appends, padding, and the reserve/fill
    back-patching discipline on which every archive writer is built. */
module Writing {
  import opened Bytes
  import opened Labels
  import opened Reservations

  /** One reservation: which header field, and the integer kind it was reserved with. */
  datatype Hole = Hole(tag: Label, kind: Kind)

  function TableKey(h: Hole): Key {
    Key(LabelName(h.tag), h.kind)
  }

  lemma TableKeyInjective(g: Hole, h: Hole)
    requires TableKey(g) == TableKey(h)
    ensures g == h
  {
    LabelNameInjective(g.tag, h.tag);
  }

  const PLACEHOLDER: byte := 0xFE

  /** FNV-1a over the characters of a reservation name. */
  function Fnv1a(name: string): bv32 {
    if name == [] then 2166136261
    else (Fnv1a(name[..|name| - 1]) ^ ((name[|name| - 1] as int % 256) as bv32)) * 16777619
  }

  /** A memory-stream write at `pos`: bytes are overwritten, a gap behind the end is zero-filled. */
  function Splice(buf: bytes, pos: nat, s: bytes): (r: bytes)
    ensures |s| > 0 ==> |r| == if pos + |s| > |buf| then pos + |s| else |buf|
  {
    if |s| == 0 then buf
    else
      var b := if pos > |buf| then buf + Fill(pos - |buf|, 0) else buf;
      b[..pos] + s + if pos + |s| < |b| then b[pos + |s|..] else []
  }

  /** Byte `p` belongs to a reservation that has not been filled yet. */
  ghost predicate Covered(open: map<Hole, nat>, p: int) {
    exists h :: h in open && open[h] <= p < open[h] + Width(h.kind)
  }

  /** `buf` is the beginning of `target`, except where reservations are still open. */
  ghost predicate Agrees(buf: bytes, target: bytes, open: map<Hole, nat>) {
    |buf| <= |target| && forall p :: 0 <= p < |buf| && !Covered(open, p) ==> buf[p] == target[p]
  }

  lemma AgreesAppend(buf: bytes, target: bytes, open: map<Hole, nat>, s: bytes)
    requires Agrees(buf, target, open) && At(target, |buf|, s)
    ensures Agrees(buf + s, target, open)
  {
    forall p | |buf| <= p < |buf + s|
      ensures (buf + s)[p] == target[p]
    {
      assert target[|buf|..|buf| + |s|][p - |buf|] == target[p];
    }
  }

  lemma AgreesReserve(buf: bytes, target: bytes, open: map<Hole, nat>, h: Hole, s: bytes)
    requires Agrees(buf, target, open) && h !in open
    requires |s| == Width(h.kind) && |buf| + |s| <= |target|
    ensures Agrees(buf + s, target, open[h := |buf|])
  {
    var open' := open[h := |buf|];
    forall p | 0 <= p < |buf + s| && (p < |buf| ==> Covered(open, p))
      ensures Covered(open', p)
    {
      if p < |buf| {
        var g :| g in open && open[g] <= p < open[g] + Width(g.kind);
        assert g in open' && open'[g] == open[g];
      } else {
        assert h in open' && open'[h] == |buf|;
      }
    }
  }

  lemma AgreesFill(buf: bytes, target: bytes, open: map<Hole, nat>, h: Hole, s: bytes)
    requires Agrees(buf, target, open) && h in open
    requires |s| == Width(h.kind) && open[h] + |s| <= |buf|
    requires At(target, open[h], s)
    ensures Agrees(Splice(buf, open[h], s), target, open - {h})
  {
    var r, open' := Splice(buf, open[h], s), open - {h};
    forall p | 0 <= p < |buf| && !(open[h] <= p < open[h] + |s|) && Covered(open, p)
      ensures Covered(open', p)
    {
      var g :| g in open && open[g] <= p < open[g] + Width(g.kind);
      assert g in open' && open'[g] == open[g];
    }
    forall p | open[h] <= p < open[h] + |s|
      ensures r[p] == target[p]
    {
      assert target[open[h]..open[h] + |s|][p - open[h]] == target[p];
    }
  }

  /** The reservation table holds the open reservations, each under its name. */
  ghost predicate Linked(open: map<Hole, nat>, entries: map<Key, nat>) {
    && (forall h :: h in open ==> TableKey(h) in entries && entries[TableKey(h)] == open[h])
    && (forall k :: k in entries ==> exists h :: h in open && TableKey(h) == k)
  }

  ghost predicate Inside(open: map<Hole, nat>, size: nat) {
    forall h :: h in open ==> open[h] + Width(h.kind) <= size
  }

  lemma InsideClose(open: map<Hole, nat>, size: nat, h: Hole)
    requires Inside(open, size)
    ensures h in open ==> open[h] + Width(h.kind) <= size
    ensures Inside(open - {h}, size)
  {
  }

  lemma LinkedHere(open: map<Hole, nat>, entries: map<Key, nat>, h: Hole)
    requires Linked(open, entries)
    ensures h in open <==> TableKey(h) in entries
    ensures h in open ==> entries[TableKey(h)] == open[h]
    ensures forall g :: TableKey(g) == TableKey(h) ==> g == h
  {
    hide TableKey;
    forall g | TableKey(g) == TableKey(h)
      ensures g == h
    {
      TableKeyInjective(g, h);
    }
  }

  lemma LinkedOpen(open: map<Hole, nat>, entries: map<Key, nat>, h: Hole, p: nat)
    requires Linked(open, entries)
    ensures Linked(open[h := p], entries[TableKey(h) := p])
  {
    hide TableKey;
    LinkedHere(open, entries, h);
    var open', entries' := open[h := p], entries[TableKey(h) := p];
    assert h in open';
    forall k | k in entries'
      ensures exists g :: g in open' && TableKey(g) == k
    {
      if k != TableKey(h) {
        var g :| g in open && TableKey(g) == k;
        assert g in open';
      }
    }
  }

  lemma LinkedClose(open: map<Hole, nat>, entries: map<Key, nat>, h: Hole)
    requires Linked(open, entries)
    ensures Linked(open - {h}, entries - {TableKey(h)})
  {
    hide TableKey;
    LinkedHere(open, entries, h);
    var open', entries' := open - {h}, entries - {TableKey(h)};
    forall k | k in entries'
      ensures exists g :: g in open' && TableKey(g) == k
    {
      var g :| g in open && TableKey(g) == k;
      assert g in open';
    }
  }

  /** Since names are injective, opening and closing commute with the naming. */
  lemma LinkedUpdate(open: map<Hole, nat>, entries: map<Key, nat>, h: Hole, p: nat)
    requires Linked(open, entries)
    ensures h in open <==> TableKey(h) in entries
    ensures h in open ==> entries[TableKey(h)] == open[h]
    ensures Linked(open[h := p], entries[TableKey(h) := p])
    ensures Linked(open - {h}, entries - {TableKey(h)})
  {
    hide TableKey, Linked;
    LinkedHere(open, entries, h);
    LinkedOpen(open, entries, h, p);
    LinkedClose(open, entries, h);
  }

  class BinaryWriter {
    var buf: bytes
    var pos: nat
    var bigEndian: bool
    var steps: seq<nat>
    var closed: bool
    const table: ReservationTable
    /** The open reservations and where they lie. */
    ghost var open: map<Hole, nat>
    /** The finished image the caller is working towards. */
    ghost var target: bytes

    ghost predicate Valid()
      reads this, table
    {
      && table.Valid()
      && pos == |buf|
      && steps == []
      && Linked(open, table.Open)
      && Inside(open, |buf|)
    }

    ghost predicate OnTrack()
      reads this
    {
      Agrees(buf, target, open)
    }

    constructor (bigEndian: bool, ghost target: bytes)
      ensures Valid() && !closed && buf == [] && open == map[]
      ensures this.bigEndian == bigEndian && this.target == target
      ensures fresh(table)
      ensures OnTrack()
    {
      buf, pos, steps, closed := [], 0, [], false;
      this.bigEndian := bigEndian;
      this.target := target;
      table := new ReservationTable(name => Fnv1a(name) as nat);
      open := map[];
    }

    // -------------------------------------------------------------- stream and steps

    /** A write wherever the cursor stands. */
    method StreamWrite(s: bytes)
      modifies this`buf, this`pos
      ensures buf == Splice(old(buf), old(pos), s) && pos == old(pos) + |s|
    {
      if |s| > 0 {
        buf := Splice(buf, pos, s);
        pos := pos + |s|;
      }
    }

    method StepIn(p: nat)
      modifies this`pos, this`steps
      ensures steps == old(steps) + [old(pos)] && pos == p
    {
      steps := steps + [pos];
      pos := p;
    }

    method StepOut() returns (r: Result<()>)
      modifies this`pos, this`steps
      ensures old(steps) == [] ==> r == Err(Internal) && pos == old(pos) && steps == old(steps)
      ensures old(steps) != [] ==> r == Ok(()) && pos == old(steps)[|old(steps)| - 1] && steps == old(steps)[..|old(steps)| - 1]
    {
      if |steps| == 0 {
        return Err(Internal);
      }
      pos := steps[|steps| - 1];
      steps := steps[..|steps| - 1];
      return Ok(());
    }

    /** Steps to an earlier position, writes there, and steps back to the end. */
    method Overwrite(p: nat, s: bytes) returns (r: Result<()>)
      requires steps == [] && pos == |buf| && p + |s| <= |buf|
      modifies this`buf, this`pos, this`steps
      ensures r == Ok(()) && steps == [] && pos == |buf| == old(|buf|)
      ensures buf == Splice(old(buf), p, s)
    {
      StepIn(p);
      StreamWrite(s);
      r := StepOut();
    }

    // -------------------------------------------------------------- appends

    method Write(s: bytes) returns (r: Result<()>)
      requires Valid()
      modifies this`buf, this`pos
      ensures Valid()
      ensures r == if closed then Err(InvalidArg) else Ok(())
      ensures buf == if closed then old(buf) else old(buf) + s
      ensures !closed && old(OnTrack()) && At(target, old(|buf|), s) ==> OnTrack()
    {
      hide Sound, Linked, Agrees, TableKey;
      if closed {
        return Err(InvalidArg);
      }
      if OnTrack() && At(target, |buf|, s) {
        AgreesAppend(buf, target, open, s);
      }
      assert Splice(buf, pos, s) == buf + s;
      StreamWrite(s);
      return Ok(());
    }

    method WriteInt(v: int, n: nat) returns (r: Result<()>)
      requires Valid()
      modifies this`buf, this`pos
      ensures Valid()
      ensures r == if closed then Err(InvalidArg) else Ok(())
      ensures buf == if closed then old(buf) else old(buf) + Enc(bigEndian, v, n)
      ensures !closed && old(OnTrack()) && At(target, old(|buf|), Enc(bigEndian, v, n)) ==> OnTrack()
    {
      r := Write(Enc(bigEndian, v, n));
    }

    /** Zero bytes up to the next multiple of `align`, in chunks of at most 64. */
    method Pad(align: nat) returns (r: Result<()>)
      requires Valid()
      modifies this`buf, this`pos
      ensures Valid()
      ensures r == if closed || align == 0 then Err(InvalidArg) else Ok(())
      ensures r.Err? ==> buf == old(buf)
      ensures r.Ok? ==> buf == old(buf) + Fill(AlignUp(old(|buf|), align) - old(|buf|), 0)
      ensures r.Ok? && old(OnTrack()) && At(target, old(|buf|), Fill(AlignUp(old(|buf|), align) - old(|buf|), 0)) ==> OnTrack()
    {
      hide Sound, Linked, Agrees, TableKey;
      if closed || align == 0 {
        return Err(InvalidArg);
      }
      var rem := pos % align;
      if rem == 0 {
        assert buf + [] == buf;
        return Ok(());
      }
      ghost var start, total := buf, align - rem;
      if OnTrack() && At(target, |buf|, Fill(total, 0)) {
        AgreesAppend(buf, target, open, Fill(total, 0));
      }
      var pad := align - rem;
      while pad > 0
        invariant 0 <= pad <= total
        invariant Valid()
        invariant buf == start + Fill(total - pad, 0)
      {
        var chunk := if pad > 64 then 64 else pad;
        r := Write(Fill(chunk, 0));
        assert Fill(total - pad, 0) + Fill(chunk, 0) == Fill(total - pad + chunk, 0);
        pad := pad - chunk;
      }
      return Ok(());
    }

    // -------------------------------------------------------------- reservations

    /** Appends a placeholder; fails exactly when the same reservation is already open. */
    method Reserve(tag: Label, kind: Kind) returns (r: Result<()>)
      requires Valid()
      modifies this`buf, this`pos, this`open, table
      ensures Valid()
      ensures r == if closed then Err(InvalidArg) else if Hole(tag, kind) in old(open) then Err(AlreadyExists) else Ok(())
      ensures r.Err? ==> buf == old(buf) && open == old(open)
      ensures r.Ok? ==> buf == old(buf) + Fill(Width(kind), PLACEHOLDER) && open == old(open)[Hole(tag, kind) := old(|buf|)]
      ensures r.Ok? && old(OnTrack()) && |buf| <= |target| ==> OnTrack()
    {
      hide Sound, Linked, Agrees, TableKey;
      if closed {
        return Err(InvalidArg);
      }
      var h := Hole(tag, kind);
      LinkedUpdate(open, table.Open, h, pos);
      r := table.Push(TableKey(h), pos);
      if r.Err? {
        return;
      }
      var s := Fill(Width(kind), PLACEHOLDER);
      if OnTrack() && |buf| + |s| <= |target| {
        AgreesReserve(buf, target, open, h, s);
      }
      assert Splice(buf, pos, s) == buf + s;
      open := open[h := pos];
      StreamWrite(s);
    }

    /** Overwrites an open reservation with its value and closes it. */
    method FillIn(tag: Label, kind: Kind, v: int) returns (r: Result<()>)
      requires Valid()
      modifies this`buf, this`pos, this`steps, this`open, table
      ensures Valid()
      ensures r == if closed then Err(InvalidArg) else if Hole(tag, kind) in old(open) then Ok(()) else Err(NotFound)
      ensures r.Err? ==> buf == old(buf) && open == old(open)
      ensures r.Ok? ==>
        && buf == Splice(old(buf), old(open)[Hole(tag, kind)], Enc(bigEndian, v, Width(kind)))
        && |buf| == old(|buf|)
        && open == old(open) - {Hole(tag, kind)}
      ensures r.Ok? && old(OnTrack()) && At(target, old(open)[Hole(tag, kind)], Enc(bigEndian, v, Width(kind))) ==> OnTrack()
    {
      hide Sound, Linked, Agrees, TableKey, Splice, Enc, At, Inside, Fill, Fnv1a, Used;
      if closed {
        return Err(InvalidArg);
      }
      var h := Hole(tag, kind);
      LinkedUpdate(open, table.Open, h, 0);
      InsideClose(open, |buf|, h);
      var p :- table.Peek(TableKey(h));
      var s := Enc(bigEndian, v, Width(kind));
      if OnTrack() && At(target, open[h], s) {
        AgreesFill(buf, target, open, h, s);
      }
      r := Overwrite(p, s);
      var _ := table.Pop(TableKey(h));
      open := open - {h};
    }

    /** Succeeds exactly when nothing is left open; the writer accepts nothing afterwards. */
    method Finish() returns (r: Result<()>)
      requires Valid()
      modifies this`closed
      ensures Valid()
      ensures r == if open == map[] then Ok(()) else Err(Internal)
      ensures closed == (old(closed) || r.Ok?)
      ensures r.Ok? && OnTrack() && |buf| == |target| ==> buf == target
    {
      if table.live > 0 {
        assert exists k :: k in table.Open;
        return Err(Internal);
      }
      assert open == map[];
      closed := true;
      return Ok(());
    }
  }
}
