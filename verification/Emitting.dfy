/** Writing towards a known target: single steps of a live writer that stays in agreement with
    its target, with the open reservations spelled out. None of these steps can fail. */
module Emitting {
  import opened Bytes
  import opened Labels
  import opened Reservations
  import opened Writing

  /** The writer is live, in the given byte order, agrees with its target so far, and its open
      reservations are exactly `open`. */
  ghost predicate Live(w: BinaryWriter, be: bool, open: map<Hole, nat>)
    reads w, w.table
  {
    w.Valid() && !w.closed && w.bigEndian == be && w.OnTrack() && w.open == open
  }

  method Emit(w: BinaryWriter, s: bytes, ghost be: bool, ghost open: map<Hole, nat>)
    requires Live(w, be, open) && At(w.target, |w.buf|, s)
    modifies w`buf, w`pos
    ensures |w.buf| == old(|w.buf|) + |s| && Live(w, be, open)
  {
    hide Agrees, Linked, Inside, Sound, At;
    var _ := w.Write(s);
  }

  method EmitInt(w: BinaryWriter, v: int, n: nat, ghost be: bool, ghost open: map<Hole, nat>)
    requires Live(w, be, open) && At(w.target, |w.buf|, Enc(be, v, n))
    modifies w`buf, w`pos
    ensures |w.buf| == old(|w.buf|) + n && Live(w, be, open)
  {
    hide Agrees, Linked, Inside, Sound, At;
    var _ := w.WriteInt(v, n);
  }

  method EmitPad(w: BinaryWriter, align: nat, ghost be: bool, ghost open: map<Hole, nat>)
    requires align > 0 && Live(w, be, open)
    requires At(w.target, |w.buf|, Fill(AlignUp(|w.buf|, align) - |w.buf|, 0))
    modifies w`buf, w`pos
    ensures |w.buf| == AlignUp(old(|w.buf|), align) && Live(w, be, open)
  {
    hide Agrees, Linked, Inside, Sound, At, AlignUp;
    var _ := w.Pad(align);
  }

  method EmitHole(w: BinaryWriter, tag: Label, kind: Kind, ghost be: bool, ghost open: map<Hole, nat>)
    requires Live(w, be, open) && Hole(tag, kind) !in open && |w.buf| + Width(kind) <= |w.target|
    modifies w`buf, w`pos, w`open, w.table
    ensures |w.buf| == old(|w.buf|) + Width(kind) && Live(w, be, open[Hole(tag, kind) := old(|w.buf|)])
  {
    hide Agrees, Linked, Inside, Sound, At;
    var _ := w.Reserve(tag, kind);
  }

  method FillHole(w: BinaryWriter, tag: Label, kind: Kind, v: int, ghost be: bool, ghost open: map<Hole, nat>)
    requires Live(w, be, open) && Hole(tag, kind) in open
    requires At(w.target, open[Hole(tag, kind)], Enc(be, v, Width(kind)))
    modifies w`buf, w`pos, w`steps, w`open, w.table
    ensures |w.buf| == old(|w.buf|) && Live(w, be, open - {Hole(tag, kind)})
  {
    hide Agrees, Linked, Inside, Sound, At, Enc, Splice;
    var _ := w.FillIn(tag, kind, v);
  }

  method Start(be: bool, ghost target: bytes) returns (w: BinaryWriter)
    ensures fresh(w) && fresh(w.table) && |w.buf| == 0 && w.target == target && Live(w, be, map[])
  {
    w := new BinaryWriter(be, target);
  }

  /** With nothing left open and the target's length reached, finishing succeeds and yields the target. */
  method Complete(w: BinaryWriter, ghost be: bool) returns (r: Result<bytes>)
    requires Live(w, be, map[]) && |w.buf| == |w.target|
    modifies w`closed
    ensures r == Ok(w.target)
  {
    hide Agrees, Linked, Inside, Sound;
    var finished := w.Finish();
    r := match finished case Ok(_) => Ok(w.buf) case Err(e) => Err(e);
  }
}
