/** The BND3 writer, proved to produce the closed-form image. */
module Bnd3Writing {
  import opened Bytes
  import opened Format
  import opened Reservations
  import opened Writing
  import opened Reading
  import opened Texts
  import opened Binder
  import opened BinderWriting
  import opened Bnd3
  import Labels

  const HEADERS_END := Hole(Labels.Whole(Labels.FileHeadersEnd), I32)
  const HEAD_HOLES: map<Hole, nat> := map[HEADERS_END := 20]

  method WriteHead(w: BinaryWriter, env: Env, b: Archive, ghost p: Plan) returns (r: Result<()>)
    requires p == PlanOf(env, b)
    requires |w.buf| == 0 && Going(w, p.geo, HEAD_SIZE, Progress(0, 0, 0), map[], |w.buf|) && ImageStands(w.target, p)
    modifies w`buf, w`pos, w`open, w.table
    ensures r.Ok? <==> env.sjis.encode(TextOf(b.version)).Ok?
    ensures r.Err? ==> env.sjis.encode(TextOf(b.version)) == Err(r.error)
    ensures r.Ok? ==> |w.buf| == HEAD_SIZE && Going(w, p.geo, HEAD_SIZE, Progress(0, 0, 0), HEAD_HOLES, |w.buf|)
  {
    hide At, Enc, RecordedEnd, WriteFormat, StoreAll, FixedText, Going, Progress, BodyStands, NamesEnd, DataEnd;
    ghost var g, ph := p.geo, Progress(0, 0, 0);
    Append(w, MAGIC, g, HEAD_SIZE, ph, map[]);
    var version :- env.sjis.encode(TextOf(b.version));
    Append(w, FixedText(version, VERSION_SIZE), g, HEAD_SIZE, ph, map[]);
    Append(w, [WriteFormat(b.format, b.bitBigEndian), Bool(b.bigEndian), Bool(b.bitBigEndian), 0], g, HEAD_SIZE, ph, map[]);
    AppendInt(w, |b.files|, 4, g, HEAD_SIZE, ph, map[]);
    ReserveWhole(w, Labels.FileHeadersEnd, I32, g, HEAD_SIZE, ph, map[]);
    AppendInt(w, b.unk18, 4, g, HEAD_SIZE, ph, HEAD_HOLES);
    AppendInt(w, 0, 4, g, HEAD_SIZE, ph, HEAD_HOLES);
    return Ok(());
  }

  /** What the writer needs: every text and payload can be encoded. */
  ghost predicate Writable(env: Env, b: Archive) {
    && env.sjis.encode(TextOf(b.version)).Ok?
    && NamesOk(env.sjis, false, b.format, b.files)
    && PayloadsOk(env, b.files)
  }

  /** With what error the writer stops, names coming before payloads. */
  ghost predicate Fails(env: Env, b: Archive, e: Error) {
    || env.sjis.encode(TextOf(b.version)) == Err(e)
    || (env.sjis.encode(TextOf(b.version)).Ok? && NamesFail(env.sjis, false, b.format, b.files, e))
    || (env.sjis.encode(TextOf(b.version)).Ok? && NamesOk(env.sjis, false, b.format, b.files) && PayloadsFail(env, b.files, e))
  }

  lemma PlanFiles(env: Env, b: Archive)
    ensures var p := PlanOf(env, b);
      && p.geo == Geo(b) && p.files == StoreAll(env, env.sjis, false, Geo(b).format, b.files) && |p.files| == |b.files|
      && |p.version| == VERSION_SIZE && p.writeHeadersEnd == b.writeHeadersEnd
      && forall i :: 0 <= i < |b.files| ==> p.files[i].flags == b.files[i].flags && p.files[i].id == b.files[i].id
  {
  }

  lemma NamesEndIs(p: Plan)
    ensures NameBase(p) == EntryPos(p.geo, HEAD_SIZE, |p.files|)
    ensures NamesEnd(p) == NamePos(p.files, NameBase(p), |p.files|)
    ensures RecordedEnd(p) == if p.writeHeadersEnd then NamesEnd(p) else 0
  {
  }

  lemma TargetReady(p: Plan)
    requires |p.version| == VERSION_SIZE
    ensures ImageStands(Image(p), p)
    ensures BodyStands(Image(p), p.geo, p.files, HEAD_SIZE, NameBase(p), NamesEnd(p))
    ensures At(Image(p), 20, Enc(p.geo.be, RecordedEnd(p), 4))
    ensures |Image(p)| == DataEnd(p.files, NamesEnd(p), |p.files|)
  {
    hide At, Enc, Image, BodyStands, NamesEnd, DataEnd, NameBase, RecordedEnd;
    ImagePieces(p);
  }

  /** Everything up to the payloads. */
  method WriteFront(w: BinaryWriter, env: Env, b: Archive, ghost p: Plan) returns (r: Result<()>)
    requires p == PlanOf(env, b) && w.target == Image(p)
    requires |w.buf| == 0 && Going(w, p.geo, HEAD_SIZE, Progress(0, 0, 0), map[], |w.buf|)
    modifies w`buf, w`pos, w`steps, w`open, w.table
    ensures r.Ok? <==> env.sjis.encode(TextOf(b.version)).Ok? && NamesOk(env.sjis, false, b.format, b.files)
    ensures r.Err? ==> Fails(env, b, r.error)
    ensures r.Ok? ==> |w.buf| == NamesEnd(p) && Going(w, p.geo, HEAD_SIZE, Progress(|p.files|, |p.files|, 0), map[], |w.buf|)
  {
    hide At, Enc, Going, Progress, Image, StoreAll, FixedText, ImageStands, BodyStands, NamesOk, NamesEnd, NameBase,
      RecordedEnd, DataEnd, EntryPos, NamePos, PlanOf, NamesFail, PayloadsFail;
    PlanFiles(env, b);
    TargetReady(p);
    NamesEndIs(p);
    var _ :- WriteHead(w, env, b, p);
    WriteEntries(w, Geo(b), b.files, p.files, HEAD_SIZE, NameBase(p), NamesEnd(p), HEAD_HOLES);
    var _ :- WriteNames(w, env, env.sjis, false, Geo(b), b.files, p.files, HEAD_SIZE, NameBase(p), NamesEnd(p), HEAD_HOLES);
    FillWhole(w, Labels.FileHeadersEnd, I32, if b.writeHeadersEnd then |w.buf| else 0, p.geo, HEAD_SIZE,
              Progress(|p.files|, |p.files|, 0), HEAD_HOLES);
    assert HEAD_HOLES - {HEADERS_END} == map[];
    return Ok(());
  }

  /** Writing succeeds exactly for writable archives, and then yields the closed-form image; no
      reservation is ever taken twice or left open. */
  method WriteArchive(env: Env, b: Archive) returns (r: Result<bytes>)
    ensures r.Ok? <==> Writable(env, b)
    ensures r.Ok? ==> r.value == Image(PlanOf(env, b))
    ensures r.Err? ==> Fails(env, b, r.error)
  {
    hide At, Enc, Going, Progress, Image, StoreAll, FixedText, ImageStands, BodyStands, NamesOk, PayloadsOk, NamesEnd, NameBase,
      RecordedEnd, DataEnd, EntryPos, NamePos, PlanOf, NamesFail, PayloadsFail;
    ghost var p := PlanOf(env, b);
    PlanFiles(env, b);
    TargetReady(p);
    var w := new BinaryWriter(false, Image(p));
    w.bigEndian := HostOrder(b.bigEndian, b.format);
    BeginGoing(w, p.geo, HEAD_SIZE);
    var _ :- WriteFront(w, env, b, p);
    var _ :- WritePayloads(w, env, Geo(b), b.files, env.sjis, false, p.files, HEAD_SIZE, NameBase(p), NamesEnd(p), map[]);
    EndGoing(w, p.geo, HEAD_SIZE, |p.files|);
    var finished := w.Finish();
    r := match finished case Ok(_) => Ok(w.buf) case Err(e) => Err(e);
  }
}
