/** The BND4 writer: placeholders first, then names, index and payloads, each placeholder filled
    when its value is known; proved to produce the closed-form image. */
module Bnd4Writing {
  import opened Bytes
  import opened Format
  import opened Reservations
  import opened Writing
  import opened Reading
  import opened Texts
  import opened Binder
  import opened BinderWriting
  import opened PathHashing
  import opened HashTableCodec
  import opened Bnd4
  import Labels
  import HashIndex

  const HEADERS_END := Hole(Labels.Whole(Labels.HeadersEnd), I64)
  const TABLE_OFFSET := Hole(Labels.Whole(Labels.HashTableOffset), I64)
  const HASHES_OFFSET := Hole(Labels.Whole(Labels.HashesOffset), I64)

  const HEAD_HOLES: map<Hole, nat> := map[HEADERS_END := 0x28, TABLE_OFFSET := 0x38]

  // ------------------------------------------------------------------ the archive header

  /** The pieces of the archive header, each where it will be written. */
  ghost predicate HeadStands(buf: bytes, p: Plan) {
    var be := p.geo.be;
    && At(buf, 0, MAGIC)
    && At(buf, 4, [Bool(p.unk04), Bool(p.unk05), 0, 0, 0, Bool(be), Bool(!p.geo.bitBig), 0])
    && At(buf, 12, Enc(be, |p.files|, 4)) && At(buf, 16, Enc(be, HEAD_SIZE, 8))
    && At(buf, 24, p.version) && At(buf, 32, Enc(be, EntrySize(p.geo), 8))
    && At(buf, 0x28, Enc(be, HeadersEnd(p), 8))
    && At(buf, 0x30, [Bool(p.unicode), WriteFormat(p.geo.format, p.geo.bitBig), p.extended, 0])
    && At(buf, 0x34, Enc(be, 0, 4)) && At(buf, 0x38, Enc(be, TableOffset(p), 8))
    && 0x40 <= |buf|
  }

  lemma HeadPieces(buf: bytes, p: Plan)
    requires ImageStands(buf, p) && |p.version| == VERSION_SIZE
    ensures HeadStands(buf, p)
  {
    hide At, Enc, HeadersEnd, TableOffset, WriteFormat, EntryTable, NameTable, DataTable, TableBytes, NamesEnd, NameBase, DataEnd;
    var be := p.geo.be;
    AtSplit(buf, 0, MAGIC, [Bool(p.unk04), Bool(p.unk05), 0, 0, 0, Bool(be), Bool(!p.geo.bitBig), 0]);
    AtSplit4(buf, 12, Enc(be, |p.files|, 4), Enc(be, HEAD_SIZE, 8), p.version, Enc(be, EntrySize(p.geo), 8));
    AtSplit4(buf, 0x28, Enc(be, HeadersEnd(p), 8), [Bool(p.unicode), WriteFormat(p.geo.format, p.geo.bitBig), p.extended, 0],
             Enc(be, 0, 4), Enc(be, TableOffset(p), 8));
    HeadReach(buf, 0x28, HeadOffsets(p));
  }

  lemma HeadReach(buf: bytes, pos: nat, s: bytes)
    requires At(buf, pos, s)
    ensures pos + |s| <= |buf|
  {
  }

  lemma OffsetsHere(buf: bytes, p: Plan)
    requires HeadStands(buf, p)
    ensures At(buf, 0x28, Enc(p.geo.be, HeadersEnd(p), 8)) && At(buf, 0x38, Enc(p.geo.be, TableOffset(p), 8))
  {
  }

  method WriteHead(w: BinaryWriter, env: Env, b: Archive, ghost p: Plan) returns (r: Result<()>)
    requires p == PlanOf(env, b, p.groups, p.order)
    requires |w.buf| == 0 && Going(w, p.geo, HEAD_SIZE, Progress(0, 0, 0), map[], |w.buf|) && HeadStands(w.target, p)
    modifies w`buf, w`pos, w`open, w.table
    ensures r.Ok? <==> env.sjis.encode(TextOf(b.version)).Ok?
    ensures r.Err? ==> env.sjis.encode(TextOf(b.version)) == Err(r.error)
    ensures r.Ok? ==> |w.buf| == HEAD_SIZE && Going(w, p.geo, HEAD_SIZE, Progress(0, 0, 0), HEAD_HOLES, |w.buf|)
  {
    hide At, Enc, HeadersEnd, TableOffset, WriteFormat, EntrySize, StoreAll, Hashes, FixedText, Going, Progress;
    ghost var g, ph := p.geo, Progress(0, 0, 0);
    Append(w, MAGIC, g, HEAD_SIZE, ph, map[]);
    Append(w, [Bool(b.unk04), Bool(b.unk05), 0, 0, 0, Bool(b.bigEndian), Bool(!b.bitBigEndian), 0], g, HEAD_SIZE, ph, map[]);
    AppendInt(w, |b.files|, 4, g, HEAD_SIZE, ph, map[]);
    AppendInt(w, HEAD_SIZE, 8, g, HEAD_SIZE, ph, map[]);
    var version :- env.sjis.encode(TextOf(b.version));
    Append(w, FixedText(version, VERSION_SIZE), g, HEAD_SIZE, ph, map[]);
    AppendInt(w, EntrySize(Geo(b)), 8, g, HEAD_SIZE, ph, map[]);
    ReserveWhole(w, Labels.HeadersEnd, I64, g, HEAD_SIZE, ph, map[]);
    ghost var one := map[HEADERS_END := 0x28 as nat];
    Append(w, [Bool(b.unicode), WriteFormat(b.format, b.bitBigEndian), b.extended, 0], g, HEAD_SIZE, ph, one);
    AppendInt(w, 0, 4, g, HEAD_SIZE, ph, one);
    ReserveWhole(w, Labels.HashTableOffset, I64, g, HEAD_SIZE, ph, one);
    return Ok(());
  }

  // ------------------------------------------------------------------ the hash table

  /** Emits the table: its offset field is reserved, then filled once the group records are out. */
  method WriteTable(w: BinaryWriter, groups: nat, order: seq<HashIndex.Entry>, starts: seq<nat>,
                    ghost p: Plan, ghost ph: Phase, ghost wholes: map<Hole, nat>)
    requires groups > 0 && groups == p.groups && order == p.order && |order| == |p.hashes|
    requires |starts| == groups && forall r :: 0 <= r < groups ==> starts[r] == HashIndex.Start(HashIndex.Entries(p.hashes), groups, r)
    requires HASHES_OFFSET !in wholes
    requires |w.buf| == TableAt(p) && Going(w, p.geo, HEAD_SIZE, ph, wholes, |w.buf|)
    requires At(w.target, TableAt(p), TableBytes(p.geo.be, TableAt(p), HashIndex.Entries(p.hashes), groups, order))
    modifies w`buf, w`pos, w`steps, w`open, w.table
    ensures |w.buf| == TableAt(p) + TableSize(groups, |order|) && Going(w, p.geo, HEAD_SIZE, ph, wholes, |w.buf|)
  {
    hide At, Enc, Going, TableAt, HashIndex.Bucket, HashIndex.Start, GroupRecords, HashRecords;
    ghost var g, be, at, es := p.geo, p.geo.be, TableAt(p), HashIndex.Entries(p.hashes);
    ghost var inner := wholes[HASHES_OFFSET := at];
    TableStands(w.target, at, be, es, groups, order);
    TableReach8(w.target, at, be, groups);
    ReserveWhole(w, Labels.HashesOffset, I64, g, HEAD_SIZE, ph, wholes);
    AppendInt(w, groups, 4, g, HEAD_SIZE, ph, inner);
    Append(w, [0x10, 0x08, 0x08, 0x00], g, HEAD_SIZE, ph, inner);
    WriteGroups(w, groups, starts, |order|, p, ph, inner);
    FillWhole(w, Labels.HashesOffset, I64, |w.buf|, g, HEAD_SIZE, ph, inner);
    assert inner - {HASHES_OFFSET} == wholes;
    WriteHashes(w, order, p, ph, wholes);
  }

  lemma TableReach8(buf: bytes, at: nat, be: bool, g: nat)
    requires At(buf, at, Enc(be, at + 16 + 8 * g, 8))
    ensures at + 8 <= |buf|
  {
    hide Enc;
  }

  method WriteGroups(w: BinaryWriter, groups: nat, starts: seq<nat>, total: nat, ghost p: Plan, ghost ph: Phase, ghost wholes: map<Hole, nat>)
    requires groups > 0 && |starts| == groups && total == |p.hashes|
    requires forall r :: 0 <= r < groups ==> starts[r] == HashIndex.Start(HashIndex.Entries(p.hashes), groups, r)
    requires Going(w, p.geo, HEAD_SIZE, ph, wholes, |w.buf|)
    requires At(w.target, |w.buf|, GroupRecords(p.geo.be, HashIndex.Entries(p.hashes), groups, groups))
    modifies w`buf, w`pos
    ensures |w.buf| == old(|w.buf|) + 8 * groups && Going(w, p.geo, HEAD_SIZE, ph, wholes, |w.buf|)
  {
    hide At, Enc, Going, HashIndex.Bucket, HashIndex.Start, GroupRecords;
    ghost var es, at := HashIndex.Entries(p.hashes), |w.buf|;
    HashIndex.StartZero(es, groups);
    var cur := 0;
    for i := 0 to groups
      invariant |w.buf| == at + 8 * i && Going(w, p.geo, HEAD_SIZE, ph, wholes, |w.buf|)
      invariant cur == HashIndex.Start(es, groups, i)
    {
      HashIndex.LengthsMatch(es, groups, starts, i);
      HashIndex.StartStep(es, groups, i);
      GroupStands(w.target, at, p.geo.be, es, groups, groups, i);
      var len := HashIndex.LengthFromOffsets(starts, total, i, cur);
      AppendInt(w, len, 4, p.geo, HEAD_SIZE, ph, wholes);
      AppendInt(w, cur, 4, p.geo, HEAD_SIZE, ph, wholes);
      cur := cur + len;
    }
  }

  method WriteHashes(w: BinaryWriter, order: seq<HashIndex.Entry>, ghost p: Plan, ghost ph: Phase, ghost wholes: map<Hole, nat>)
    requires Going(w, p.geo, HEAD_SIZE, ph, wholes, |w.buf|)
    requires At(w.target, |w.buf|, HashRecords(p.geo.be, order, |order|))
    modifies w`buf, w`pos
    ensures |w.buf| == old(|w.buf|) + 8 * |order| && Going(w, p.geo, HEAD_SIZE, ph, wholes, |w.buf|)
  {
    hide At, Enc, Going, HashRecords;
    ghost var at := |w.buf|;
    for i := 0 to |order|
      invariant |w.buf| == at + 8 * i && Going(w, p.geo, HEAD_SIZE, ph, wholes, |w.buf|)
    {
      HashStands(w.target, at, p.geo.be, order, |order|, i);
      AppendInt(w, order[i].hash, 4, p.geo, HEAD_SIZE, ph, wholes);
      AppendInt(w, order[i].index, 4, p.geo, HEAD_SIZE, ph, wholes);
    }
  }

  // ------------------------------------------------------------------ the whole archive

  /** What the writer needs: every text and payload can be encoded, and with an index there is a
      group count, which is so exactly below 699944 files. */
  ghost predicate Writable(env: Env, b: Archive) {
    && env.sjis.encode(TextOf(b.version)).Ok?
    && NamesOk(CodecOf(env, b), b.unicode, b.format, b.files)
    && PayloadsOk(env, b.files)
    && (b.extended == HASHED ==> !LeastPrimeFrom(0, SearchStart(|b.files|)))
  }

  /** With what error the writer stops: the version, the names, the index, the payloads. */
  ghost predicate Fails(env: Env, b: Archive, e: Error) {
    || FrontFails(env, b, e)
    || (env.sjis.encode(TextOf(b.version)).Ok? && NamesOk(CodecOf(env, b), b.unicode, b.format, b.files)
        && (b.extended == HASHED ==> !LeastPrimeFrom(0, SearchStart(|b.files|))) && PayloadsFail(env, b.files, e))
  }

  ghost predicate FrontFails(env: Env, b: Archive, e: Error) {
    || env.sjis.encode(TextOf(b.version)) == Err(e)
    || (env.sjis.encode(TextOf(b.version)).Ok? && NamesFail(CodecOf(env, b), b.unicode, b.format, b.files, e))
    || (env.sjis.encode(TextOf(b.version)).Ok? && NamesOk(CodecOf(env, b), b.unicode, b.format, b.files)
        && b.extended == HASHED && LeastPrimeFrom(0, SearchStart(|b.files|)) && e == Internal)
  }

  /** The plan carries the group count and a finished index where the archive asks for one. */
  ghost predicate Indexed(p: Plan) {
    && |p.order| == |p.hashes|
    && (p.extended == HASHED ==>
          && LeastPrimeFrom(p.groups, SearchStart(|p.hashes|)) && p.groups > 0
          && HashIndex.IsIndex(p.order, HashIndex.Entries(p.hashes), p.groups))
  }

  lemma {:induction false} GroupCountExists(start: nat, p: nat) returns (g: nat)
    requires start <= p && forall q :: start <= q < p ==> !Prime(q)
    ensures LeastPrimeFrom(g, start)
    decreases MAX_GROUPS + 1 - p
  {
    if p > MAX_GROUPS {
      g := 0;
    } else if Prime(p) {
      g := p;
    } else {
      g := GroupCountExists(start, p + 1);
    }
  }

  lemma TargetReady(p: Plan)
    requires |p.version| == VERSION_SIZE
    ensures HeadStands(Image(p), p) && BodyStands(Image(p), p.geo, p.files, HEAD_SIZE, NameBase(p), HeadersEnd(p))
    ensures |Image(p)| == DataEnd(p.files, HeadersEnd(p), |p.files|)
    ensures p.extended == HASHED ==> At(Image(p), NamesEnd(p), Fill(TableAt(p) - NamesEnd(p), 0))
    ensures p.extended == HASHED ==>
      At(Image(p), TableAt(p), TableBytes(p.geo.be, TableAt(p), HashIndex.Entries(p.hashes), p.groups, p.order))
  {
    hide At, Enc, Image, HeadersEnd, NamesEnd, NameBase, TableAt, TableOffset, EntryTable, NameTable, DataTable, TableBytes, DataEnd;
    ImagePieces(p);
    HeadPieces(Image(p), p);
  }

  /** Pads, fills the table offset, builds the index and emits it. */
  method WriteIndex(w: BinaryWriter, b: Archive, ghost p: Plan) returns (r: Result<()>, ghost q: Plan)
    requires |p.version| == VERSION_SIZE && p.hashes == Hashes(b.files) && |p.order| == |p.hashes| && p.extended == HASHED
    requires w.target == Image(p) && LeastPrimeFrom(p.groups, SearchStart(|b.files|))
    requires |w.buf| == NamesEnd(p) && Going(w, p.geo, HEAD_SIZE, Progress(|p.files|, |p.files|, 0), HEAD_HOLES, |w.buf|)
    modifies w`buf, w`pos, w`steps, w`open, w`target, w.table
    ensures r.Ok? <==> p.groups > 0
    ensures r.Err? ==> r.error == Internal
    ensures q == p.(order := q.order)
    ensures r.Ok? ==> Indexed(q) && w.target == Image(q) && |w.buf| == HeadersEnd(q)
    ensures r.Ok? ==> Going(w, q.geo, HEAD_SIZE, Progress(|q.files|, |q.files|, 0), map[HEADERS_END := 0x28], |w.buf|)
  {
    hide At, Enc, Going, Progress, Image, NameBase, NamesEnd, EntryTable, NameTable, DataTable, TableBytes, DataEnd, Front, Hashes,
      HashIndex.Bucket, HashIndex.Start, HashIndex.IsIndex, TableOffset, LeastPrimeFrom, SearchStart, HeadersEnd, TableAt, AlignUp, TableSize;
    q := p;
    ghost var ph := Progress(|p.files|, |p.files|, 0);
    ghost var rest: map<Hole, nat> := map[HEADERS_END := 0x28];
    TargetReady(p);
    TableAligned(p);
    PadTo(w, 8, p.geo, HEAD_SIZE, ph, HEAD_HOLES);
    FillWhole(w, Labels.HashTableOffset, I64, |w.buf|, p.geo, HEAD_SIZE, ph, HEAD_HOLES);
    assert HEAD_HOLES - {TABLE_OFFSET} == rest;
    var groups := GroupCount(|b.files|);
    GroupCountUnique(groups, p.groups, SearchStart(|b.files|));
    if groups == 0 {
      return Err(Internal), q;
    }
    var order, starts := HashIndex.BuildIndex(Hashes(b.files), groups);
    IndexLength(order, Hashes(b.files), groups);
    q := p.(order := order);
    OffsetsIndependent(p, order);
    FrontIndependent(p, order);
    FrontAndPadStand(p);
    FrontAndPadStand(q);
    Retarget(w, Image(q), Front(p) + Fill(TableAt(p) - NamesEnd(p), 0), p.geo, HEAD_SIZE, ph, rest);
    TargetReady(q);
    TableEnd(q);
    WriteTable(w, groups, order, starts, q, ph, rest);
    return Ok(()), q;
  }

  lemma TableAligned(p: Plan)
    requires p.extended == HASHED
    ensures TableAt(p) == AlignUp(NamesEnd(p), 8) && TableOffset(p) == TableAt(p)
  {
  }

  lemma TableEnd(p: Plan)
    requires p.extended == HASHED
    ensures HeadersEnd(p) == TableAt(p) + TableSize(p.groups, |p.order|)
  {
  }

  lemma IndexLength(order: seq<HashIndex.Entry>, hashes: seq<nat>, g: nat)
    requires g > 0 && HashIndex.IsIndex(order, HashIndex.Entries(hashes), g)
    ensures |order| == |hashes|
  {
  }

  lemma NoIndex(p: Plan)
    requires p.extended != HASHED
    ensures HeadersEnd(p) == NamesEnd(p) && TableOffset(p) == 0
  {
  }

  /** Everything up to the payloads: header, entries, names, index, and the end of the headers. */
  method WriteFront(w: BinaryWriter, env: Env, b: Archive, ghost p0: Plan) returns (r: Result<()>, ghost p: Plan)
    requires p0 == PlanOf(env, b, p0.groups, p0.order) && |p0.order| == |b.files|
    requires w.target == Image(p0) && LeastPrimeFrom(p0.groups, SearchStart(|b.files|))
    requires |w.buf| == 0 && Going(w, p0.geo, HEAD_SIZE, Progress(0, 0, 0), map[], |w.buf|)
    modifies w`buf, w`pos, w`steps, w`open, w`target, w.table
    ensures p == PlanOf(env, b, p.groups, p.order)
    ensures r.Ok? <==>
      && env.sjis.encode(TextOf(b.version)).Ok?
      && NamesOk(CodecOf(env, b), b.unicode, b.format, b.files)
      && (b.extended == HASHED ==> p0.groups > 0)
    ensures r.Err? ==> FrontFails(env, b, r.error)
    ensures r.Ok? ==> Indexed(p) && w.target == Image(p) && |w.buf| == HeadersEnd(p)
    ensures r.Ok? ==> Going(w, p.geo, HEAD_SIZE, Progress(|p.files|, |p.files|, 0), map[], |w.buf|)
  {
    hide At, Enc, Going, Progress, Image, NameBase, NamesEnd, EntryTable, NameTable, DataTable, TableBytes, DataEnd, Front, Hashes,
      TableOffset, LeastPrimeFrom, SearchStart, HeadersEnd, StoreAll, FixedText, HeadStands, BodyStands, CodecOf, NamesOk, NamesFail, EntryPos, NamePos;
    p := p0;
    TargetReady(p);
    var head := WriteHead(w, env, b, p);
    if head.Err? {
      return head, p;
    }
    PlanFiles(env, b, p);
    WriteEntries(w, Geo(b), b.files, p.files, HEAD_SIZE, NameBase(p), HeadersEnd(p), HEAD_HOLES);
    NameBaseIs(p);
    var names := WriteNames(w, env, CodecOf(env, b), b.unicode, Geo(b), b.files, p.files, HEAD_SIZE, NameBase(p), HeadersEnd(p), HEAD_HOLES);
    if names.Err? {
      return names, p;
    }
    ghost var ph, rest := Progress(|p.files|, |p.files|, 0), map[HEADERS_END := 0x28 as nat];
    if b.extended == HASHED {
      var index;
      index, p := WriteIndex(w, b, p);
      if index.Err? {
        ZeroIsAnswer(p0.groups, SearchStart(|b.files|));
        return index, p;
      }
    } else {
      NoIndex(p);
      OffsetsHere(w.target, p);
      FillWhole(w, Labels.HashTableOffset, I64, 0, p.geo, HEAD_SIZE, ph, HEAD_HOLES);
      assert HEAD_HOLES - {TABLE_OFFSET} == rest;
    }
    TargetReady(p);
    OffsetsHere(w.target, p);
    FillWhole(w, Labels.HeadersEnd, I64, |w.buf|, p.geo, HEAD_SIZE, ph, rest);
    assert rest - {HEADERS_END} == map[];
    return Ok(()), p;
  }

  /** Writing succeeds exactly for writable archives, and then yields the closed-form image; no
      reservation is ever taken twice or left open. */
  method WriteArchive(env: Env, b: Archive) returns (r: Result<bytes>, ghost p: Plan)
    ensures r.Ok? <==> Writable(env, b)
    ensures r.Ok? ==> p == PlanOf(env, b, p.groups, p.order) && Indexed(p) && r.value == Image(p)
    ensures r.Err? ==> Fails(env, b, r.error)
  {
    hide At, Enc, Going, Progress, Image, StoreAll, FixedText, HeadStands, BodyStands, CodecOf, NamesOk, PayloadsOk, Indexed,
      LeastPrimeFrom, SearchStart, HeadersEnd, DataEnd, Hashes, NameBase, EntryPos, NamePos, NamesFail, PayloadsFail, FrontFails;
    ghost var start := SearchStart(|b.files|);
    ghost var g := GroupCountExists(start, start);
    ZeroIsAnswer(g, start);
    p := PlanOf(env, b, g, seq(|b.files|, _ => HashIndex.Entry(0, 0)));
    var w := new BinaryWriter(false, Image(p));
    w.bigEndian := b.bigEndian;
    BeginGoing(w, p.geo, HEAD_SIZE);
    var front;
    front, p := WriteFront(w, env, b, p);
    if front.Err? {
      return Err(front.error), p;
    }
    TargetReady(p);
    PlanFiles(env, b, p);
    var payloads := WritePayloads(w, env, Geo(b), b.files, CodecOf(env, b), b.unicode, p.files, HEAD_SIZE, NameBase(p), HeadersEnd(p), map[]);
    if payloads.Err? {
      return Err(payloads.error), p;
    }
    EndGoing(w, p.geo, HEAD_SIZE, |p.files|);
    var finished := w.Finish();
    r := match finished case Ok(_) => Ok(w.buf) case Err(e) => Err(e);
  }

  lemma NameBaseIs(p: Plan)
    ensures NameBase(p) == EntryPos(p.geo, HEAD_SIZE, |p.files|)
    ensures NamesEnd(p) == NamePos(p.files, NameBase(p), |p.files|)
  {
  }

  lemma PlanFiles(env: Env, b: Archive, p: Plan)
    requires p == PlanOf(env, b, p.groups, p.order)
    ensures p.files == StoreAll(env, CodecOf(env, b), b.unicode, Geo(b).format, b.files) && p.geo == Geo(b)
    ensures |p.files| == |b.files|
    ensures forall i :: 0 <= i < |b.files| ==> p.files[i].flags == b.files[i].flags && p.files[i].id == b.files[i].id
  {
  }

  lemma ZeroIsAnswer(g: nat, start: nat)
    requires LeastPrimeFrom(g, start)
    ensures LeastPrimeFrom(0, start) <==> g == 0
  {
  }
}
