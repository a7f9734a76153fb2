/** Reading the head and the entries of a BND4 archive, allocation by allocation: on every failure what
    was taken so far is given back, except names that went to the wrong allocator. */
module Bnd4Heads {
  import opened Bytes
  import opened Reading
  import opened Texts
  import opened Format
  import opened Binder
  import opened BinderReading
  import opened Allocation
  import opened Bnd4
  import opened Bnd4Reading

  function EntryCodec(env: Env, h: Header): Codec {
    NameCodec(env, h.shape.unicode, h.flags.be)
  }

  function EntriesOf(env: Env, buf: bytes, h: Header, k: nat): Result<seq<FileHeader>> {
    ParseEntries(EntryCodec(env, h), h.shape.unicode, buf, GeoOf(h), HEAD_SIZE, k)
  }

  // ------------------------------------------------------------------ texts in blocks of their own

  /** A text in a new block, or an error; nothing else has changed. */
  ghost predicate Delivered(heap: Heap, r: Result<(nat, bytes)>, expected: Result<bytes>, mem0: Memory, mem: Memory) {
    match r
    case Ok(t) => expected == Ok(t.1) && t.0 !in mem0 && mem == mem0[t.0 := t.1 + [0]]
    case Err(e) => (heap.RanOut(e) || expected == Err(e)) && mem == mem0
  }

  const FIRST_SCRATCH: nat := 64

  /** Collects bytes up to a terminator in a block that doubles when the next unit does not fit. */
  method Gather(heap: Heap, buf: bytes, pos: nat, wide: bool) returns (r: Result<(nat, bytes)>)
    requires heap.Valid() && pos <= |buf|
    modifies heap
    ensures heap.Valid()
    ensures r.Err? ==> heap.mem == old(heap.mem) && (heap.RanOut(r.error) || Terminated(buf, pos, wide) == Err(r.error))
    ensures r.Ok? ==> Terminated(buf, pos, wide) == Ok(r.value.1)
    ensures r.Ok? ==> r.value.0 !in old(heap.mem) && heap.mem == old(heap.mem)[r.value.0 := r.value.1]
  {
    hide Without, OneOf, Holding, ZeroFrom, ZeroPairFrom;
    ghost var mem0 := heap.mem;
    var unit := if wide then 2 else 1;
    var i, cap, acc := pos, FIRST_SCRATCH, [];
    var block := heap.Alloc([]);
    if block.None? {
      return Err(OutOfMemory);
    }
    NowHolding(mem0, block.value, []);
    while i + unit <= |buf| && !(buf[i] == 0 && (wide ==> buf[i + 1] == 0))
      invariant heap.Valid() && block.Some? && Holding(mem0, heap.mem, block, acc)
      invariant pos <= i <= |buf| && acc == buf[pos..i] && |acc| <= cap && cap >= FIRST_SCRATCH
      invariant wide ==> ZeroPairFrom(buf, i) == ZeroPairFrom(buf, pos)
      invariant !wide ==> ZeroFrom(buf, i) == ZeroFrom(buf, pos)
      decreases |buf| - i
    {
      Released(mem0, heap.mem, block, acc);
      if |acc| + unit > cap {
        var grown := heap.Resize(block, acc);
        if grown.None? {
          heap.Free(block);
          return Err(OutOfMemory);
        }
        block, cap := grown, cap * 2;
        NowHolding(mem0, block.value, acc);
        Released(mem0, heap.mem, block, acc);
      }
      NextUnit(buf, pos, i, wide);
      Rewritten(mem0, heap.mem, block, acc, acc + buf[i..i + unit]);
      acc := acc + buf[i..i + unit];
      heap.Store(block.value, acc);
      i := i + unit;
    }
    LastUnit(buf, i, wide);
    Released(mem0, heap.mem, block, acc);
    StillHolding(mem0, heap.mem, block, acc);
    if i + unit > |buf| {
      heap.Free(block);
      return Err(Truncated);
    }
    return Ok((block.value, acc));
  }

  lemma NextUnit(buf: bytes, pos: nat, i: nat, wide: bool)
    requires pos <= i && i + (if wide then 2 else 1) <= |buf| && !(buf[i] == 0 && (wide ==> buf[i + 1] == 0))
    ensures var next := i + if wide then 2 else 1;
      && buf[pos..i] + buf[i..next] == buf[pos..next]
      && if wide then ZeroPairFrom(buf, next) == ZeroPairFrom(buf, i) else ZeroFrom(buf, next) == ZeroFrom(buf, i)
  {
  }

  /** At a terminator, or with too little left. */
  lemma LastUnit(buf: bytes, i: nat, wide: bool)
    requires i <= |buf| && (i + (if wide then 2 else 1) > |buf| || (buf[i] == 0 && (wide ==> buf[i + 1] == 0)))
    ensures if wide then ZeroPairFrom(buf, i) == i else ZeroFrom(buf, i) == i
  {
  }

  /** Converts a text, by way of a work block where the platform needs one: bytes are widened first,
      code units of the other byte order are swapped first. */
  method Convert(heap: Heap, c: Codec, wide: bool, swap: bool, raw: bytes) returns (r: Result<(nat, bytes)>)
    requires heap.Valid()
    modifies heap
    ensures heap.Valid() && Delivered(heap, r, c.decode(raw), old(heap.mem), heap.mem)
  {
    hide Without, OneOf, Holding;
    ghost var mem0 := heap.mem;
    var work: Option<nat> := None;
    NotHolding(mem0);
    if wide && swap && raw != [] {
      work := heap.Alloc([]);
      if work.None? {
        return Err(OutOfMemory);
      }
      NowHolding(mem0, work.value, []);
    }
    var text := c.decode(raw);
    Released(mem0, heap.mem, work, []);
    if text.Err? {
      heap.Free(work);
      return Err(text.error);
    }
    if !wide && raw != [] {
      work := heap.Alloc([]);
      if work.None? {
        return Err(OutOfMemory);
      }
      NowHolding(mem0, work.value, []);
    }
    Released(mem0, heap.mem, work, []);
    ghost var mem1 := heap.mem;
    var block := heap.Alloc(text.value + [0]);
    if block.Some? {
      ReleasedUnder(mem0, mem1, work, [], block.value, text.value + [0]);
    }
    heap.Free(work);
    if block.None? {
      return Err(OutOfMemory);
    }
    return Ok((block.value, text.value));
  }

  method ReadText(heap: Heap, c: Codec, wide: bool, swap: bool, buf: bytes, off: int) returns (r: Result<(nat, bytes)>)
    requires heap.Valid()
    modifies heap
    ensures heap.Valid() && Delivered(heap, r, GetText(c, wide, buf, off), old(heap.mem), heap.mem)
  {
    hide Terminated;
    var pos :- SeekTo(buf, off);
    var raw :- Gather(heap, buf, pos, wide);
    r := Convert(heap, c, wide, swap, raw.1);
    heap.Free(Some(raw.0));
  }

  method ReadFixedText(heap: Heap, c: Codec, buf: bytes, pos: nat, size: nat) returns (r: Result<(nat, bytes)>)
    requires heap.Valid()
    modifies heap
    ensures heap.Valid() && Delivered(heap, r, GetFixedText(c, buf, pos, size), old(heap.mem), heap.mem)
  {
    var scratch := heap.Alloc([]);
    if scratch.None? {
      return Err(OutOfMemory);
    }
    var raw := Take(buf, pos, size);
    if raw.Err? {
      heap.Free(scratch);
      return Err(raw.error);
    }
    r := Convert(heap, c, false, false, raw.value[..ZeroFrom(raw.value, 0)]);
    heap.Free(scratch);
  }

  // ------------------------------------------------------------------ the head

  /** Everything in front of the version. */
  function ParseLead(buf: bytes): Result<(Flags, int)> {
    var flags :- ParseFlags(buf);
    var count :- GetSInt(buf, 12, flags.be, 4);
    var _ :- ExpectSInt(buf, 16, flags.be, 8, HEAD_SIZE);
    Ok((flags, count))
  }

  /** Everything behind it. */
  function ParseRest(buf: bytes, flags: Flags, count: int, version: bytes): Result<Header> {
    var entrySize :- GetSInt(buf, 32, flags.be, 8);
    var shape :- ParseShape(buf, flags.be, flags.bitBig);
    var _ :- CheckTable(buf, flags.be, shape.extended);
    var h := Header(flags, Sizes(count, version, entrySize), shape);
    if entrySize != EntrySize(GeoOf(h)) then Err(BadMagic)
    else if count < 0 then Err(OutOfRange)
    else Ok(h)
  }

  lemma HeaderSplits(env: Env, buf: bytes)
    ensures ParseHeader(env, buf)
         == var lead :- ParseLead(buf);
            var version :- GetFixedText(env.sjis, buf, 24, VERSION_SIZE);
            ParseRest(buf, lead.0, lead.1, version)
  {
    hide ParseFlags, ParseShape, CheckTable, GetSInt, ExpectSInt, GetFixedText, EntrySize;
  }

  /** The head; the version has a block of its own from the moment it is read. */
  method ReadHead(heap: Heap, env: Env, buf: bytes) returns (r: Result<(Header, nat)>)
    requires heap.Valid()
    modifies heap
    ensures heap.Valid()
    ensures r.Err? ==> heap.mem == old(heap.mem) && (heap.RanOut(r.error) || ParseHeader(env, buf) == Err(r.error))
    ensures r.Ok? ==> ParseHeader(env, buf) == Ok(r.value.0)
    ensures r.Ok? ==> r.value.1 !in old(heap.mem) && heap.mem == old(heap.mem)[r.value.1 := r.value.0.sizes.version + [0]]
  {
    hide ParseHeader, ParseLead, ParseRest, GetFixedText;
    HeaderSplits(env, buf);
    var lead :- ParseLead(buf);
    var version :- ReadFixedText(heap, env.sjis, buf, 24, VERSION_SIZE);
    var rest := ParseRest(buf, lead.0, lead.1, version.1);
    if rest.Err? {
      heap.Free(Some(version.0));
      return Err(rest.error);
    }
    VersionKept(buf, lead.0, lead.1, version.1);
    return Ok((rest.value, version.0));
  }

  lemma VersionKept(buf: bytes, flags: Flags, count: int, version: bytes)
    ensures var r := ParseRest(buf, flags, count, version); r.Ok? ==> r.value.sizes.version == version
  {
  }

  // ------------------------------------------------------------------ entries

  /** The name of an entry, in a block of its own. An allocator other than the default one gets a copy,
      and the first block is handed to the default allocator, which did not make it: here it stays. */
  method ReadName(heap: Heap, c: Codec, wide: bool, buf: bytes, pos: nat, g: Geometry, ghost mem0: Memory, ghost blocks: multiset<nat>)
    returns (r: Result<(Option<bytes>, Option<nat>)>, ghost lost: Option<nat>)
    requires heap.Valid() && g.v4 && Staged(mem0, heap.mem, blocks)
    modifies heap
    ensures heap.Valid() && (heap.isDefault ==> lost.None?)
    ensures r.Err? ==> heap.RanOut(r.error) || GetEntryName(c, wide, buf, pos, g) == Err(r.error)
    ensures r.Err? ==> Staged(mem0, heap.mem, blocks + OneOf(lost))
    ensures r.Ok? ==> GetEntryName(c, wide, buf, pos, g) == Ok(r.value.0) && (r.value.1.Some? <==> r.value.0.Some?)
    ensures r.Ok? ==> Staged(mem0, heap.mem, blocks + OneOf(lost) + OneOf(r.value.1))
    ensures r.Ok? && !heap.isDefault ==> (lost.Some? <==> r.value.0.Some?)
  {
    hide Staged, GetText, GetUInt;
    NoBlockMore(blocks);
    lost := None;
    if !HasNames(g.format) {
      return Ok((None, None)), None;
    }
    var off := GetUInt(buf, pos, g.be, 4);
    if off.Err? {
      return Err(off.error), None;
    }
    ghost var mem1 := heap.mem;
    var text := ReadText(heap, c, wide, g.be, buf, off.value);
    if text.Err? {
      return Err(text.error), None;
    }
    StageMore(mem0, mem1, blocks, text.value.0, text.value.1 + [0]);
    assert blocks + multiset{text.value.0} == blocks + OneOf(Some(text.value.0));
    if heap.isDefault {
      return Ok((Some(text.value.1), Some(text.value.0))), None;
    }
    lost := Some(text.value.0);
    ghost var mem2 := heap.mem;
    var copy := heap.Alloc(text.value.1 + [0]);
    if copy.None? {
      return Err(OutOfMemory), lost;
    }
    StageMore(mem0, mem2, blocks + OneOf(lost), copy.value, text.value.1 + [0]);
    assert blocks + OneOf(lost) + multiset{copy.value} == blocks + OneOf(lost) + OneOf(copy);
    return Ok((Some(text.value.1), copy)), lost;
  }

  method ReadEntry(heap: Heap, c: Codec, wide: bool, buf: bytes, pos: nat, g: Geometry, ghost mem0: Memory, ghost blocks: multiset<nat>)
    returns (r: Result<(FileHeader, Option<nat>)>, ghost lost: Option<nat>)
    requires heap.Valid() && g.v4 && Staged(mem0, heap.mem, blocks)
    modifies heap
    ensures heap.Valid() && (heap.isDefault ==> lost.None?)
    ensures r.Err? ==> heap.RanOut(r.error) || ParseEntry(c, wide, buf, pos, g) == Err(r.error)
    ensures r.Err? ==> Staged(mem0, heap.mem, blocks + OneOf(lost))
    ensures r.Ok? ==> ParseEntry(c, wide, buf, pos, g) == Ok(r.value.0) && (r.value.1.Some? <==> r.value.0.name.Some?)
    ensures r.Ok? ==> Staged(mem0, heap.mem, blocks + OneOf(lost) + OneOf(r.value.1))
    ensures r.Ok? && !heap.isDefault ==> (lost.Some? <==> r.value.0.name.Some?)
  {
    hide Staged, Holds, Without, OneOf, ParseEntry, ParseFront, GetEntryName, GetTailId, NameAt, TailAt;
    EntrySplits(c, wide, buf, pos, g);
    NoBlockMore(blocks);
    var front := ParseFront(buf, pos, g);
    if front.Err? {
      return Err(front.error), None;
    }
    var name;
    name, lost := ReadName(heap, c, wide, buf, pos + NameAt(g), g, mem0, blocks);
    if name.Err? {
      return Err(name.error), lost;
    }
    var id := GetTailId(buf, pos + TailAt(g), g, front.value.id);
    if id.Err? {
      assert blocks + OneOf(lost) + OneOf(name.value.1) == OneOf(name.value.1) + (blocks + OneOf(lost));
      Unstage(mem0, heap.mem, OneOf(name.value.1), blocks + OneOf(lost));
      IsLive(name.value.1, heap.mem);
      heap.Free(name.value.1);
      return Err(id.error), lost;
    }
    return Ok((front.value.(name := name.value.0, id := id.value), name.value.1)), lost;
  }

  lemma NoBlockMore(blocks: multiset<nat>)
    ensures blocks + OneOf(None) == blocks
  {
  }

  // ------------------------------------------------------------------ the header records

  /** The blocks of parsed headers: the version, the array of headers, and the names. */
  datatype Parsed = Parsed(version: nat, records: Option<nat>, names: seq<Option<nat>>, headers: seq<FileHeader>)

  function HeaderBlocks(p: Parsed): multiset<nat> {
    OneOf(p.records) + Sum(p.names)
  }

  function ParsedBlocks(p: Parsed): multiset<nat> {
    OneOf(Some(p.version)) + HeaderBlocks(p)
  }

  method FreeHeaders(heap: Heap, p: Parsed)
    requires heap.Valid() && Holds(HeaderBlocks(p), heap.mem)
    modifies heap
    ensures heap.Valid() && heap.mem == Without(old(heap.mem), HeaderBlocks(p))
  {
    hide Holds, Without, OneOf;
    ghost var mem0 := heap.mem;
    assert HeaderBlocks(p) == Sum(p.names) + OneOf(p.records);
    FreeKeepsRest(mem0, Sum(p.names), OneOf(p.records));
    FreeAll(heap, p.names);
    IsLive(p.records, heap.mem);
    heap.Free(p.records);
    FreeTwice(mem0, Sum(p.names), OneOf(p.records));
  }

  /** Gives everything back that can be given back. */
  method FreeParsed(heap: Heap, p: Parsed, ghost mem0: Memory, ghost lost: multiset<nat>)
    requires heap.Valid() && Staged(mem0, heap.mem, ParsedBlocks(p) + lost)
    modifies heap
    ensures heap.Valid() && Staged(mem0, heap.mem, lost)
  {
    hide Staged, Holds, Without, OneOf, HeaderBlocks;
    ghost var version := OneOf(Some(p.version));
    assert ParsedBlocks(p) + lost == HeaderBlocks(p) + (version + lost);
    Unstage(mem0, heap.mem, HeaderBlocks(p), version + lost);
    FreeHeaders(heap, p);
    Unstage(mem0, heap.mem, version, lost);
    IsLive(Some(p.version), heap.mem);
    heap.Free(Some(p.version));
  }

  /** How many of these have a name. */
  function Named(hs: seq<FileHeader>, k: nat): nat
    requires k <= |hs|
  {
    if k == 0 then 0 else Named(hs, k - 1) + if hs[k - 1].name.Some? then 1 else 0
  }

  lemma NoneNamed(hs: seq<FileHeader>)
    ensures Named(hs, 0) == 0
  {
  }

  /** What went to the wrong allocator: nothing if it was the right one, otherwise a block for every name. */
  ghost predicate LostFor(heap: Heap, lost: multiset<nat>, names: nat) {
    |lost| == if heap.isDefault then 0 else names
  }

  /** Head and entries, with a block for the version, one for the array and one per name. */
  method ReadHeaders(heap: Heap, env: Env, buf: bytes) returns (r: Result<(Header, Parsed)>, ghost lost: multiset<nat>)
    requires heap.Valid()
    modifies heap
    ensures heap.Valid() && (heap.isDefault ==> lost == multiset{})
    ensures r.Err? ==> Staged(old(heap.mem), heap.mem, lost)
    ensures r.Err? ==>
      heap.RanOut(r.error) || (var h :- ParseHeader(env, buf); EntriesOf(env, buf, h, h.sizes.count)) == Err(r.error)
    ensures r.Ok? ==>
      var (h, p) := r.value;
      && ParseHeader(env, buf) == Ok(h) && EntriesOf(env, buf, h, h.sizes.count) == Ok(p.headers) && |p.headers| == h.sizes.count
      && Staged(old(heap.mem), heap.mem, ParsedBlocks(p) + lost) && LostFor(heap, lost, Named(p.headers, |p.headers|))
  {
    hide Staged, Holds, Without, OneOf, ParseHeader, ParsedBlocks, EntriesOf, Named;
    ghost var mem0 := heap.mem;
    lost := multiset{};
    NothingStaged(mem0);
    var head := ReadHead(heap, env, buf);
    if head.Err? {
      return Err(head.error), lost;
    }
    var (h, v) := head.value;
    StageMore(mem0, mem0, multiset{}, v, h.sizes.version + [0]);
    var p := Parsed(v, None, [], []);
    JustVersion(v);
    if h.sizes.count > 0 {
      ghost var mem1 := heap.mem;
      var a := heap.Alloc([]);
      if a.None? {
        FreeParsed(heap, p, mem0, lost);
        return Err(OutOfMemory), lost;
      }
      StageMore(mem0, mem1, ParsedBlocks(p) + lost, a.value, []);
      WithRecords(p, a.value);
      p := p.(records := a);
    }
    var entries;
    entries, lost := ReadEntries(heap, env, buf, h, p, mem0);
    return match entries case Ok(q) => Ok((h, q)) case Err(e) => Err(e), lost;
  }

  /** The entries one after the other; on failure those already read are freed, together with `empty`. */
  method ReadEntries(heap: Heap, env: Env, buf: bytes, h: Header, empty: Parsed, ghost mem0: Memory)
    returns (r: Result<Parsed>, ghost lost: multiset<nat>)
    requires heap.Valid() && h.sizes.count >= 0 && empty.names == [] && empty.headers == []
    requires Staged(mem0, heap.mem, ParsedBlocks(empty) + multiset{})
    modifies heap
    ensures heap.Valid() && (heap.isDefault ==> lost == multiset{})
    ensures r.Err? ==> Staged(mem0, heap.mem, lost)
    ensures r.Err? ==> heap.RanOut(r.error) || EntriesOf(env, buf, h, h.sizes.count) == Err(r.error)
    ensures r.Ok? ==>
      var p := r.value;
      && EntriesOf(env, buf, h, h.sizes.count) == Ok(p.headers) && |p.headers| == h.sizes.count
      && Staged(mem0, heap.mem, ParsedBlocks(p) + lost) && LostFor(heap, lost, Named(p.headers, |p.headers|))
  {
    hide Staged, Holds, Without, OneOf, ParsedBlocks, EntriesOf, Named, ParseEntry, EntryPos;
    var p := empty;
    lost := multiset{};
    NoEntriesYet(env, buf, h);
    NoneNamed(p.headers);
    for i := 0 to h.sizes.count
      invariant heap.Valid() && Staged(mem0, heap.mem, ParsedBlocks(p) + lost)
      invariant EntriesOf(env, buf, h, i) == Ok(p.headers) && |p.headers| == i
      invariant (heap.isDefault ==> lost == multiset{}) && LostFor(heap, lost, Named(p.headers, i))
    {
      NextEntry(env, buf, h, i);
      var e; ghost var gone;
      e, gone := ReadEntry(heap, EntryCodec(env, h), h.shape.unicode, buf, EntryPos(GeoOf(h), HEAD_SIZE, i), GeoOf(h), mem0, ParsedBlocks(p) + lost);
      OneLost(lost, gone);
      if e.Err? {
        assert ParsedBlocks(p) + lost + OneOf(gone) == ParsedBlocks(p) + (lost + OneOf(gone));
        lost := lost + OneOf(gone);
        FreeParsed(heap, p, mem0, lost);
        return Err(e.error), lost;
      }
      WithEntry(p, e.value.0, e.value.1, lost, OneOf(gone));
      p := p.(names := p.names + [e.value.1], headers := p.headers + [e.value.0]);
      lost := lost + OneOf(gone);
    }
    return Ok(p), lost;
  }

  lemma JustVersion(v: nat)
    ensures ParsedBlocks(Parsed(v, None, [], [])) + multiset{} == multiset{} + multiset{v}
  {
  }

  lemma WithRecords(p: Parsed, a: nat)
    requires p.records.None?
    ensures ParsedBlocks(p.(records := Some(a))) + multiset{} == ParsedBlocks(p) + multiset{} + multiset{a}
  {
  }

  lemma OneLost(lost: multiset<nat>, gone: Option<nat>)
    ensures |lost + OneOf(gone)| == |lost| + if gone.Some? then 1 else 0
    ensures gone.None? ==> lost + OneOf(gone) == lost
  {
  }

  /** One entry more. */
  lemma WithEntry(p: Parsed, x: FileHeader, name: Option<nat>, lost: multiset<nat>, gone: multiset<nat>)
    ensures var q := p.(names := p.names + [name], headers := p.headers + [x]);
      && ParsedBlocks(p) + lost + gone + OneOf(name) == ParsedBlocks(q) + (lost + gone)
      && Named(q.headers, |p.headers| + 1) == Named(p.headers, |p.headers|) + if x.name.Some? then 1 else 0
  {
    SumAppend(p.names, name);
    NamedPrefix(p.headers, [x], |p.headers|);
  }

  lemma {:induction false} NamedPrefix(hs: seq<FileHeader>, more: seq<FileHeader>, k: nat)
    requires k <= |hs|
    ensures Named(hs + more, k) == Named(hs, k)
  {
    if k > 0 {
      NamedPrefix(hs, more, k - 1);
    }
  }

  lemma NoEntriesYet(env: Env, buf: bytes, h: Header)
    ensures EntriesOf(env, buf, h, 0) == Ok([])
  {
  }

  lemma NextEntry(env: Env, buf: bytes, h: Header, i: nat)
    requires EntriesOf(env, buf, h, i).Ok? && i < h.sizes.count
    ensures var e := ParseEntry(EntryCodec(env, h), h.shape.unicode, buf, EntryPos(GeoOf(h), HEAD_SIZE, i), GeoOf(h));
      if e.Err? then EntriesOf(env, buf, h, h.sizes.count) == Err(e.error)
      else EntriesOf(env, buf, h, i + 1) == Ok(EntriesOf(env, buf, h, i).value + [e.value])
  {
    hide ParseEntry, EntryPos;
    if EntriesOf(env, buf, h, i + 1).Err? {
      FailsEarly(EntryCodec(env, h), h.shape.unicode, buf, GeoOf(h), HEAD_SIZE, i + 1, h.sizes.count);
    }
  }
}
