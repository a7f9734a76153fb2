/** Reading an archive into an object, allocation by allocation: when any of them fails, or the bytes
    are wrong, everything taken so far is given back, except names that went to the wrong allocator. */
module Bnd4Load {
  import opened Bytes
  import opened Reading
  import opened Texts
  import opened Format
  import opened Binder
  import opened BinderReading
  import opened Allocation
  import opened Bnd4
  import opened Bnd4Reading
  import opened Bnd4Object
  import opened Bnd4Heads

  // ------------------------------------------------------------------ payloads

  /** Fetches one payload into a block of its own, which is empty-handed for nothing. */
  method ReadBlock(heap: Heap, env: Env, buf: bytes, x: FileHeader) returns (r: Result<(Option<nat>, bytes, Info)>)
    requires heap.Valid()
    modifies heap
    ensures heap.Valid()
    ensures r.Err? ==> heap.mem == old(heap.mem) && (heap.RanOut(r.error) || ExtractData(env, buf, x) == Err(r.error))
    ensures r.Ok? ==> ExtractData(env, buf, x) == Ok((r.value.1, r.value.2))
    ensures r.Ok? ==>
      if r.value.0.None? then r.value.1 == [] && heap.mem == old(heap.mem)
      else r.value.0.value !in old(heap.mem) && heap.mem == old(heap.mem)[r.value.0.value := r.value.1]
  {
    hide Without, OneOf, Holding;
    ghost var mem0 := heap.mem;
    var raw: Option<nat> := None;
    var content: bytes := [];
    NotHolding(mem0);
    if x.compressed > 0 {
      raw := heap.Alloc([]);
      if raw.None? {
        return Err(OutOfMemory);
      }
      NowHolding(mem0, raw.value, []);
      Released(mem0, heap.mem, raw, []);
      var got := GetAt(buf, x.dataPos, x.compressed);
      if got.Err? {
        heap.Free(raw);
        return Err(got.error);
      }
      Rewritten(mem0, heap.mem, raw, [], got.value);
      heap.Store(raw.value, got.value);
      content := got.value;
      StillHolding(mem0, heap.mem, raw, content);
    }
    Released(mem0, heap.mem, raw, content);
    if !IsCompressed(x.flags) {
      return Ok((raw, content, ZLIB));
    }
    var decoded := env.decompress(content);
    if decoded.Err? {
      heap.Free(raw);
      return Err(decoded.error);
    }
    ghost var mem1 := heap.mem;
    var block := heap.Alloc(decoded.value.0);
    if block.Some? {
      ReleasedUnder(mem0, mem1, raw, content, block.value, decoded.value.0);
    }
    heap.Free(raw);
    if block.None? {
      return Err(OutOfMemory);
    }
    return Ok((block, decoded.value.0, decoded.value.1));
  }

  // ------------------------------------------------------------------ the name pool

  /** The names of the first `k` files, each with its terminator. */
  function PoolBytes(hs: seq<FileHeader>, k: nat): bytes
    requires k <= |hs|
  {
    if k == 0 then []
    else PoolBytes(hs, k - 1) + if hs[k - 1].name.None? then [] else hs[k - 1].name.value + [0]
  }

  lemma {:induction false} PoolGrows(hs: seq<FileHeader>, i: nat, k: nat)
    requires i <= k <= |hs|
    ensures |PoolBytes(hs, i)| <= |PoolBytes(hs, k)| && PoolBytes(hs, k)[..|PoolBytes(hs, i)|] == PoolBytes(hs, i)
    decreases k
  {
    if i < k {
      PoolGrows(hs, i, k - 1);
      var s, t := PoolBytes(hs, k - 1), PoolBytes(hs, k);
      assert t[..|PoolBytes(hs, i)|] == s[..|PoolBytes(hs, i)|];
    } else {
      assert PoolBytes(hs, k)[..|PoolBytes(hs, k)|] == PoolBytes(hs, k);
    }
  }

  /** At its offset in the pool a name reads back. */
  lemma PooledName(hs: seq<FileHeader>, i: nat)
    requires i < |hs| && hs[i].name.Some? && NoNul(hs[i].name)
    ensures |PoolBytes(hs, i)| < |PoolBytes(hs, |hs|)|
    ensures CString(PoolBytes(hs, |hs|), |PoolBytes(hs, i)|) == hs[i].name.value
  {
    var s, at, name, front := PoolBytes(hs, |hs|), |PoolBytes(hs, i)|, hs[i].name.value, PoolBytes(hs, i + 1);
    PoolGrows(hs, i + 1, |hs|);
    AtWhole(front);
    AtSplit(front, 0, PoolBytes(hs, i), name + [0]);
    assert s[0..|front|] == front;
    AtTrans(s, 0, front, at, name + [0]);
    PlacedText(s, at, name, false);
  }

  // ------------------------------------------------------------------ the whole read

  /** Decoded names are C strings. */
  ghost predicate DecodesText(c: Codec) {
    forall s :: c.decode(s).Ok? ==> Unterminated(c.decode(s).value, false)
  }

  lemma {:induction false} NamesAreText(c: Codec, wide: bool, buf: bytes, g: Geometry, base: nat, n: nat)
    requires DecodesText(c)
    ensures var r := ParseEntries(c, wide, buf, g, base, n);
      r.Ok? ==> forall i :: 0 <= i < n ==> NoNul(r.value[i].name)
  {
    hide GetEntryFlags, GetUInt, GetSizeIf, GetOffset, GetId, GetTailId, EntryPos, Terminated, Unterminated, DecodesText;
    if n > 0 {
      NamesAreText(c, wide, buf, g, base, n - 1);
      EntryNameIsText(c, wide, buf, EntryPos(g, base, n - 1), g);
    }
  }

  lemma EntryNameIsText(c: Codec, wide: bool, buf: bytes, pos: nat, g: Geometry)
    requires DecodesText(c)
    ensures var r := ParseEntry(c, wide, buf, pos, g); r.Ok? ==> NoNul(r.value.name)
  {
    hide GetEntryFlags, GetUInt, GetSizeIf, GetOffset, GetId, GetTailId, Terminated, Unterminated;
  }

  /** Where the name of file `i` lies in the pool. */
  function PoolPtr(hs: seq<FileHeader>, i: nat, pool: Option<nat>): Option<Ptr>
    requires i < |hs|
  {
    if hs[i].name.None? || pool.None? then None else Some(Ptr(pool.value, |PoolBytes(hs, i)|))
  }

  /** An object as it is made, before anything is read into it. */
  ghost predicate Blank(b: Object)
    reads b, b.files, b.heap
  {
    b.Valid() && b.count == 0 && b.filesBlock.None? && b.pool == Pool(None, 0)
  }

  /** The object stays valid, and the headers' blocks are the only ones added to other people's. */
  ghost predicate Loading(b: Object, others: Memory, blocks: multiset<nat>)
    reads b, b.files, b.heap
  {
    b.Valid() && Staged(others, b.Others(), blocks)
  }

  /** Frees what the parsed headers held, behind the object's back. */
  method DropHeaders(b: Object, p: Parsed, ghost others: Memory, ghost lost: multiset<nat>)
    requires Loading(b, others, HeaderBlocks(p) + lost)
    modifies b.heap
    ensures Loading(b, others, lost) && b.Contents() == old(b.Contents())
  {
    hide Holds, Without, HeaderBlocks, Base, Blocks, FilesOf, OneOf, Keeps;
    ghost var mem0 := b.heap.mem;
    Unstage(others, b.Others(), HeaderBlocks(p), lost);
    OthersFreed(mem0, b.Owned(), HeaderBlocks(p));
    FreeHeaders(b.heap, p);
    KeptOwned(b.Owned(), mem0, b.heap.mem);
    OwnedKept(OneOf(b.filesBlock), b.self, b.pool, b.version, b.Entries(), mem0, b.heap.mem);
  }

  lemma EmptyPlus(x: multiset<nat>)
    ensures x + multiset{} == x
  {
  }

  lemma KeptOwned(owned: multiset<nat>, mem: Memory, mem': Memory)
    requires forall b :: b in owned ==> b in mem && b in mem' && mem[b] == mem'[b]
    ensures Keeps(owned, mem, mem')
  {
  }

  // ------------------------------------------------------------------ filling the object

  /** Replaces the version by one whose block has just been made. */
  method SetVersion(b: Object, v: nat)
    requires Blank(b) && v in b.Others()
    modifies b`version, b.heap
    ensures Blank(b) && b.Others() == Without(old(b.Others()), OneOf(Some(v)))
  {
    hide Holds, Without, Keeps;
    ghost var mem0, before := b.heap.mem, OneOf(b.version);
    ghost var rest := OneOf(b.filesBlock) + (multiset{b.self} + OneOf(b.pool.block) + Blocks(b.Entries(), b.pool));
    ghost var owned := OneOf(Some(v)) + rest;
    assert b.Owned() == before + rest;
    Joined(mem0, before + rest, v);
    assert before + rest + multiset{v} == before + owned;
    FreeKeepsRest(mem0, before, owned);
    IsLive(b.version, mem0);
    b.heap.Free(b.version);
    b.version := Some(v);
    assert b.Owned() == owned;
  }

  lemma Joined(mem: Memory, owned: multiset<nat>, v: nat)
    requires Holds(owned, mem) && v in Without(mem, owned)
    ensures Holds(owned + multiset{v}, mem) && Without(mem, owned + multiset{v}) == Without(Without(mem, owned), OneOf(Some(v)))
  {
    TakeOver(mem, owned, v);
  }

  /** The pool holds all names, and every slot of the array points to its own. */
  ghost predicate Pooling(b: Object, hs: seq<FileHeader>)
    reads b, b.files, b.heap
  {
    && b.files.Length == |hs|
    && (if PoolBytes(hs, |hs|) == [] then b.pool == Pool(None, 0)
        else b.pool.block.Some? && b.pool.size == |PoolBytes(hs, |hs|)|
             && b.pool.block.value in b.heap.mem && b.heap.mem[b.pool.block.value] == PoolBytes(hs, |hs|))
    && forall i :: b.count <= i < |hs| ==> b.files[i].name == PoolPtr(hs, i, b.pool.block)
  }

  /** Takes a new block into the object's own. */
  lemma NewBlock(mem: Memory, owned: multiset<nat>, b: nat, content: bytes)
    requires Holds(owned, mem) && b !in mem
    ensures Holds(OneOf(Some(b)) + owned, mem[b := content])
    ensures Without(mem[b := content], OneOf(Some(b)) + owned) == Without(mem, owned)
  {
    AllocKeepsRest(mem, owned, b, content);
    assert owned + multiset{b} == OneOf(Some(b)) + owned;
  }

  method NewArray(n: nat, names: seq<Option<Ptr>>) returns (files: array<Entry>)
    requires |names| == n
    ensures fresh(files) && files.Length == n && forall i :: 0 <= i < n ==> files[i].name == names[i]
  {
    files := new Entry[n](_ => BLANK);
    for i := 0 to n
      invariant forall j :: 0 <= j < i ==> files[j].name == names[j]
    {
      files[i] := BLANK.(name := names[i]);
    }
  }

  function PoolPtrs(hs: seq<FileHeader>, pool: Option<nat>): (ps: seq<Option<Ptr>>)
    ensures |ps| == |hs| && forall i :: 0 <= i < |ps| ==> ps[i] == PoolPtr(hs, i, pool)
  {
    seq(|hs|, i requires 0 <= i < |hs| => PoolPtr(hs, i, pool))
  }

  /** The array, and the pool with all names in it. */
  method Prepare(b: Object, hs: seq<FileHeader>) returns (r: Result<()>)
    requires Blank(b)
    modifies b`files, b`filesBlock, b`pool, b.heap
    ensures b.count == 0
    ensures r.Err? ==> b.heap.RanOut(r.error)
    ensures r.Err? ==> Blank(b) && b.Others() == old(b.Others()) && b.files == old(b.files)
    ensures r.Ok? ==> fresh(b.files) && Halfway(b, hs, old(b.Others()))
  {
    hide Holds, Without, PoolBytes, Base, Blocks, OneOf, Halfway, FilesOf;
    ghost var mem0, owned := b.heap.mem, b.Owned();
    assert b.Entries() == [];
    var q := b.heap.Alloc([]);
    if q.None? {
      return Err(OutOfMemory);
    }
    NewBlock(mem0, owned, q.value, []);
    PreparedOwned(b.self, b.version, q, None, 0);
    var content := PoolBytes(hs, |hs|);
    if content == [] {
      Install(b, hs, q, Pool(None, 0));
      return Ok(());
    }
    ghost var mem1 := b.heap.mem;
    var p := b.heap.Alloc(content);
    if p.None? {
      FirstIsLive(q, owned, mem1);
      b.heap.Free(q);
      FreeKeepsRest(mem1, OneOf(q), owned);
      return Err(OutOfMemory);
    }
    NewBlock(mem1, OneOf(q) + owned, p.value, content);
    PreparedOwned(b.self, b.version, q, p, |content|);
    Install(b, hs, q, Pool(p, |content|));
    return Ok(());
  }

  /** Gives the object its array and its pool, whose blocks have just been made. */
  method Install(b: Object, hs: seq<FileHeader>, q: Option<nat>, pool: Pool)
    requires b.heap.Valid() && b.count == 0 && q.Some?
    requires Holds(OneOf(q) + (Base(b.self, pool, b.version) + Blocks([], pool)), b.heap.mem)
    requires if PoolBytes(hs, |hs|) == [] then pool == Pool(None, 0)
             else pool.block.Some? && pool.size == |PoolBytes(hs, |hs|)|
                  && pool.block.value in b.heap.mem && b.heap.mem[pool.block.value] == PoolBytes(hs, |hs|)
    modifies b`files, b`filesBlock, b`pool
    ensures b.count == 0 && fresh(b.files)
    ensures Halfway(b, hs, Without(b.heap.mem, OneOf(q) + (Base(b.self, pool, b.version) + Blocks([], pool))))
  {
    hide Holds, Without, PoolBytes, Base, Blocks, OneOf;
    b.files := NewArray(|hs|, PoolPtrs(hs, pool.block));
    b.filesBlock := q;
    b.pool := pool;
    assert b.Entries() == [];
  }

  /** What an object without files owns, before and after array and pool are made. */
  lemma PreparedOwned(self: nat, version: Option<nat>, q: Option<nat>, p: Option<nat>, size: nat)
    ensures var owned := OneOf(None) + (Base(self, Pool(None, 0), version) + Blocks([], Pool(None, 0)));
      var after := OneOf(q) + (Base(self, Pool(p, size), version) + Blocks([], Pool(p, size)));
      after == (if p.None? then OneOf(q) + owned else OneOf(p) + (OneOf(q) + owned))
  {
  }

  /** The slot of file `i` gets its payload; the name is in the pool already. */
  method FillSlot(b: Object, hs: seq<FileHeader>, block: Option<nat>, content: bytes, info: Info)
    requires b.Valid() && Pooling(b, hs) && b.count < |hs|
    requires block.Some? ==> block.value in b.Others() && b.Others()[block.value] == content
    requires block.None? ==> content == []
    requires NoNul(hs[b.count].name)
    modifies b`count, b.files
    ensures b.Valid() && b.count == old(b.count) + 1 && Pooling(b, hs) && b.Others() == Without(old(b.Others()), OneOf(block))
    ensures var x := hs[old(b.count)];
      b.Contents() == old(b.Contents()) + [BinderFile(x.id, x.name, content, x.flags, info)]
  {
    hide Holds, Without, PoolBytes, Base, Blocks, FilesOf;
    var x, i := hs[b.count], b.count;
    ghost var mem := b.heap.mem;
    InRest(mem, b.Owned(), block);
    var e := Entry(x.id, x.flags, info, |content|, b.files[b.count].name, block);
    SlotBlocks(b, hs, e);
    TakenBlock(mem, b.Owned(), block);
    b.Append(e, b.Owned() + OneOf(block));
  }

  lemma TakenBlock(mem: Memory, owned: multiset<nat>, block: Option<nat>)
    requires Holds(owned, mem) && (block.Some? ==> block.value in Without(mem, owned))
    ensures Holds(owned + OneOf(block), mem) && Without(mem, owned + OneOf(block)) == Without(Without(mem, owned), OneOf(block))
  {
    if block.Some? {
      Joined(mem, owned, block.value);
    } else {
      EmptyPlus(owned);
    }
  }

  lemma SlotBlocks(b: Object, hs: seq<FileHeader>, e: Entry)
    requires b.count < |hs| && Pooling(b, hs) && e.name == b.files[b.count].name && NoNul(hs[b.count].name)
    ensures EntryBlocks(e, b.pool) == OneOf(e.data)
    ensures NameOf(e, b.heap.mem) == hs[b.count].name
  {
    hide PoolBytes, OneOf, CString;
    var i := b.count;
    if hs[i].name.Some? {
      PooledName(hs, i);
    }
    JustData(e.data);
  }

  lemma JustData(p: Option<nat>)
    ensures OneOf(None) + OneOf(p) == OneOf(p)
  {
  }

  // ------------------------------------------------------------------ the read, end to end

  /** Somebody else's allocation is nothing to the object. */
  lemma OtherAlloc(mem: Memory, owned: multiset<nat>, p: nat, content: bytes)
    requires Holds(owned, mem) && p !in mem
    ensures Holds(owned, mem[p := content]) && Without(mem[p := content], owned) == Without(mem, owned)[p := content]
    ensures Keeps(owned, mem, mem[p := content])
  {
  }

  lemma PutBack(mem: Memory, p: nat, content: bytes)
    requires p !in mem
    ensures Without(mem[p := content], OneOf(Some(p))) == mem
  {
  }

  /** Between two files of a read. */
  ghost predicate Halfway(b: Object, hs: seq<FileHeader>, others: Memory)
    reads b, b.files, b.heap
  {
    b.Valid() && b.Others() == others && Pooling(b, hs)
  }

  lemma HalfwayIsValid(b: Object, hs: seq<FileHeader>, others: Memory)
    requires Halfway(b, hs, others)
    ensures b.Valid() && b.Others() == others && b.files.Length == |hs|
  {
    hide Holds, Without, Base, Blocks, PoolBytes;
  }

  /** One file: its payload is fetched into a block of its own and goes into the next slot. */
  method LoadOne(b: Object, env: Env, buf: bytes, hs: seq<FileHeader>, ghost others: Memory) returns (r: Result<()>)
    requires b.count <= b.files.Length && b.count < |hs| && NoNul(hs[b.count].name) && Halfway(b, hs, others)
    modifies b`count, b.files, b.heap
    ensures b.count <= b.files.Length && Halfway(b, hs, others)
    ensures r.Err? ==> b.count == old(b.count) && (b.heap.RanOut(r.error) || ExtractData(env, buf, hs[old(b.count)]) == Err(r.error))
    ensures r.Ok? ==> b.count == old(b.count) + 1 && ExtractData(env, buf, hs[old(b.count)]).Ok?
    ensures r.Ok? ==>
      var x := hs[old(b.count)];
      var d := ExtractData(env, buf, x).value;
      b.Contents() == old(b.Contents()) + [BinderFile(x.id, x.name, d.0, x.flags, d.1)]
  {
    hide Holds, Without, Base, Blocks, FilesOf, PoolBytes, ExtractData, Keeps;
    ghost var mem0, owned := b.heap.mem, b.Owned();
    var got :- ReadBlock(b.heap, env, buf, hs[b.count]);
    if got.0.Some? {
      OtherAlloc(mem0, owned, got.0.value, got.1);
      OwnedKept(OneOf(b.filesBlock), b.self, b.pool, b.version, b.Entries(), mem0, b.heap.mem);
      PutBack(Without(mem0, owned), got.0.value, got.1);
      NotThere(mem0, owned, got.0.value);
    } else {
      NoBlock();
      EmptyRest(Without(mem0, owned));
    }
    FillSlot(b, hs, got.0, got.1, got.2);
    return Ok(());
  }

  lemma NotThere(mem: Memory, owned: multiset<nat>, p: nat)
    requires p !in mem
    ensures p !in Without(mem, owned)
  {
  }

  lemma NextFile(env: Env, buf: bytes, hs: seq<FileHeader>, i: nat)
    requires i < |hs| && ExtractAll(env, buf, hs, i).Ok?
    ensures var d := ExtractData(env, buf, hs[i]);
      && (d.Err? ==> ExtractAll(env, buf, hs, |hs|) == Err(d.error))
      && (d.Ok? ==>
            ExtractAll(env, buf, hs, i + 1)
            == Ok(ExtractAll(env, buf, hs, i).value + [BinderFile(hs[i].id, hs[i].name, d.value.0, hs[i].flags, d.value.1)]))
  {
    hide ExtractData;
    if ExtractAll(env, buf, hs, i + 1).Err? {
      ExtractFailsEarly(env, buf, hs, i + 1, |hs|);
    }
  }

  lemma NoFilesYet(env: Env, buf: bytes, hs: seq<FileHeader>)
    ensures ExtractAll(env, buf, hs, 0) == Ok([])
  {
  }

  /** All payloads, one after the other. */
  method LoadAll(b: Object, env: Env, buf: bytes, hs: seq<FileHeader>, ghost others: Memory) returns (r: Result<()>)
    requires b.count == 0 && Halfway(b, hs, others) && forall i :: 0 <= i < |hs| ==> NoNul(hs[i].name)
    modifies b`count, b.files, b.heap
    ensures b.count <= b.files.Length && Halfway(b, hs, others)
    ensures r.Err? ==> b.heap.RanOut(r.error) || ExtractAll(env, buf, hs, |hs|) == Err(r.error)
    ensures r.Ok? ==> ExtractAll(env, buf, hs, |hs|) == Ok(b.Contents())
  {
    hide Base, Blocks, Holds, Without, ExtractData, PoolBytes, NoNul, Halfway, ExtractAll, FilesOf;
    NoFilesYet(env, buf, hs);
    NoContents(b);
    for i := 0 to |hs|
      invariant b.count == i <= b.files.Length && Halfway(b, hs, others)
      invariant ExtractAll(env, buf, hs, i) == Ok(b.Contents())
    {
      NextFile(env, buf, hs, i);
      var _ :- LoadOne(b, env, buf, hs, others);
    }
    return Ok(());
  }

  /** Array, pool and payloads; when anything fails the object is empty again. */
  method LoadFiles(b: Object, env: Env, buf: bytes, hs: seq<FileHeader>) returns (r: Result<()>)
    requires Blank(b) && forall i :: 0 <= i < |hs| ==> NoNul(hs[i].name)
    modifies b`files, b`filesBlock, b`count, b`pool, b.heap
    ensures b.Valid() && b.Others() == old(b.Others())
    ensures b.files == old(b.files) || fresh(b.files)
    ensures r.Err? ==> b.Contents() == [] && (b.heap.RanOut(r.error) || ExtractAll(env, buf, hs, |hs|) == Err(r.error))
    ensures r.Ok? ==> ExtractAll(env, buf, hs, |hs|) == Ok(b.Contents())
  {
    hide Base, Blocks, Holds, Without, ExtractData, PoolBytes, NoNul, Halfway, ExtractAll, FilesOf;
    NoContents(b);
    if |hs| == 0 {
      NoFilesYet(env, buf, hs);
      return Ok(());
    }
    ghost var others := b.Others();
    var ready := Prepare(b, hs);
    if ready.Err? {
      NoContents(b);
      return ready;
    }
    r := LoadAll(b, env, buf, hs, others);
    HalfwayIsValid(b, hs, others);
    if r.Err? {
      b.Clear();
    }
  }

  lemma NoContents(b: Object)
    requires b.count == 0
    ensures b.Contents() == []
  {
  }

  lemma ParseSteps(env: Env, buf: bytes)
    ensures ParseArchive(env, buf)
         == var h :- ParseHeader(env, buf);
            var hs :- EntriesOf(env, buf, h, h.sizes.count);
            var files :- ExtractAll(env, buf, hs, h.sizes.count);
            Ok(ArchiveOf(h, files))
  {
    hide ParseHeader, ParseEntries, ExtractAll;
  }

  /** The blocks that a read loses: none under the default allocator, otherwise one for every name. */
  ghost predicate NamesLost(heap: Heap, lost: multiset<nat>, files: seq<BinderFile>) {
    LostFor(heap, lost, NamedFiles(files, |files|))
  }

  function NamedFiles(files: seq<BinderFile>, k: nat): nat
    requires k <= |files|
  {
    if k == 0 then 0 else NamedFiles(files, k - 1) + if files[k - 1].name.Some? then 1 else 0
  }

  lemma {:induction false} NoneNamedFiles(files: seq<BinderFile>, k: nat)
    requires k <= |files|
    ensures NamedFiles(files, k) == 0 <==> forall i :: 0 <= i < k ==> files[i].name.None?
  {
    if k > 0 {
      NoneNamedFiles(files, k - 1);
    }
  }

  lemma {:induction false} SameNames(env: Env, buf: bytes, hs: seq<FileHeader>, k: nat)
    requires k <= |hs| && ExtractAll(env, buf, hs, k).Ok?
    ensures NamedFiles(ExtractAll(env, buf, hs, k).value, k) == Named(hs, k)
  {
    hide ExtractData;
    if k > 0 {
      SameNames(env, buf, hs, k - 1);
      var init, fs := ExtractAll(env, buf, hs, k - 1).value, ExtractAll(env, buf, hs, k).value;
      NamesPrefix(init, [fs[k - 1]], k - 1);
    }
  }

  lemma {:induction false} NamesPrefix(fs: seq<BinderFile>, more: seq<BinderFile>, k: nat)
    requires k <= |fs|
    ensures NamedFiles(fs + more, k) == NamedFiles(fs, k)
  {
    if k > 0 {
      NamesPrefix(fs, more, k - 1);
    }
  }

  /** Reads an archive into an empty object. It ends up with exactly the files of the archive, or with
      none; nobody else's memory is touched, and nothing is left behind but the blocks that are lost. */
  method Load(b: Object, env: Env, buf: bytes) returns (r: Result<()>, ghost lost: multiset<nat>)
    requires Blank(b) && DecodesText(env.sjis) && DecodesText(env.utf16le) && DecodesText(env.utf16be)
    modifies b`files, b`filesBlock, b`count, b`pool, b`version, b.heap
    ensures b.Valid() && Staged(old(b.Others()), b.Others(), lost) && (b.heap.isDefault ==> lost == multiset{})
    ensures b.files == old(b.files) || fresh(b.files)
    ensures r.Err? ==> b.Contents() == [] && (b.heap.RanOut(r.error) || ParseArchive(env, buf) == Err(r.error))
    ensures r.Ok? ==> ParseArchive(env, buf).Ok? && ParseArchive(env, buf).value.files == b.Contents()
    ensures r.Ok? ==> NamesLost(b.heap, lost, b.Contents())
  {
    hide Base, Blocks, Holds, Without, ExtractData, ParseHeader, EntriesOf, ExtractAll, PoolBytes, NoNul, DecodesText, Staged, HeaderBlocks,
      ParsedBlocks, OneOf, ParseArchive, Named, NamedFiles;
    ParseSteps(env, buf);
    NoContents(b);
    ghost var mem0, owned, others := b.heap.mem, b.Owned(), b.Others();
    var head;
    head, lost := ReadHeaders(b.heap, env, buf);
    if head.Err? {
      StagedIsOther(mem0, b.heap.mem, lost, owned);
      return Err(head.error), lost;
    }
    var (h, p) := head.value;
    HeadersAreText(env, buf, h);
    StagedIsOther(mem0, b.heap.mem, ParsedBlocks(p) + lost, owned);
    VersionApart(p, others, b.Others(), lost);
    SetVersion(b, p.version);
    r := LoadFiles(b, env, buf, p.headers);
    DropHeaders(b, p, others, lost);
    if r.Ok? {
      SameNames(env, buf, p.headers, |p.headers|);
    }
  }

  lemma VersionApart(p: Parsed, others: Memory, mem: Memory, lost: multiset<nat>)
    requires Staged(others, mem, ParsedBlocks(p) + lost)
    ensures p.version in mem && Staged(others, Without(mem, OneOf(Some(p.version))), HeaderBlocks(p) + lost)
  {
    hide HeaderBlocks, Holds, Without;
    assert ParsedBlocks(p) + lost == OneOf(Some(p.version)) + (HeaderBlocks(p) + lost);
    Unstage(others, mem, OneOf(Some(p.version)), HeaderBlocks(p) + lost);
    IsLive(Some(p.version), mem);
  }

  lemma HeadersAreText(env: Env, buf: bytes, h: Header)
    requires DecodesText(env.sjis) && DecodesText(env.utf16le) && DecodesText(env.utf16be) && h.sizes.count >= 0
    ensures var r := EntriesOf(env, buf, h, h.sizes.count);
      r.Ok? ==> forall i :: 0 <= i < |r.value| ==> NoNul(r.value[i].name)
  {
    hide DecodesText, ParseEntries, NoNul;
    NamesAreText(EntryCodec(env, h), h.shape.unicode, buf, GeoOf(h), HEAD_SIZE, h.sizes.count);
  }

  /** Makes an object, or nothing when there is no room for it. */
  method Create(heap: Heap, version: bytes) returns (r: Result<Object>)
    requires heap.Valid()
    modifies heap
    ensures heap.Valid()
    ensures r.Err? ==> heap.RanOut(r.error) && heap.mem == old(heap.mem)
    ensures r.Ok? ==> fresh(r.value) && fresh(r.value.files) && r.value.heap == heap && Blank(r.value) && r.value.Others() == old(heap.mem)
  {
    hide Without, OneOf;
    ghost var mem0 := heap.mem;
    var self := heap.Alloc([]);
    if self.None? {
      return Err(OutOfMemory);
    }
    PutBack(mem0, self.value, []);
    var v := heap.Alloc(version + [0]);
    if v.None? {
      heap.Free(self);
      return Err(OutOfMemory);
    }
    TwoNew(mem0, self.value, [], v.value, version + [0]);
    var b := new Object(heap, self.value, v.value);
    return Ok(b);
  }

  lemma TwoNew(mem: Memory, p: nat, s: bytes, q: nat, t: bytes)
    requires p !in mem && q !in mem[p := s]
    ensures Without(mem[p := s][q := t], multiset{p, q}) == mem
  {
  }

  /** Reads an archive into a new object; on failure the heap is what it was, but for the blocks that are
      lost. */
  method ReadObject(heap: Heap, env: Env, buf: bytes, version: bytes) returns (r: Result<Object>, ghost lost: multiset<nat>)
    requires heap.Valid() && DecodesText(env.sjis) && DecodesText(env.utf16le) && DecodesText(env.utf16be)
    modifies heap
    ensures heap.Valid() && (heap.isDefault ==> lost == multiset{})
    ensures r.Err? ==> Staged(old(heap.mem), heap.mem, lost) && (heap.RanOut(r.error) || ParseArchive(env, buf) == Err(r.error))
    ensures r.Ok? ==> fresh(r.value) && fresh(r.value.files) && r.value.heap == heap && r.value.Valid()
    ensures r.Ok? ==> Staged(old(heap.mem), r.value.Others(), lost)
    ensures r.Ok? ==> ParseArchive(env, buf).Ok? && ParseArchive(env, buf).value.files == r.value.Contents()
    ensures r.Ok? ==> NamesLost(heap, lost, r.value.Contents())
  {
    hide Base, Blocks, Holds, Without, ParseArchive, DecodesText, Staged, NamesLost, Object.Owned;
    lost := multiset{};
    NothingStaged(heap.mem);
    var b := Create(heap, version);
    if b.Err? {
      return Err(b.error), lost;
    }
    var loaded;
    loaded, lost := Load(b.value, env, buf);
    if loaded.Err? {
      b.value.Destroy();
      return Err(loaded.error), lost;
    }
    return Ok(b.value), lost;
  }
}
