/** The BND4 object in memory: who owns which block while files are added, taken over, removed and
    read, with any allocation failing; and what the file list is meanwhile. */
module Bnd4Object {
  import opened Bytes
  import opened Reading
  import opened Texts
  import opened Format
  import opened Binder
  import opened BinderReading
  import opened PathHashing
  import opened Allocation
  import opened Bnd4
  import HashIndex

  datatype Ptr = Ptr(block: nat, offset: nat)

  datatype Entry = Entry(id: int, flags: byte, info: Info, size: nat, name: Option<Ptr>, data: Option<nat>)

  /** The block that holds the names of all files read at once. */
  datatype Pool = Pool(block: Option<nat>, size: nat)

  const FIRST_CAPACITY: nat := 8
  const BLANK := Entry(0, 0, ZLIB, 0, None, None)

  predicate Pooled(name: Option<Ptr>, pool: Pool) {
    name.Some? && pool.block.Some? && pool.size > 0 && name.value.block == pool.block.value && name.value.offset < pool.size
  }

  // ------------------------------------------------------------------ ownership and contents

  function NameBlock(e: Entry, pool: Pool): Option<nat> {
    if e.name.None? || Pooled(e.name, pool) then None else Some(e.name.value.block)
  }

  function EntryBlocks(e: Entry, pool: Pool): multiset<nat> {
    OneOf(NameBlock(e, pool)) + OneOf(e.data)
  }

  function Blocks(es: seq<Entry>, pool: Pool): multiset<nat> {
    if es == [] then multiset{} else Blocks(es[..|es| - 1], pool) + EntryBlocks(es[|es| - 1], pool)
  }

  lemma BlocksAppend(es: seq<Entry>, e: Entry, pool: Pool)
    ensures Blocks(es + [e], pool) == Blocks(es, pool) + EntryBlocks(e, pool)
  {
    assert (es + [e])[..|es|] == es;
  }

  lemma {:induction false} BlocksRemove(es: seq<Entry>, i: nat, pool: Pool)
    requires i < |es|
    ensures Blocks(es, pool) == EntryBlocks(es[i], pool) + Blocks(es[..i] + es[i + 1..], pool)
    decreases |es|
  {
    hide EntryBlocks;
    var n := |es| - 1;
    if i == n {
      assert es[..i] + es[i + 1..] == es[..n];
    } else {
      var rest := es[..n][..i] + es[..n][i + 1..];
      BlocksRemove(es[..n], i, pool);
      assert es[..i] + es[i + 1..] == rest + [es[n]];
      BlocksAppend(rest, es[n], pool);
    }
  }

  lemma {:induction false} BlocksHave(es: seq<Entry>, i: nat, pool: Pool)
    requires i < |es|
    ensures forall b :: b in EntryBlocks(es[i], pool) ==> b in Blocks(es, pool)
  {
    hide EntryBlocks;
    BlocksRemove(es, i, pool);
  }

  /** A C string begins at the offset and ends at its first zero byte. */
  function CString(s: bytes, off: nat): bytes {
    if off <= |s| then s[off..ZeroFrom(s, off)] else []
  }

  function NameOf(e: Entry, mem: Memory): Option<bytes> {
    if e.name.None? then None
    else if e.name.value.block in mem then Some(CString(mem[e.name.value.block], e.name.value.offset))
    else Some([])
  }

  function DataOf(e: Entry, mem: Memory): bytes {
    if e.data.Some? && e.data.value in mem then mem[e.data.value] else []
  }

  function FileOf(e: Entry, mem: Memory): BinderFile {
    BinderFile(e.id, NameOf(e, mem), DataOf(e, mem), e.flags, e.info)
  }

  function FilesOf(es: seq<Entry>, mem: Memory): (fs: seq<BinderFile>)
    ensures |fs| == |es| && forall i :: 0 <= i < |fs| ==> fs[i] == FileOf(es[i], mem)
  {
    seq(|es|, i requires 0 <= i < |es| => FileOf(es[i], mem))
  }

  lemma FileStays(e: Entry, pool: Pool, mem: Memory, mem': Memory)
    requires forall b :: b in EntryBlocks(e, pool) || Some(b) == pool.block ==> b in mem && b in mem' && mem[b] == mem'[b]
    ensures FileOf(e, mem) == FileOf(e, mem')
  {
    assert e.data.Some? ==> e.data.value in EntryBlocks(e, pool);
    assert e.name.Some? && !Pooled(e.name, pool) ==> e.name.value.block in EntryBlocks(e, pool);
  }

  /** Both memories have the same blocks of these entries and of the pool. */
  ghost predicate SameBlocks(es: seq<Entry>, pool: Pool, mem: Memory, mem': Memory) {
    forall b :: b in Blocks(es, pool) || Some(b) == pool.block ==> b in mem && b in mem' && mem[b] == mem'[b]
  }

  /** The files are what they were as long as the blocks they refer to are. */
  lemma FilesStay(es: seq<Entry>, pool: Pool, mem: Memory, mem': Memory)
    requires SameBlocks(es, pool, mem, mem')
    ensures FilesOf(es, mem) == FilesOf(es, mem')
  {
    hide Blocks, EntryBlocks, FileOf;
    forall i | 0 <= i < |es|
      ensures FileOf(es[i], mem) == FileOf(es[i], mem')
    {
      BlocksHave(es, i, pool);
      FileStays(es[i], pool, mem, mem');
    }
  }

  ghost predicate NoNul(name: Option<bytes>) {
    name.Some? ==> Unterminated(name.value, false)
  }

  lemma StoredName(text: bytes)
    requires Unterminated(text, false)
    ensures CString(text + [0], 0) == text
  {
    var s := text + [0];
    var i := ZeroFrom(s, 0);
    assert forall j :: 0 <= j < |text| ==> s[j] != 0;
    assert s[|text|] == 0;
    assert i == |text|;
  }

  // ------------------------------------------------------------------ the object

  /** The blocks of the object apart from its array and its entries. */
  function Base(self: nat, pool: Pool, version: Option<nat>): multiset<nat> {
    multiset{self} + OneOf(pool.block) + OneOf(version)
  }

  lemma Regroup(a: multiset<nat>, b: multiset<nat>, c: multiset<nat>, d: multiset<nat>)
    ensures a + (b + c) + d == a + (b + (c + d))
  {
  }

  /** What is kept while one block is exchanged for another. */
  lemma Exchange(mem: Memory, part: multiset<nat>, rest: multiset<nat>, q: nat, content: bytes)
    requires Holds(part + rest, mem) && q !in mem
    ensures var mem' := Without(mem, part)[q := content];
      && Holds(OneOf(Some(q)) + rest, mem') && Without(mem', OneOf(Some(q)) + rest) == Without(mem, part + rest)
      && Keeps(rest, mem, mem')
  {
    FreeKeepsRest(mem, part, rest);
    AllocKeepsRest(Without(mem, part), rest, q, content);
    assert rest + multiset{q} == OneOf(Some(q)) + rest;
  }

  /** The blocks of a collection are live before and after, with the same contents. */
  ghost predicate Keeps(part: multiset<nat>, mem: Memory, mem': Memory) {
    forall b :: b in part ==> b in mem && b in mem' && mem[b] == mem'[b]
  }

  lemma BaseKept(self: nat, pool: Pool, version: Option<nat>, es: seq<Entry>, mem: Memory, mem': Memory)
    requires Keeps(Base(self, pool, version) + Blocks(es, pool), mem, mem')
    ensures FilesOf(es, mem) == FilesOf(es, mem')
  {
    hide Blocks;
    assert forall b :: b in Blocks(es, pool) || Some(b) == pool.block ==> b in Base(self, pool, version) + Blocks(es, pool);
    FilesStay(es, pool, mem, mem');
  }

  lemma BaseGrown(fb: multiset<nat>, self: nat, pool: Pool, version: Option<nat>, es: seq<Entry>, mem: Memory, mem': Memory)
    requires Holds(fb + (Base(self, pool, version) + Blocks(es, pool)), mem) && Grows(mem, mem')
    ensures FilesOf(es, mem) == FilesOf(es, mem')
    ensures pool.block.Some? ==> pool.block.value in mem
  {
    hide Blocks;
    var rest := Base(self, pool, version) + Blocks(es, pool);
    assert forall b :: b in rest ==> b in fb + rest;
    BaseKept(self, pool, version, es, mem, mem');
    assert pool.block.Some? ==> pool.block.value in rest;
  }

  lemma OwnedKept(fb: multiset<nat>, self: nat, pool: Pool, version: Option<nat>, es: seq<Entry>, mem: Memory, mem': Memory)
    requires Keeps(fb + (Base(self, pool, version) + Blocks(es, pool)), mem, mem')
    ensures FilesOf(es, mem) == FilesOf(es, mem')
  {
    hide Blocks, Base;
    var rest := Base(self, pool, version) + Blocks(es, pool);
    assert forall b :: b in rest ==> b in fb + rest;
    BaseKept(self, pool, version, es, mem, mem');
  }

  class Object {
    const heap: Heap
    const self: nat
    var files: array<Entry>
    var filesBlock: Option<nat>
    var count: nat
    var pool: Pool
    var version: Option<nat>

    /** The entries in use. */
    function Entries(): seq<Entry>
      reads this, files
      requires count <= files.Length
    {
      files[..count]
    }

    /** Everything this object will have to free. */
    function Owned(): multiset<nat>
      reads this, files
      requires count <= files.Length
    {
      OneOf(filesBlock) + (Base(self, pool, version) + Blocks(Entries(), pool))
    }

    ghost predicate Valid()
      reads this, files, heap
    {
      && heap.Valid()
      && count <= files.Length
      && (filesBlock.None? ==> files.Length == 0)
      && (pool.block.None? ==> pool.size == 0)
      && Holds(Owned(), heap.mem)
    }

    /** The file list. */
    function Contents(): seq<BinderFile>
      reads this, files, heap
      requires count <= files.Length
    {
      FilesOf(Entries(), heap.mem)
    }

    /** The memory that is not this object's. */
    function Others(): Memory
      reads this, files, heap
      requires count <= files.Length
    {
      Without(heap.mem, Owned())
    }

    /** A new, empty object in a block of its own. */
    constructor (heap: Heap, self: nat, version: nat)
      requires heap.Valid() && self in heap.mem && version in heap.mem && self != version
      ensures Valid() && Contents() == [] && this.heap == heap && fresh(files)
      ensures count == 0 && filesBlock.None? && pool == Pool(None, 0)
      ensures this.self == self && Owned() == multiset{self, version}
    {
      this.heap, this.self, this.version := heap, self, Some(version);
      files, filesBlock, count, pool := new Entry[0], None, 0, Pool(None, 0);
    }

    // -------------------------------------------------------------- growing

    /** Doubles the array when it is full. */
    method Grow() returns (r: Result<()>)
      requires Valid()
      modifies this`files, this`filesBlock, heap
      ensures Valid() && Others() == old(Others()) && Contents() == old(Contents())
      ensures files == old(files) || fresh(files)
      ensures r.Err? ==> heap.RanOut(r.error)
      ensures Entries() == old(Entries())
      ensures r.Ok? ==> count < files.Length
    {
      hide Blocks, Base, Holds, Without, FilesOf, OneOf, Keeps;
      if count < files.Length {
        return Ok(());
      }
      ghost var mem0, rest := heap.mem, Base(self, pool, version) + Blocks(Entries(), pool);
      FirstIsLive(filesBlock, rest, mem0);
      var capacity := if files.Length == 0 then FIRST_CAPACITY else files.Length * 2;
      var q := heap.Resize(filesBlock, []);
      if q.None? {
        return Err(OutOfMemory);
      }
      Exchange(mem0, OneOf(filesBlock), rest, q.value, []);
      BaseKept(self, pool, version, Entries(), mem0, heap.mem);
      files := Enlarged(files, count, capacity);
      filesBlock := q;
      return Ok(());
    }

    // -------------------------------------------------------------- freeing one entry

    /** Frees a name that is not in the pool, and the payload. */
    method FreeEntry(e: Entry)
      requires heap.Valid() && Holds(EntryBlocks(e, pool), heap.mem)
      modifies heap
      ensures heap.Valid() && heap.mem == Without(old(heap.mem), EntryBlocks(e, pool))
    {
      hide NameBlock, Holds, Without;
      ghost var mem0 := heap.mem;
      FreeKeepsRest(mem0, OneOf(NameBlock(e, pool)), OneOf(e.data));
      IsLive(NameBlock(e, pool), mem0);
      heap.Free(NameBlock(e, pool));
      IsLive(e.data, heap.mem);
      heap.Free(e.data);
      FreeTwice(mem0, OneOf(NameBlock(e, pool)), OneOf(e.data));
    }

    // -------------------------------------------------------------- adding

    /** Puts an entry whose blocks are already this object's at the end of the list. */
    method Append(e: Entry, ghost owned: multiset<nat>)
      requires heap.Valid() && count < files.Length && (filesBlock.None? ==> files.Length == 0) && (pool.block.None? ==> pool.size == 0)
      requires owned == Owned() + EntryBlocks(e, pool) && Holds(owned, heap.mem)
      modifies this`count, files
      ensures Valid() && Owned() == owned && Contents() == old(Contents()) + [FileOf(e, heap.mem)]
      ensures count == old(count) + 1 && forall i :: count <= i < files.Length ==> files[i] == old(files[i])
    {
      hide Blocks, Base, EntryBlocks, Holds, OneOf, FileOf;
      ghost var was, fs := Entries(), Contents();
      files[count] := e;
      count := count + 1;
      assert Entries() == was + [e];
      BlocksAppend(was, e, pool);
      Regroup(OneOf(filesBlock), Base(self, pool, version), Blocks(was, pool), EntryBlocks(e, pool));
      assert Contents() == fs + [FileOf(e, heap.mem)];
    }

    /** Adds a deep copy of a file; on failure nothing is leaked and the list is as before. */
    method AddFile(f: BinderFile) returns (r: Result<()>)
      requires Valid() && NoNul(f.name)
      modifies this`files, this`filesBlock, this`count, files, heap
      ensures Valid() && Others() == old(Others()) && (files == old(files) || fresh(files))
      ensures r.Err? ==> heap.RanOut(r.error)
      ensures Contents() == if r.Ok? then old(Contents()) + [f] else old(Contents())
    {
      hide Blocks, Base, Holds, Without, FilesOf, EntryBlocks, OneOf, Grows, FileOf;
      var _ :- Grow();
      ghost var mem0, owned := heap.mem, Owned();
      var copy :- CopyFile(heap, f, owned);
      BaseGrown(OneOf(filesBlock), self, pool, version, Entries(), mem0, heap.mem);
      var e := Entry(f.id, f.flags, f.info, |f.data|, copy.0, copy.1);
      NotPooled(e, mem0);
      Append(e, owned + CopyBlocks(copy));
      return Ok(());
    }

    /** Takes a payload over from the caller. On failure it stays with the caller, and the list is as
        before; the name is always copied. */
    method TakeFile(id: int, flags: byte, info: Info, name: Option<bytes>, data: Option<nat>) returns (r: Result<()>)
      requires Valid() && NoNul(name) && (data.Some? ==> data.value in Others())
      modifies this`files, this`filesBlock, this`count, files, heap
      ensures Valid() && (files == old(files) || fresh(files))
      ensures r.Err? ==> heap.RanOut(r.error)
      ensures r.Err? ==> Others() == old(Others()) && Contents() == old(Contents())
      ensures r.Ok? ==> Others() == Without(old(Others()), OneOf(data))
      ensures r.Ok? ==> Contents() == old(Contents()) + [BinderFile(id, name, if data.None? then [] else old(Others())[data.value], flags, info)]
    {
      hide Blocks, Base, Holds, Without, FilesOf, EntryBlocks, OneOf, Grows, FileOf, NameOf;
      var _ :- Grow();
      r := TakeGrown(id, flags, info, name, data);
    }

    method TakeGrown(id: int, flags: byte, info: Info, name: Option<bytes>, data: Option<nat>) returns (r: Result<()>)
      requires Valid() && count < files.Length && NoNul(name) && (data.Some? ==> data.value in Others())
      modifies this`count, files, heap
      ensures Valid()
      ensures r.Err? ==> heap.RanOut(r.error)
      ensures r.Err? ==> Others() == old(Others()) && Contents() == old(Contents())
      ensures r.Ok? ==> Others() == Without(old(Others()), OneOf(data))
      ensures r.Ok? ==> Contents() == old(Contents()) + [BinderFile(id, name, if data.None? then [] else old(Others())[data.value], flags, info)]
    {
      hide Blocks, Base, Holds, Without, FilesOf, EntryBlocks, OneOf, Grows, FileOf, NameOf;
      ghost var mem0, owned := heap.mem, Owned();
      InRest(mem0, owned, data);
      var copy :- CopyName(heap, name, owned);
      BaseGrown(OneOf(filesBlock), self, pool, version, Entries(), mem0, heap.mem);
      StillThere(mem0, heap.mem, data);
      var e := Entry(id, flags, info, if data.None? then 0 else |heap.mem[data.value]|, copy, data);
      NotPooled(e, mem0);
      TakenOver(owned, (copy, data), mem0, heap.mem);
      TakenFile(e, mem0, heap.mem, name);
      Append(e, owned + CopyBlocks((copy, data)));
      return Ok(());
    }

    // -------------------------------------------------------------- removing

    /** Removes a file and closes the gap. */
    method RemoveFile(index: nat) returns (r: Result<()>)
      requires Valid()
      modifies this`count, files, heap
      ensures Valid() && Others() == old(Others())
      ensures r == if index < |old(Contents())| then Ok(()) else Err(OutOfRange)
      ensures Contents() == if r.Ok? then old(Contents())[..index] + old(Contents())[index + 1..] else old(Contents())
    {
      hide Blocks, Base, Holds, Without, FilesOf, EntryBlocks, OneOf, Keeps;
      FilesCount(Entries(), heap.mem);
      if index >= count {
        return Err(OutOfRange);
      }
      ghost var es := Entries();
      FilesWithout(es, index, heap.mem);
      FreeAt(index);
      DropSlot(index);
      return Ok(());
    }

    /** The list without one entry. */
    method DropSlot(index: nat)
      requires index < count <= files.Length
      modifies this`count, files
      ensures count == old(count) - 1 && Entries() == old(Entries())[..index] + old(Entries())[index + 1..]
    {
      CloseGap(files, index, count);
      count := count - 1;
      files[count] := BLANK;
    }

    /** Frees what belongs to one entry; everything else stays what it is. */
    method FreeAt(index: nat)
      requires Valid() && index < count
      modifies heap
      ensures heap.Valid()
      ensures var left := Entries()[..index] + Entries()[index + 1..];
        var rest := OneOf(filesBlock) + (Base(self, pool, version) + Blocks(left, pool));
        && Holds(rest, heap.mem) && Without(heap.mem, rest) == old(Others())
        && FilesOf(left, heap.mem) == FilesOf(left, old(heap.mem))
    {
      hide Blocks, Base, Holds, Without, FilesOf, EntryBlocks, OneOf, Keeps;
      ghost var mem0, es, e := heap.mem, Entries(), files[index];
      ghost var left := es[..index] + es[index + 1..];
      ghost var rest := OneOf(filesBlock) + (Base(self, pool, version) + Blocks(left, pool));
      BlocksRemove(es, index, pool);
      assert Owned() == EntryBlocks(e, pool) + rest;
      FreeKeepsRest(mem0, EntryBlocks(e, pool), rest);
      FreeEntry(files[index]);
      RestKept(mem0, EntryBlocks(e, pool), rest, OneOf(filesBlock), Base(self, pool, version) + Blocks(left, pool));
      BaseKept(self, pool, version, left, mem0, heap.mem);
    }

    // -------------------------------------------------------------- destroying

    /** Frees what belongs to the entries. */
    method FreeEntries()
      requires Valid()
      modifies heap
      ensures heap.Valid()
      ensures var base := OneOf(filesBlock) + Base(self, pool, version);
        Holds(base, heap.mem) && Without(heap.mem, base) == old(Others())
    {
      hide Blocks, Base, Holds, Without, EntryBlocks, OneOf;
      ghost var mem0, owned, es := heap.mem, Owned(), Entries();
      ghost var base := OneOf(filesBlock) + Base(self, pool, version);
      assert es[0..] == es;
      assert owned == base + Blocks(es[0..], pool);
      for i := 0 to count
        invariant heap.Valid()
        invariant Holds(base + Blocks(es[i..], pool), heap.mem)
        invariant Without(heap.mem, base + Blocks(es[i..], pool)) == Without(mem0, owned)
      {
        ghost var mem1, tail := heap.mem, es[i..];
        BlocksRemove(tail, 0, pool);
        assert tail[..0] + tail[1..] == es[i + 1..];
        assert base + Blocks(tail, pool) == EntryBlocks(es[i], pool) + (base + Blocks(es[i + 1..], pool));
        FreeKeepsRest(mem1, EntryBlocks(es[i], pool), base + Blocks(es[i + 1..], pool));
        FreeEntry(files[i]);
      }
      NoEntries(es, pool);
      assert base + Blocks(es[count..], pool) == base;
    }

    /** Frees every block of the object, each exactly once, and nothing else. */
    method Destroy()
      requires Valid()
      modifies heap
      ensures heap.Valid() && heap.mem == old(Others())
    {
      FreeEntries();
      FreeBase();
    }

    /** Frees everything but the object and its version, and starts over. */
    method Clear()
      requires Valid()
      modifies this`files, this`filesBlock, this`count, this`pool, heap
      ensures Valid() && Others() == old(Others()) && Contents() == [] && fresh(files)
    {
      hide Holds, Without, OneOf, Base, Blocks, FilesOf;
      FreeEntries();
      FreeStores();
      files, filesBlock, count, pool := new Entry[0], None, 0, Pool(None, 0);
      assert Entries() == [];
      NoStores(self, version);
    }

    /** Frees the pool and the array. */
    method FreeStores()
      requires heap.Valid() && Holds(OneOf(filesBlock) + Base(self, pool, version), heap.mem)
      modifies heap
      ensures heap.Valid()
      ensures var v := multiset{self} + OneOf(version);
        Holds(v, heap.mem) && Without(heap.mem, v) == Without(old(heap.mem), OneOf(filesBlock) + Base(self, pool, version))
    {
      hide Holds, Without, OneOf;
      ghost var mem0, p, f, v := heap.mem, OneOf(pool.block), OneOf(filesBlock), multiset{self} + OneOf(version);
      assert f + Base(self, pool, version) == p + (f + v);
      FreeKeepsRest(mem0, p, f + v);
      IsLive(pool.block, mem0);
      heap.Free(pool.block);
      ghost var mem1 := heap.mem;
      FreeKeepsRest(mem1, f, v);
      IsLive(filesBlock, mem1);
      heap.Free(filesBlock);
    }

    method FreeBase()
      requires heap.Valid() && Holds(OneOf(filesBlock) + Base(self, pool, version), heap.mem)
      modifies heap
      ensures heap.Valid() && heap.mem == Without(old(heap.mem), OneOf(filesBlock) + Base(self, pool, version))
    {
      hide Holds, Without, OneOf;
      ghost var mem0 := heap.mem;
      ghost var p, f, v, s := OneOf(pool.block), OneOf(filesBlock), OneOf(version), OneOf(Some(self));
      SelfBlock(self);
      assert f + Base(self, pool, version) == p + (f + (v + s));
      FreeKeepsRest(mem0, p, f + (v + s));
      IsLive(pool.block, heap.mem);
      heap.Free(pool.block);
      ghost var mem1 := heap.mem;
      FreeKeepsRest(mem1, f, v + s);
      IsLive(filesBlock, heap.mem);
      heap.Free(filesBlock);
      ghost var mem2 := heap.mem;
      FreeKeepsRest(mem2, v, s);
      IsLive(version, heap.mem);
      heap.Free(version);
      IsLive(Some(self), heap.mem);
      heap.Free(Some(self));
      FreeTwice(mem2, v, s);
      FreeTwice(mem1, f, v + s);
      FreeTwice(mem0, p, f + (v + s));
    }

    // -------------------------------------------------------------- finding

    /** The linear scan by path hash: the first file whose name has the hash. */
    method FindByPathHash(hash: nat) returns (r: Result<nat>)
      requires Valid()
      ensures match HashIndex.Scan(Hashes(Contents()), hash, 0)
              case None => r == Err(NotFound)
              case Some(i) => r == Ok(i)
    {
      hide Blocks, Base, Holds, OneOf, NameOf, DataOf, PathHash;
      ghost var hs := Hashes(Contents());
      for i := 0 to count
        invariant HashIndex.Scan(hs, hash, 0) == HashIndex.Scan(hs, hash, i)
      {
        assert Contents()[i] == FileOf(files[i], heap.mem);
        var h := ComputePathHash(TextOf(NameOf(files[i], heap.mem)));
        assert hs[i] == h;
        if h == hash {
          return Ok(i);
        }
      }
      return Err(NotFound);
    }

    /** A freshly allocated name is not in the pool. */
    lemma NotPooled(e: Entry, mem: Memory)
      requires e.name.Some? ==> e.name.value.block !in mem
      requires pool.block.Some? ==> pool.block.value in mem
      ensures !Pooled(e.name, pool) && EntryBlocks(e, pool) == CopyBlocks((e.name, e.data))
    {
    }
  }

  lemma InRest(mem: Memory, owned: multiset<nat>, p: Option<nat>)
    requires p.Some? ==> p.value in Without(mem, owned)
    ensures p.Some? ==> p.value in mem && mem[p.value] == Without(mem, owned)[p.value]
  {
  }

  lemma StillThere(mem: Memory, mem': Memory, p: Option<nat>)
    requires Grows(mem, mem') && (p.Some? ==> p.value in mem)
    ensures p.Some? ==> p.value in mem' && mem'[p.value] == mem[p.value]
  {
  }

  lemma NoStores(self: nat, version: Option<nat>)
    ensures OneOf(None) + (Base(self, Pool(None, 0), version) + Blocks([], Pool(None, 0))) == multiset{self} + OneOf(version)
  {
  }

  lemma NoBlock()
    ensures OneOf(None) == multiset{}
  {
  }

  lemma SelfBlock(self: nat)
    ensures OneOf(Some(self)) == multiset{self}
  {
  }

  lemma NoEntries(es: seq<Entry>, pool: Pool)
    ensures Blocks(es[|es|..], pool) == multiset{}
  {
  }

  lemma FilesCount(es: seq<Entry>, mem: Memory)
    ensures |FilesOf(es, mem)| == |es|
  {
  }

  lemma FilesWithout(es: seq<Entry>, i: nat, mem: Memory)
    requires i < |es|
    ensures FilesOf(es[..i] + es[i + 1..], mem) == FilesOf(es, mem)[..i] + FilesOf(es, mem)[i + 1..]
  {
  }

  /** What is not freed is kept. */
  lemma RestKept(mem: Memory, part: multiset<nat>, rest: multiset<nat>, a: multiset<nat>, b: multiset<nat>)
    requires Holds(part + rest, mem) && rest == a + b
    ensures Keeps(b, mem, Without(mem, part))
  {
    FreeKeepsRest(mem, part, rest);
    assert forall x :: x in b ==> x in rest;
  }

  /** A copied name and a payload taken over. */
  lemma TakenOver(owned: multiset<nat>, c: Copy, mem0: Memory, mem1: Memory)
    requires Holds(owned + CopyBlocks((c.0, None)), mem1) && Without(mem1, owned + CopyBlocks((c.0, None))) == Without(mem0, owned)
    requires c.1.Some? ==> c.1.value in Without(mem0, owned)
    ensures Holds(owned + CopyBlocks(c), mem1)
    ensures Without(mem1, owned + CopyBlocks(c)) == Without(Without(mem0, owned), OneOf(c.1))
  {
    var more := owned + CopyBlocks((c.0, None));
    if c.1.Some? {
      assert c.1.value in Without(mem1, more);
      TakeOver(mem1, more, c.1.value);
      BothBlocks(owned, c.0, c.1.value);
    } else {
      assert c == (c.0, None);
    }
  }

  lemma TakenFile(e: Entry, mem0: Memory, mem1: Memory, name: Option<bytes>)
    requires Grows(mem0, mem1) && (e.data.Some? ==> e.data.value in mem0)
    requires NameOf(Entry(0, 0, ZLIB, 0, e.name, None), mem1) == name
    ensures FileOf(e, mem1) == BinderFile(e.id, name, if e.data.None? then [] else mem0[e.data.value], e.flags, e.info)
  {
  }

  method CloseGap(files: array<Entry>, index: nat, count: nat)
    requires index < count <= files.Length
    modifies files
    ensures files[..count - 1] == old(files[..index]) + old(files[index + 1..count])
  {
    for i := index + 1 to count
      invariant files[..i - 1] == old(files[..index]) + old(files[index + 1..i])
      invariant files[i..] == old(files[i..])
    {
      files[i - 1] := files[i];
    }
  }

  lemma FirstIsLive(p: Option<nat>, rest: multiset<nat>, mem: Memory)
    requires Holds(OneOf(p) + rest, mem)
    ensures p.Some? ==> p.value in mem
  {
    assert p.Some? ==> p.value in OneOf(p) + rest;
  }

  method Enlarged(from: array<Entry>, n: nat, capacity: nat) returns (grown: array<Entry>)
    requires n <= from.Length && n <= capacity
    ensures fresh(grown) && grown.Length == capacity && grown[..n] == from[..n]
  {
    grown := new Entry[capacity](_ => BLANK);
    for i := 0 to n
      invariant grown[..i] == from[..i]
    {
      grown[i] := from[i];
    }
  }

  // ------------------------------------------------------------------ copies

  type Copy = (Option<Ptr>, Option<nat>)

  function CopyBlocks(c: Copy): multiset<nat> {
    OneOf(if c.0.None? then None else Some(c.0.value.block)) + OneOf(c.1)
  }

  /** Both blocks are new, and hold what was to be copied. */
  ghost predicate CopyOf(c: Copy, f: BinderFile, mem: Memory, mem': Memory) {
    && (c.0.Some? ==> c.0.value.block !in mem)
    && FileOf(Entry(f.id, f.flags, f.info, |f.data|, c.0, c.1), mem') == f
  }

  /** The memory only grows, and keeps what it has. */
  ghost predicate Grows(mem: Memory, mem': Memory) {
    forall b :: b in mem ==> b in mem' && mem'[b] == mem[b]
  }

  method CopyName(heap: Heap, name: Option<bytes>, ghost owned: multiset<nat>) returns (r: Result<Option<Ptr>>)
    requires heap.Valid() && Holds(owned, heap.mem) && NoNul(name)
    modifies heap
    ensures heap.Valid() && Grows(old(heap.mem), heap.mem)
    ensures r.Err? ==> heap.RanOut(r.error) && heap.mem == old(heap.mem)
    ensures r.Ok? ==>
      var more := owned + CopyBlocks((r.value, None));
      && Holds(more, heap.mem) && Without(heap.mem, more) == Without(old(heap.mem), owned)
      && (r.value.Some? ==> r.value.value.block in heap.mem && r.value.value.block !in old(heap.mem))
      && NameOf(Entry(0, 0, ZLIB, 0, r.value, None), heap.mem) == name
  {
    hide Holds, Without;
    if name.None? {
      assert owned + CopyBlocks((None, None)) == owned;
      return Ok(None);
    }
    ghost var mem0 := heap.mem;
    var p := heap.Alloc(name.value + [0]);
    if p.None? {
      return Err(OutOfMemory);
    }
    AllocKeepsRest(mem0, owned, p.value, name.value + [0]);
    StoredName(name.value);
    assert CopyBlocks((Some(Ptr(p.value, 0)), None)) == multiset{p.value};
    return Ok(Some(Ptr(p.value, 0)));
  }

  /** Copies name and payload; when the second allocation fails the first is taken back. */
  method CopyFile(heap: Heap, f: BinderFile, ghost owned: multiset<nat>) returns (r: Result<Copy>)
    requires heap.Valid() && Holds(owned, heap.mem) && NoNul(f.name)
    modifies heap
    ensures heap.Valid()
    ensures r.Err? ==> heap.RanOut(r.error) && heap.mem == old(heap.mem)
    ensures r.Ok? ==>
      var more := owned + CopyBlocks(r.value);
      && Holds(more, heap.mem) && Without(heap.mem, more) == Without(old(heap.mem), owned)
      && Grows(old(heap.mem), heap.mem) && CopyOf(r.value, f, old(heap.mem), heap.mem)
  {
    hide Holds, Without, Grows, OneOf, FileOf, NameOf;
    ghost var mem0 := heap.mem;
    var name :- CopyName(heap, f.name, owned);
    ghost var mem1, named := heap.mem, owned + CopyBlocks((name, None));
    if |f.data| == 0 {
      CopyDone(f, (name, None), mem0, mem1, mem1);
      return Ok((name, None));
    }
    var data := heap.Alloc(f.data);
    if data.None? {
      TakenBack(mem0, mem1, owned, name);
      heap.Free(if name.None? then None else Some(name.value.block));
      return Err(OutOfMemory);
    }
    AllocKeepsRest(mem1, named, data.value, f.data);
    CopyDone(f, (name, data), mem0, mem1, heap.mem);
    BothBlocks(owned, name, data.value);
    return Ok((name, data));
  }

  lemma BothBlocks(owned: multiset<nat>, name: Option<Ptr>, data: nat)
    ensures owned + CopyBlocks((name, None)) + multiset{data} == owned + CopyBlocks((name, Some(data)))
  {
  }

  lemma CopyDone(f: BinderFile, c: Copy, mem0: Memory, mem1: Memory, mem2: Memory)
    requires NameOf(Entry(0, 0, ZLIB, 0, c.0, None), mem1) == f.name
    requires c.0.Some? ==> c.0.value.block in mem1 && c.0.value.block !in mem0
    requires Grows(mem0, mem1)
    requires if c.1.None? then mem2 == mem1 && f.data == [] else c.1.value !in mem1 && mem2 == mem1[c.1.value := f.data]
    ensures Grows(mem0, mem2) && CopyOf(c, f, mem0, mem2)
  {
  }

  lemma TakenBack(mem0: Memory, mem1: Memory, owned: multiset<nat>, name: Option<Ptr>)
    requires Holds(owned + CopyBlocks((name, None)), mem1) && Grows(mem0, mem1)
    requires Without(mem1, owned + CopyBlocks((name, None))) == Without(mem0, owned) && Holds(owned, mem0)
    requires name.Some? ==> name.value.block !in mem0
    ensures name.Some? ==> name.value.block in mem1
    ensures Without(mem1, OneOf(if name.None? then None else Some(name.value.block))) == mem0
  {
    var more := owned + CopyBlocks((name, None));
    assert name.Some? ==> name.value.block in more;
    var b := OneOf(if name.None? then None else Some(name.value.block));
    forall x | x in mem1 && x !in b
      ensures x in mem0
    {
      if x !in owned {
        assert x !in more;
        assert x in Without(mem1, more);
        assert x in Without(mem0, owned);
      }
    }
  }
}
