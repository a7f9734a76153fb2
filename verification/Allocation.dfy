/** A heap of blocks in which any allocation may fail, and the arithmetic of who owns what. */
module Allocation {
  import opened Bytes

  type Memory = map<nat, bytes>

  /** Memory without the blocks of a collection. */
  function Without(mem: Memory, owned: multiset<nat>): (rest: Memory)
    ensures forall b :: b in rest <==> b in mem && b !in owned
    ensures forall b :: b in rest ==> rest[b] == mem[b]
  {
    map b | b in mem && b !in owned :: mem[b]
  }

  /** A collection holds each of its blocks once, and all of them are live. */
  ghost predicate Holds(owned: multiset<nat>, mem: Memory) {
    forall b :: b in owned ==> owned[b] == 1 && b in mem
  }

  function OneOf(p: Option<nat>): multiset<nat> {
    if p.None? then multiset{} else multiset{p.value}
  }

  /** Allocation `i` fails when `fails(i)`; every pattern of failures is covered this way. Some of the
      code asks whether the allocator is the library's default one. */
  class Heap {
    const fails: nat -> bool
    const isDefault: bool
    var mem: Memory
    var next: nat

    ghost predicate Valid()
      reads this
    {
      forall b :: b in mem ==> b < next
    }

    /** Some allocation fails, at some time. */
    ghost predicate CanFail() {
      exists i :: fails(i)
    }

    /** The error of a failed allocation. */
    ghost predicate RanOut(e: Error) {
      e == OutOfMemory && CanFail()
    }

    constructor (fails: nat -> bool, isDefault: bool)
      ensures Valid() && mem == map[] && this.isDefault == isDefault
    {
      this.fails, this.isDefault := fails, isDefault;
      mem, next := map[], 0;
    }

    method Alloc(content: bytes) returns (p: Option<nat>)
      requires Valid()
      modifies this
      ensures Valid()
      ensures p.None? ==> mem == old(mem) && CanFail()
      ensures p.Some? ==> p.value !in old(mem) && mem == old(mem)[p.value := content]
    {
      next := next + 1;
      if fails(next - 1) {
        return None;
      }
      mem := mem[next - 1 := content];
      return Some(next - 1);
    }

    /** Only a live block can be freed, so none is freed twice. */
    method Free(p: Option<nat>)
      requires Valid() && (p.Some? ==> p.value in mem)
      modifies this
      ensures Valid() && mem == Without(old(mem), OneOf(p))
    {
      if p.Some? {
        mem := map b | b in mem && b != p.value :: mem[b];
      }
    }

    /** Writes into a live block. */
    method Store(p: nat, content: bytes)
      requires Valid() && p in mem
      modifies this
      ensures Valid() && mem == old(mem)[p := content]
    {
      mem := mem[p := content];
    }

    /** On failure the old block stays as it is. */
    method Resize(p: Option<nat>, content: bytes) returns (q: Option<nat>)
      requires Valid() && (p.Some? ==> p.value in mem)
      modifies this
      ensures Valid()
      ensures q.None? ==> mem == old(mem) && CanFail()
      ensures q.Some? ==> q.value !in old(mem) && mem == Without(old(mem), OneOf(p))[q.value := content]
    {
      q := Alloc(content);
      if q.Some? {
        Free(p);
      }
    }
  }

  /** Owning a new block leaves everybody else's memory as it was. */
  lemma AllocKeepsRest(mem: Memory, owned: multiset<nat>, b: nat, content: bytes)
    requires Holds(owned, mem) && b !in mem
    ensures Holds(owned + multiset{b}, mem[b := content])
    ensures Without(mem[b := content], owned + multiset{b}) == Without(mem, owned)
  {
  }

  /** Freeing a part of what is owned leaves the rest owned, and everybody else's memory as it was. */
  lemma FreeKeepsRest(mem: Memory, part: multiset<nat>, rest: multiset<nat>)
    requires Holds(part + rest, mem)
    ensures Holds(rest, Without(mem, part)) && Holds(part, mem)
    ensures Without(Without(mem, part), rest) == Without(mem, part + rest)
    ensures forall b :: b in rest ==> b !in part
  {
    forall b | b in rest
      ensures b !in part && rest[b] == 1 && b in mem
    {
      assert (part + rest)[b] == part[b] + rest[b] == 1;
    }
    forall b | b in part
      ensures part[b] == 1 && b in mem
    {
      assert (part + rest)[b] == part[b] + rest[b] == 1;
    }
  }

  /** Taking over a block of somebody else's. */
  lemma TakeOver(mem: Memory, owned: multiset<nat>, b: nat)
    requires Holds(owned, mem) && b in mem && b !in owned
    ensures Holds(owned + multiset{b}, mem)
    ensures Without(mem, owned + multiset{b}) == Without(Without(mem, owned), multiset{b})
  {
  }

  lemma FreeTwice(mem: Memory, a: multiset<nat>, b: multiset<nat>)
    ensures Without(Without(mem, a), b) == Without(mem, a + b)
  {
  }

  // ------------------------------------------------------------------ blocks held for a while

  /** A block held for a while, if there is one, is all there is beyond `mem0`. */
  ghost predicate Holding(mem0: Memory, mem: Memory, work: Option<nat>, content: bytes) {
    if work.None? then mem == mem0 else work.value !in mem0 && mem == mem0[work.value := content]
  }

  lemma Released(mem0: Memory, mem: Memory, work: Option<nat>, content: bytes)
    requires Holding(mem0, mem, work, content)
    ensures Without(mem, OneOf(work)) == mem0 && (work.Some? ==> work.value in mem && mem[work.value] == content)
  {
  }

  lemma ReleasedUnder(mem0: Memory, mem: Memory, work: Option<nat>, content: bytes, block: nat, text: bytes)
    requires Holding(mem0, mem, work, content) && block !in mem
    ensures Without(mem[block := text], OneOf(work)) == mem0[block := text] && block !in mem0
    ensures work.Some? ==> work.value in mem[block := text]
  {
  }

  lemma NotHolding(mem0: Memory)
    ensures Holding(mem0, mem0, None, [])
  {
  }

  lemma NowHolding(mem0: Memory, work: nat, content: bytes)
    requires work !in mem0
    ensures Holding(mem0, mem0[work := content], Some(work), content)
  {
  }

  lemma StillHolding(mem0: Memory, mem: Memory, work: Option<nat>, content: bytes)
    requires Holding(mem0, mem, work, content) && work.Some?
    ensures work.value !in mem0 && mem == mem0[work.value := content]
  {
  }

  lemma Rewritten(mem0: Memory, mem: Memory, work: Option<nat>, content: bytes, more: bytes)
    requires Holding(mem0, mem, work, content) && work.Some?
    ensures Holding(mem0, mem[work.value := more], work, more)
  {
  }

  /** Since `mem0` nothing but these blocks has been added, and nothing has changed. */
  ghost predicate Staged(mem0: Memory, mem: Memory, blocks: multiset<nat>) {
    Holds(blocks, mem) && Without(mem, blocks) == mem0
  }

  lemma NothingStaged(mem: Memory)
    ensures Staged(mem, mem, multiset{})
  {
  }

  lemma StageMore(mem0: Memory, mem: Memory, blocks: multiset<nat>, b: nat, content: bytes)
    requires Staged(mem0, mem, blocks) && b !in mem
    ensures Staged(mem0, mem[b := content], blocks + multiset{b})
  {
    AllocKeepsRest(mem, blocks, b, content);
  }

  lemma Unstage(mem0: Memory, mem: Memory, part: multiset<nat>, rest: multiset<nat>)
    requires Staged(mem0, mem, part + rest)
    ensures Holds(part, mem) && Staged(mem0, Without(mem, part), rest)
  {
    FreeKeepsRest(mem, part, rest);
  }

  /** Whoever owned something before still does, and staged blocks are somebody else's. */
  lemma StagedIsOther(mem0: Memory, mem: Memory, blocks: multiset<nat>, owned: multiset<nat>)
    requires Staged(mem0, mem, blocks) && Holds(owned, mem0)
    ensures Holds(owned, mem) && Staged(Without(mem0, owned), Without(mem, owned), blocks)
    ensures forall b :: b in owned ==> b in mem0 && mem[b] == mem0[b]
  {
    assert forall b :: b in owned ==> b in Without(mem, blocks);
    var rest := Without(mem, owned);
    forall b | b in blocks
      ensures b in rest
    {
      assert b !in mem0;
    }
    assert Without(rest, blocks) == Without(mem0, owned);
  }

  /** Freeing what somebody else holds does not concern the owner. */
  lemma OthersFreed(mem: Memory, owned: multiset<nat>, part: multiset<nat>)
    requires Holds(owned, mem) && Holds(part, Without(mem, owned))
    ensures Holds(owned, Without(mem, part)) && Holds(part, mem)
    ensures Without(Without(mem, part), owned) == Without(Without(mem, owned), part)
    ensures forall b :: b in owned ==> b in mem && b in Without(mem, part) && mem[b] == Without(mem, part)[b]
  {
  }

  function Sum(ps: seq<Option<nat>>): multiset<nat> {
    if ps == [] then multiset{} else Sum(ps[..|ps| - 1]) + OneOf(ps[|ps| - 1])
  }

  lemma SumAppend(ps: seq<Option<nat>>, p: Option<nat>)
    ensures Sum(ps + [p]) == Sum(ps) + OneOf(p)
  {
    assert (ps + [p])[..|ps|] == ps;
  }

  lemma NoSum()
    ensures Sum([]) == multiset{}
  {
  }

  /** Frees blocks from the last to the first. */
  method FreeAll(heap: Heap, ps: seq<Option<nat>>)
    requires heap.Valid() && Holds(Sum(ps), heap.mem)
    modifies heap
    ensures heap.Valid() && heap.mem == Without(old(heap.mem), Sum(ps))
  {
    hide Holds, Without, OneOf, Sum;
    NoSum();
    ghost var mem0 := heap.mem;
    assert ps[..|ps|] == ps;
    EmptyRest(mem0);
    var i: nat := |ps|;
    ghost var freed := multiset{};
    while i > 0
      invariant i <= |ps| && heap.Valid() && freed + Sum(ps[..i]) == Sum(ps)
      invariant Holds(Sum(ps[..i]), heap.mem) && heap.mem == Without(mem0, freed)
    {
      i := i - 1;
      ghost var mem1 := heap.mem;
      assert ps[..i + 1] == ps[..i] + [ps[i]];
      SumAppend(ps[..i], ps[i]);
      assert Sum(ps[..i + 1]) == OneOf(ps[i]) + Sum(ps[..i]);
      FreeKeepsRest(mem1, OneOf(ps[i]), Sum(ps[..i]));
      IsLive(ps[i], mem1);
      heap.Free(ps[i]);
      FreeTwice(mem0, freed, OneOf(ps[i]));
      freed := freed + OneOf(ps[i]);
    }
    assert ps[..i] == [];
  }

  lemma EmptyRest(mem: Memory)
    ensures Without(mem, multiset{}) == mem
  {
  }

  lemma IsLive(p: Option<nat>, mem: Memory)
    requires Holds(OneOf(p), mem)
    ensures p.Some? ==> p.value in mem
  {
    assert p.Some? ==> p.value in OneOf(p);
  }
}
