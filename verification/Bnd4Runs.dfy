/** Whole lives of a BND4 object: made or read, then any sequence of additions, take-overs and
    removals, then destroyed, with any allocation failing on the way. */
module Bnd4Runs {
  import opened Bytes
  import opened Texts
  import opened Binder
  import opened Allocation
  import opened Bnd4Reading
  import opened Bnd4Object
  import opened Bnd4Heads
  import opened Bnd4Load

  /** A call on the object. `Take` hands over a block of the caller's. */
  datatype Call =
    | Add(file: BinderFile)
    | Take(id: int, flags: byte, info: Info, name: Option<bytes>, data: Option<nat>)
    | Remove(index: nat)

  /** What the file list is after a call that did or did not succeed. */
  function After(fs: seq<BinderFile>, c: Call, ok: bool, mem: Memory): seq<BinderFile> {
    if !ok then fs
    else
      match c
      case Add(f) => fs + [f]
      case Take(id, flags, info, name, data) =>
        fs + [BinderFile(id, name, if data.Some? && data.value in mem then mem[data.value] else [], flags, info)]
      case Remove(i) => if i < |fs| then fs[..i] + fs[i + 1..] else fs
  }

  function Replay(fs: seq<BinderFile>, calls: seq<Call>, oks: seq<bool>, mem: Memory, k: nat): seq<BinderFile>
    requires k <= |calls| && k <= |oks|
  {
    if k == 0 then fs else After(Replay(fs, calls, oks, mem, k - 1), calls[k - 1], oks[k - 1], mem)
  }

  /** The block a successful call takes from its caller. */
  function TakenBy(c: Call, ok: bool): Option<nat> {
    if ok && c.Take? then c.data else None
  }

  function Taken(calls: seq<Call>, oks: seq<bool>, k: nat): multiset<nat>
    requires k <= |calls| && k <= |oks|
  {
    if k == 0 then multiset{} else Taken(calls, oks, k - 1) + OneOf(TakenBy(calls[k - 1], oks[k - 1]))
  }

  /** Callers hand over blocks that were theirs to begin with, and C strings. */
  ghost predicate Proper(calls: seq<Call>, mem: Memory) {
    forall i :: 0 <= i < |calls| ==> ProperCall(calls[i], mem)
  }

  ghost predicate ProperCall(c: Call, mem: Memory) {
    match c
    case Add(f) => NoNul(f.name)
    case Take(_, _, _, name, data) => NoNul(name) && (data.Some? ==> data.value in mem)
    case Remove(_) => true
  }

  /** What has been taken so far was handed over by an earlier call. */
  lemma {:induction false} TakenEarlier(calls: seq<Call>, oks: seq<bool>, k: nat, b: nat)
    requires k <= |calls| && k <= |oks| && b in Taken(calls, oks, k)
    ensures exists i :: 0 <= i < k && calls[i].Take? && calls[i].data == Some(b)
  {
    if k > 0 && b !in OneOf(TakenBy(calls[k - 1], oks[k - 1])) {
      TakenEarlier(calls, oks, k - 1, b);
    }
  }

  /** A call that hands over what has been taken already; the caller does not make it. */
  predicate Spent(c: Call, taken: multiset<nat>) {
    c.Take? && c.data.Some? && c.data.value in taken
  }

  lemma StillTheCallers(calls: seq<Call>, mem: Memory, k: nat, taken: multiset<nat>)
    requires Proper(calls, mem) && k < |calls| && !Spent(calls[k], taken)
    ensures calls[k].Take? && calls[k].data.Some? ==> calls[k].data.value in Without(mem, taken)
  {
    assert ProperCall(calls[k], mem);
  }

  /** A call that is not made, or fails, changes nothing. */
  lemma NothingDone(fs: seq<BinderFile>, c: Call, mem: Memory, taken: multiset<nat>)
    ensures After(fs, c, false, mem) == fs && taken + OneOf(TakenBy(c, false)) == taken
  {
  }

  /** Why a call did or did not succeed: a removal succeeds exactly for a file that is there, and the
      others fail for want of memory only, or because the payload is gone. */
  ghost predicate Explained(heap: Heap, fs: seq<BinderFile>, calls: seq<Call>, oks: seq<bool>, mem: Memory, k: nat)
    requires k < |calls| && k < |oks|
  {
    match calls[k]
    case Add(_) => oks[k] || heap.CanFail()
    case Take(_, _, _, _, _) => if Spent(calls[k], Taken(calls, oks, k)) then !oks[k] else oks[k] || heap.CanFail()
    case Remove(i) => oks[k] == (i < |Replay(fs, calls, oks, mem, k)|)
  }

  ghost predicate AllExplained(heap: Heap, fs: seq<BinderFile>, calls: seq<Call>, oks: seq<bool>, mem: Memory, n: nat)
    requires n <= |calls| && n <= |oks|
  {
    forall k :: 0 <= k < n ==> Explained(heap, fs, calls, oks, mem, k)
  }

  lemma {:induction false} SamePrefix(calls: seq<Call>, oks: seq<bool>, more: seq<bool>, fs: seq<BinderFile>, mem: Memory, k: nat)
    requires k <= |calls| && k <= |oks|
    ensures Taken(calls, oks + more, k) == Taken(calls, oks, k)
    ensures Replay(fs, calls, oks + more, mem, k) == Replay(fs, calls, oks, mem, k)
  {
    if k > 0 {
      SamePrefix(calls, oks, more, fs, mem, k - 1);
    }
  }

  lemma NothingCalled(heap: Heap, fs: seq<BinderFile>, calls: seq<Call>, mem: Memory)
    ensures AllExplained(heap, fs, calls, [], mem, 0) && Taken(calls, [], 0) == multiset{} && Replay(fs, calls, [], mem, 0) == fs
  {
  }

  lemma OneMoreExplained(heap: Heap, fs: seq<BinderFile>, calls: seq<Call>, oks: seq<bool>, ok: bool, mem: Memory)
    requires |oks| < |calls| && AllExplained(heap, fs, calls, oks, mem, |oks|)
    requires Explained(heap, fs, calls, oks + [ok], mem, |oks|)
    ensures AllExplained(heap, fs, calls, oks + [ok], mem, |oks| + 1)
  {
    hide Replay, Taken;
    forall k | 0 <= k < |oks|
      ensures Explained(heap, fs, calls, oks + [ok], mem, k)
    {
      SamePrefix(calls, oks, [ok], fs, mem, k);
      assert Explained(heap, fs, calls, oks, mem, k);
    }
  }

  /** One call. */
  method Perform(b: Object, c: Call, ghost mem: Memory, ghost taken: multiset<nat>) returns (ok: bool)
    requires b.Valid() && ProperCall(c, mem) && b.Others() == Without(mem, taken)
    requires c.Take? && c.data.Some? ==> c.data.value in Without(mem, taken)
    modifies b`files, b`filesBlock, b`count, b.files, b.heap
    ensures b.Valid() && (b.files == old(b.files) || fresh(b.files))
    ensures b.Others() == Without(mem, taken + OneOf(TakenBy(c, ok)))
    ensures b.Contents() == After(old(b.Contents()), c, ok, mem)
    ensures if c.Remove? then ok == (c.index < |old(b.Contents())|) else ok || b.heap.CanFail()
  {
    hide Base, Blocks, Holds, FilesOf, NoNul, Without, OneOf, Object.Owned;
    NoBlock();
    NoBlockMore(taken);
    match c {
      case Add(f) =>
        var r := b.AddFile(f);
        ok := r.Ok?;
      case Take(id, flags, info, name, data) =>
        InRest(mem, taken, data);
        var r := b.TakeFile(id, flags, info, name, data);
        ok := r.Ok?;
        FreeTwice(mem, taken, OneOf(data));
      case Remove(i) =>
        var r := b.RemoveFile(i);
        ok := r.Ok?;
    }
  }

  /** The next call, unless it is spent. */
  method Step(b: Object, calls: seq<Call>, oks: seq<bool>, ghost first: seq<BinderFile>, ghost mem: Memory) returns (ok: bool)
    requires b.Valid() && Proper(calls, mem) && |oks| < |calls| && AllExplained(b.heap, first, calls, oks, mem, |oks|)
    requires b.Others() == Without(mem, Taken(calls, oks, |oks|)) && b.Contents() == Replay(first, calls, oks, mem, |oks|)
    modifies b`files, b`filesBlock, b`count, b.files, b.heap
    ensures b.Valid() && (b.files == old(b.files) || fresh(b.files))
    ensures AllExplained(b.heap, first, calls, oks + [ok], mem, |oks| + 1)
    ensures b.Others() == Without(mem, Taken(calls, oks + [ok], |oks| + 1))
    ensures b.Contents() == Replay(first, calls, oks + [ok], mem, |oks| + 1)
  {
    hide Base, Blocks, Holds, Without, FilesOf, After, TakenBy, ProperCall, OneOf, AllExplained, Object.Owned, Object.Contents;
    ghost var k, taken := |oks|, Taken(calls, oks, |oks|);
    ok := false;
    if Spent(calls[|oks|], Taken(calls, oks, |oks|)) {
      NothingDone(b.Contents(), calls[k], mem, taken);
    } else {
      StillTheCallers(calls, mem, k, taken);
      ok := Perform(b, calls[|oks|], mem, taken);
    }
    SamePrefix(calls, oks, [ok], first, mem, k);
    OneMoreExplained(b.heap, first, calls, oks, ok, mem);
  }

  /** Any sequence of calls on an object, then its destruction. A payload may be handed over again when
      taking it has failed; once it is taken, further calls with it are left out. The file list follows the
      calls that succeeded; afterwards the heap holds exactly what it held before, without the object's
      blocks and without the payloads that were taken over: each freed once, and nothing else. */
  method LiveAndDie(b: Object, calls: seq<Call>) returns (oks: seq<bool>, ghost files: seq<BinderFile>)
    requires b.Valid() && Proper(calls, b.Others())
    modifies b`files, b`filesBlock, b`count, b.files, b.heap
    ensures |oks| == |calls| && AllExplained(b.heap, old(b.Contents()), calls, oks, old(b.Others()), |calls|)
    ensures files == Replay(old(b.Contents()), calls, oks, old(b.Others()), |calls|)
    ensures b.heap.Valid() && b.heap.mem == Without(old(b.Others()), Taken(calls, oks, |calls|))
  {
    hide Base, Blocks, Holds, Without, FilesOf, After, TakenBy, ProperCall, OneOf, AllExplained, Taken, Replay, Object.Owned, Object.Contents;
    ghost var mem, first := b.Others(), b.Contents();
    oks := [];
    EmptyRest(mem);
    NothingCalled(b.heap, first, calls, mem);
    for k := 0 to |calls|
      invariant b.Valid() && |oks| == k && (b.files == old(b.files) || fresh(b.files))
      invariant b.Others() == Without(mem, Taken(calls, oks, k))
      invariant b.Contents() == Replay(first, calls, oks, mem, k) && AllExplained(b.heap, first, calls, oks, mem, k)
    {
      var ok := Step(b, calls, oks, first, mem);
      oks := oks + [ok];
    }
    files := b.Contents();
    b.Destroy();
  }

  // ------------------------------------------------------------------ from nothing to nothing

  /** Blocks of the caller's are the same in a memory that has only grown. */
  lemma {:induction false} SameReplay(fs: seq<BinderFile>, calls: seq<Call>, oks: seq<bool>, mem0: Memory, mem: Memory, lost: multiset<nat>, k: nat)
    requires Proper(calls, mem0) && Staged(mem0, mem, lost) && k <= |calls| && k <= |oks|
    ensures Replay(fs, calls, oks, mem, k) == Replay(fs, calls, oks, mem0, k)
  {
    hide Staged;
    if k > 0 {
      SameReplay(fs, calls, oks, mem0, mem, lost, k - 1);
      SameAfter(Replay(fs, calls, oks, mem0, k - 1), calls[k - 1], oks[k - 1], mem0, mem, lost);
    }
  }

  lemma SameAfter(fs: seq<BinderFile>, c: Call, ok: bool, mem0: Memory, mem: Memory, lost: multiset<nat>)
    requires ProperCall(c, mem0) && Staged(mem0, mem, lost)
    ensures After(fs, c, ok, mem) == After(fs, c, ok, mem0) && ProperCall(c, mem)
  {
    if c.Take? && c.data.Some? {
      assert c.data.value in Without(mem, lost);
    }
  }

  lemma StillProper(calls: seq<Call>, mem0: Memory, mem: Memory, lost: multiset<nat>)
    requires Proper(calls, mem0) && Staged(mem0, mem, lost)
    ensures Proper(calls, mem)
  {
    hide Staged, ProperCall, After;
    forall i | 0 <= i < |calls|
      ensures ProperCall(calls[i], mem)
    {
      SameAfter([], calls[i], false, mem0, mem, lost);
    }
  }

  lemma SameExplained(heap: Heap, fs: seq<BinderFile>, calls: seq<Call>, oks: seq<bool>, mem0: Memory, mem: Memory, lost: multiset<nat>)
    requires Proper(calls, mem0) && Staged(mem0, mem, lost) && |oks| == |calls|
    requires AllExplained(heap, fs, calls, oks, mem, |calls|)
    ensures AllExplained(heap, fs, calls, oks, mem0, |calls|)
  {
    hide Staged, Replay, Taken, Proper;
    forall k | 0 <= k < |calls|
      ensures Explained(heap, fs, calls, oks, mem0, k)
    {
      SameReplay(fs, calls, oks, mem0, mem, lost, k);
      assert Explained(heap, fs, calls, oks, mem, k);
    }
  }

  /** What was taken was the caller's, so what was lost is still there. */
  lemma LostRemains(calls: seq<Call>, oks: seq<bool>, mem0: Memory, mem: Memory, lost: multiset<nat>)
    requires Proper(calls, mem0) && Staged(mem0, mem, lost) && |oks| == |calls|
    ensures var taken := Taken(calls, oks, |calls|); Staged(Without(mem0, taken), Without(mem, taken), lost)
  {
    hide Taken;
    var taken := Taken(calls, oks, |calls|);
    forall b | b in taken
      ensures b in mem0
    {
      TakenEarlier(calls, oks, |calls|, b);
      var i :| 0 <= i < |calls| && calls[i].Take? && calls[i].data == Some(b);
      assert ProperCall(calls[i], mem0);
    }
    assert Without(Without(mem, taken), lost) == Without(Without(mem, lost), taken);
  }

  /** Memory is what it was exactly when no block was lost. */
  lemma RestoredExactly(mem0: Memory, mem: Memory, lost: multiset<nat>)
    requires Staged(mem0, mem, lost)
    ensures mem == mem0 <==> |lost| == 0
    ensures |lost| == 0 <==> lost == multiset{}
  {
    if |lost| == 0 {
      assert lost == multiset{};
      EmptyRest(mem);
    } else {
      var b :| b in lost;
      assert b in mem && b !in mem0;
    }
  }

  /** The files an object starts with. */
  function StartFiles(env: Env, image: Option<bytes>): Result<seq<BinderFile>> {
    if image.None? then Ok([])
    else
      var b :- ParseArchive(env, image.value);
      Ok(b.files)
  }

  /** Nothing goes to the wrong allocator: it is the default one, or there is no name to read. */
  ghost predicate NothingToLose(heap: Heap, env: Env, image: Option<bytes>) {
    || heap.isDefault
    || image.None?
    || (StartFiles(env, image).Ok? && forall i :: 0 <= i < |StartFiles(env, image).value| ==> StartFiles(env, image).value[i].name.None?)
  }

  lemma LostExactly(heap: Heap, env: Env, image: Option<bytes>, lost: multiset<nat>)
    requires StartFiles(env, image).Ok? && if image.None? then lost == multiset{} else NamesLost(heap, lost, StartFiles(env, image).value)
    ensures |lost| == 0 <==> NothingToLose(heap, env, image)
  {
    hide ParseArchive;
    NoneNamedFiles(StartFiles(env, image).value, |StartFiles(env, image).value|);
  }

  /** The same from nothing: an archive is read or made in a heap and lives there. Whatever fails, the
      heap ends up with what it held, without the payloads that were taken over; under an allocator other
      than the default one, with the names' first blocks besides. */
  method WholeLife(heap: Heap, env: Env, image: Option<bytes>, version: bytes, calls: seq<Call>)
    returns (r: Result<seq<bool>>, ghost files: seq<BinderFile>, ghost lost: multiset<nat>)
    requires heap.Valid() && Proper(calls, heap.mem)
    requires DecodesText(env.sjis) && DecodesText(env.utf16le) && DecodesText(env.utf16be)
    modifies heap
    ensures heap.Valid()
    ensures r.Err? ==> heap.RanOut(r.error) || StartFiles(env, image) == Err(r.error)
    ensures r.Err? ==> Staged(old(heap.mem), heap.mem, lost)
    ensures r.Ok? ==> |r.value| == |calls| && StartFiles(env, image).Ok?
    ensures r.Ok? ==> Staged(Without(old(heap.mem), Taken(calls, r.value, |calls|)), heap.mem, lost)
    ensures heap.isDefault && r.Err? ==> heap.mem == old(heap.mem)
    ensures r.Ok? ==> (heap.mem == Without(old(heap.mem), Taken(calls, r.value, |calls|)) <==> NothingToLose(heap, env, image))
    ensures r.Ok? ==> |lost| == if heap.isDefault || image.None? then 0 else NamedFiles(StartFiles(env, image).value, |StartFiles(env, image).value|)
    ensures r.Ok? ==> files == Replay(StartFiles(env, image).value, calls, r.value, old(heap.mem), |calls|)
    ensures r.Ok? ==> AllExplained(heap, StartFiles(env, image).value, calls, r.value, old(heap.mem), |calls|)
  {
    hide Base, Blocks, Holds, Without, ParseArchive, DecodesText, Proper, Taken, Replay, Staged, AllExplained, NamedFiles, NothingToLose;
    files, lost := [], multiset{};
    ghost var mem0 := heap.mem;
    NothingStaged(mem0);
    var b;
    if image.None? {
      b := Create(heap, version);
    } else {
      b, lost := ReadObject(heap, env, image.value, version);
    }
    if b.Err? {
      RestoredExactly(mem0, heap.mem, lost);
      return Err(b.error), files, lost;
    }
    ghost var mem1, first := b.value.Others(), b.value.Contents();
    StillProper(calls, mem0, mem1, lost);
    var oks;
    oks, files := LiveAndDie(b.value, calls);
    SameReplay(first, calls, oks, mem0, mem1, lost, |calls|);
    SameExplained(heap, first, calls, oks, mem0, mem1, lost);
    LostRemains(calls, oks, mem0, mem1, lost);
    RestoredExactly(Without(mem0, Taken(calls, oks, |calls|)), heap.mem, lost);
    LostExactly(heap, env, image, lost);
    return Ok(oks), files, lost;
  }
}
