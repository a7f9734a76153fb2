/** The BHD5 reader: a first pass over the range records to size two pools, then a second pass that
    hands out slices of them by cursor; and the lookup table over the result. */
module Bhd5Reading {
  import opened Bytes
  import opened Reading
  import opened Bhd5
  import opened Bhd5Parsing

  // ------------------------------------------------------------------ pools and slices

  /** A range record whose ranges live in a pool. */
  datatype Slice = Slice(key: bytes, start: nat, count: nat)

  datatype Slot = Slot(pathHash: nat, padded: nat, unpadded: nat, offset: nat, sha: Option<Slice>, aes: Option<Slice>)

  /** The two kinds of range record. */
  datatype Which = Sha | Aes

  function SealedOf(f: File, w: Which): Option<Sealed> { if w.Sha? then f.sha else f.aes }
  function SliceOf(s: Slot, w: Which): Option<Slice> { if w.Sha? then s.sha else s.aes }
  function KeySizeOf(w: Which): nat { if w.Sha? then SHA_SIZE else AES_SIZE }

  function RangesOf(s: Option<Sealed>): seq<Range> { if s.None? then [] else s.value.ranges }

  /** All ranges of one kind, file after file: what the pool must hold. */
  function AllRanges(files: seq<File>, w: Which): seq<Range> {
    if files == [] then [] else AllRanges(files[..|files| - 1], w) + RangesOf(SealedOf(files[|files| - 1], w))
  }

  predicate InPool(s: Option<Slice>, size: nat) {
    s.Some? ==> s.value.start + s.value.count <= size
  }

  function Resolve(s: Option<Slice>, pool: seq<Range>): Option<Sealed>
    requires InPool(s, |pool|)
  {
    if s.None? then None else Some(Sealed(s.value.key, pool[s.value.start..s.value.start + s.value.count]))
  }

  /** The slices of one kind lie in the pool one after the other, in file order, without gaps. */
  ghost predicate Tiled(slots: seq<Slot>, w: Which, size: nat) {
    if slots == [] then size == 0
    else
      var s := SliceOf(slots[|slots| - 1], w);
      if s.None? then Tiled(slots[..|slots| - 1], w, size)
      else s.value.start + s.value.count == size && Tiled(slots[..|slots| - 1], w, s.value.start)
  }

  /** Every pool entry belongs to the slice of exactly one file. */
  lemma {:induction false} TiledCovers(slots: seq<Slot>, w: Which, size: nat, p: nat)
    requires Tiled(slots, w, size)
    ensures forall i :: 0 <= i < |slots| ==> InPool(SliceOf(slots[i], w), size)
    ensures p < size ==> exists i :: 0 <= i < |slots| && Owns(slots[i], w, p)
    ensures forall i, j :: 0 <= i < |slots| && 0 <= j < |slots| && Owns(slots[i], w, p) && Owns(slots[j], w, p) ==> i == j
    ensures p >= size ==> forall i :: 0 <= i < |slots| ==> !Owns(slots[i], w, p)
  {
    if slots != [] {
      var n, s := |slots| - 1, SliceOf(slots[|slots| - 1], w);
      var size' := if s.None? then size else s.value.start;
      TiledCovers(slots[..n], w, size', p);
      if p < size' {
        var i :| 0 <= i < n && Owns(slots[..n][i], w, p);
        assert Owns(slots[i], w, p);
      } else if p < size {
        assert Owns(slots[n], w, p);
      }
      forall i | 0 <= i < n
        ensures slots[..n][i] == slots[i]
      {
      }
    }
  }

  predicate Owns(s: Slot, w: Which, p: nat) {
    SliceOf(s, w).Some? && SliceOf(s, w).value.start <= p < SliceOf(s, w).value.start + SliceOf(s, w).value.count
  }

  lemma AllRangesStep(files: seq<File>, f: File, w: Which)
    ensures AllRanges(files + [f], w) == AllRanges(files, w) + RangesOf(SealedOf(f, w))
  {
    assert (files + [f])[..|files|] == files;
  }

  // ------------------------------------------------------------------ reading one record

  /** Steps to a record and reads its key and the number of its ranges; the cursor stops in front
      of the ranges. */
  method ReadCount(rd: BinaryReader, off: nat, keySize: nat) returns (r: Result<(bytes, nat)>)
    requires rd.Valid()
    modifies rd`pos
    ensures rd.Valid()
    ensures r == var pos :- SeekTo(rd.buf, off);
                 var n :- RangeCount(rd.buf, pos, keySize, rd.bigEndian);
                 Ok((rd.buf[pos..pos + keySize], n))
    ensures r.Ok? ==> rd.pos == off + keySize + 4
  {
    var _ :- rd.Seek(off);
    var key :- rd.ReadBytes(keySize);
    var n :- rd.ReadSInt(4);
    if n < 0 {
      return Err(OutOfRange);
    }
    if n > MAX_RANGES || 16 * n > |rd.buf| - rd.pos {
      return Err(Truncated);
    }
    return Ok((key, n));
  }

  /** `t` is `s` with `part` written over it at `at`. */
  ghost predicate Spliced<T>(t: seq<T>, s: seq<T>, at: nat, part: seq<T>) {
    at + |part| <= |s| && t == s[..at] + part + s[at + |part|..]
  }

  lemma SplicedNothing<T>(s: seq<T>, at: nat)
    requires at <= |s|
    ensures Spliced(s, s, at, [])
  {
  }

  /** Copies `n` ranges into the pool at the cursor; the record was checked to hold that many. */
  method ReadRangesInto(rd: BinaryReader, pool: array<Range>, cursor: nat, n: nat)
    requires rd.Valid() && rd.pos + 16 * n <= |rd.buf| && cursor + n <= pool.Length
    modifies rd`pos, pool
    ensures rd.Valid()
    ensures Spliced(pool[..], old(pool[..]), cursor, ReadRanges(rd.buf, old(rd.pos), rd.bigEndian, n))
  {
    hide Dec, Signed;
    ghost var pos := rd.pos;
    for i := 0 to n
      invariant rd.Valid() && rd.pos == pos + 16 * i
      invariant forall j :: 0 <= j < cursor || cursor + i <= j < pool.Length ==> pool[j] == old(pool[j])
      invariant forall j :: 0 <= j < i ==> pool[cursor + j] == ReadRange(rd.buf, pos + 16 * j, rd.bigEndian)
    {
      var start := rd.ReadSInt(8);
      var end := rd.ReadSInt(8);
      pool[cursor + i] := Range(start.value, end.value);
    }
  }

  // ------------------------------------------------------------------ the two passes

  lemma {:induction false} FilesFailEarly(buf: bytes, be: bool, hs: seq<Header>, k: nat, n: nat)
    requires k <= n <= |hs| && ParseFiles(buf, be, hs, k).Err?
    ensures ParseFiles(buf, be, hs, n) == ParseFiles(buf, be, hs, k)
    decreases n - k
  {
    hide ParseFile;
    if k < n {
      FilesFailEarly(buf, be, hs, k + 1, n);
    }
  }

  /** Counts the ranges of one kind a file brings along. */
  method CountOne(rd: BinaryReader, off: nat, w: Which) returns (r: Result<nat>)
    requires rd.Valid()
    modifies rd`pos
    ensures rd.Valid()
    ensures r == var s :- ParseSealed(rd.buf, off, KeySizeOf(w), rd.bigEndian); Ok(|RangesOf(s)|)
  {
    if off == 0 {
      return Ok(0);
    }
    var back := rd.pos;
    var c :- ReadCount(rd, off, KeySizeOf(w));
    rd.pos := back;
    return Ok(c.1);
  }

  lemma FileStep(buf: bytes, be: bool, hs: seq<Header>, k: nat)
    requires k < |hs| && ParseFiles(buf, be, hs, k).Ok?
    ensures var sha, aes := ParseSealed(buf, hs[k].shaAt, SHA_SIZE, be), ParseSealed(buf, hs[k].aesAt, AES_SIZE, be);
      var h, next := hs[k], ParseFiles(buf, be, hs, k + 1);
      && (sha.Err? ==> next == Err(sha.error))
      && (sha.Ok? && aes.Err? ==> next == Err(aes.error))
      && (sha.Ok? && aes.Ok? ==> next == Ok(ParseFiles(buf, be, hs, k).value
                                            + [File(h.pathHash, h.padded, h.unpadded, h.offset, sha.value, aes.value)]))
  {
    hide ParseSealed;
  }

  /** The first pass: what the pools must hold. It fails exactly when the index cannot be read, and
      nothing behind it can fail any more. */
  method CountRanges(rd: BinaryReader, hs: seq<Header>) returns (r: Result<(nat, nat)>)
    requires rd.Valid()
    modifies rd`pos
    ensures rd.Valid()
    ensures r == var files :- ParseFiles(rd.buf, rd.bigEndian, hs, |hs|); Ok((|AllRanges(files, Sha)|, |AllRanges(files, Aes)|))
  {
    hide ParseFiles, ParseSealed;
    var shaTotal, aesTotal := 0, 0;
    ghost var files: seq<File> := [];
    NoFiles(rd.buf, rd.bigEndian, hs);
    for i := 0 to |hs|
      invariant rd.Valid()
      invariant ParseFiles(rd.buf, rd.bigEndian, hs, i) == Ok(files)
      invariant shaTotal == |AllRanges(files, Sha)| && aesTotal == |AllRanges(files, Aes)|
    {
      FileStep(rd.buf, rd.bigEndian, hs, i);
      var sha := CountOne(rd, hs[i].shaAt, Sha);
      if sha.Err? {
        FilesFailEarly(rd.buf, rd.bigEndian, hs, i + 1, |hs|);
        return Err(sha.error);
      }
      shaTotal := shaTotal + sha.value;
      var aes := CountOne(rd, hs[i].aesAt, Aes);
      if aes.Err? {
        FilesFailEarly(rd.buf, rd.bigEndian, hs, i + 1, |hs|);
        return Err(aes.error);
      }
      aesTotal := aesTotal + aes.value;
      ghost var f := ParseFiles(rd.buf, rd.bigEndian, hs, i + 1).value[|files|];
      AllRangesStep(files, f, Sha);
      AllRangesStep(files, f, Aes);
      files := files + [f];
    }
    return Ok((shaTotal, aesTotal));
  }

  lemma NoFiles(buf: bytes, be: bool, hs: seq<Header>)
    ensures ParseFiles(buf, be, hs, 0) == Ok([])
  {
  }

  lemma SealedRead(buf: bytes, off: nat, w: Which, be: bool)
    requires off > 0 && ParseSealed(buf, off, KeySizeOf(w), be).Ok?
    ensures var pos, n := off + KeySizeOf(w) + 4, RangeCount(buf, off, KeySizeOf(w), be);
      && SeekTo(buf, off) == Ok(off) && n.Ok? && pos + 16 * n.value <= |buf|
      && ParseSealed(buf, off, KeySizeOf(w), be).value == Some(Sealed(buf[off..off + KeySizeOf(w)], ReadRanges(buf, pos, be, n.value)))
  {
    hide ReadRanges, NonNeg;
  }

  /** Hands out the next slice of a pool and fills it. */
  method ReadInto(rd: BinaryReader, off: nat, w: Which, pool: array<Range>, cursor: nat) returns (s: Option<Slice>, next: nat)
    requires rd.Valid() && ParseSealed(rd.buf, off, KeySizeOf(w), rd.bigEndian).Ok?
    requires cursor + |RangesOf(ParseSealed(rd.buf, off, KeySizeOf(w), rd.bigEndian).value)| <= pool.Length
    modifies rd`pos, pool
    ensures rd.Valid()
    ensures var sealed := ParseSealed(rd.buf, off, KeySizeOf(w), rd.bigEndian).value;
      && next == cursor + |RangesOf(sealed)|
      && Spliced(pool[..], old(pool[..]), cursor, RangesOf(sealed))
      && (if sealed.None? then s == None else s == Some(Slice(sealed.value.key, cursor, |RangesOf(sealed)|)))
  {
    hide ParseSealed, RangeCount, ReadRanges, Spliced, KeySizeOf;
    SplicedNothing(pool[..], cursor);
    if off == 0 {
      NoRecord(rd.buf, w, rd.bigEndian);
      return None, cursor;
    }
    SealedRead(rd.buf, off, w, rd.bigEndian);
    var back := rd.pos;
    var c := ReadCount(rd, off, KeySizeOf(w));
    if c.value.1 > 0 {
      ReadRangesInto(rd, pool, cursor, c.value.1);
    }
    rd.pos := back;
    return Some(Slice(c.value.0, cursor, c.value.1)), cursor + c.value.1;
  }

  lemma NoRecord(buf: bytes, w: Which, be: bool)
    ensures ParseSealed(buf, 0, KeySizeOf(w), be) == Ok(None)
  {
  }

  /** Slots agree with the files they stand for, their ranges resolved in the pools. */
  ghost predicate SlotIs(s: Slot, f: File, sha: seq<Range>, aes: seq<Range>) {
    && s.pathHash == f.pathHash && s.padded == f.padded && s.unpadded == f.unpadded && s.offset == f.offset
    && InPool(s.sha, |sha|) && Resolve(s.sha, sha) == f.sha
    && InPool(s.aes, |aes|) && Resolve(s.aes, aes) == f.aes
  }

  ghost predicate SlotsAre(slots: seq<Slot>, files: seq<File>, sha: seq<Range>, aes: seq<Range>) {
    |slots| == |files| && forall i :: 0 <= i < |slots| ==> SlotIs(slots[i], files[i], sha, aes)
  }

  lemma ResolveGrows(s: Option<Slice>, pool: seq<Range>, more: seq<Range>)
    requires InPool(s, |pool|)
    ensures InPool(s, |pool + more|) && Resolve(s, pool + more) == Resolve(s, pool)
  {
    if s.Some? {
      var from, to := s.value.start, s.value.start + s.value.count;
      assert (pool + more)[from..to] == pool[from..to];
    }
  }

  /** What was handed out stays what it was when the pools fill up further. */
  lemma SlotsGrow(slots: seq<Slot>, files: seq<File>, sha: seq<Range>, aes: seq<Range>, s: Slot, f: File)
    requires SlotsAre(slots, files, sha, aes)
    requires SlotIs(s, f, sha + RangesOf(f.sha), aes + RangesOf(f.aes))
    ensures SlotsAre(slots + [s], files + [f], sha + RangesOf(f.sha), aes + RangesOf(f.aes))
  {
    forall i | 0 <= i < |slots|
      ensures SlotIs(slots[i], files[i], sha + RangesOf(f.sha), aes + RangesOf(f.aes))
    {
      ResolveGrows(slots[i].sha, sha, RangesOf(f.sha));
      ResolveGrows(slots[i].aes, aes, RangesOf(f.aes));
    }
  }

  lemma FreshSlice(s: Option<Sealed>, pool: seq<Range>)
    ensures var t := if s.None? then None else Some(Slice(s.value.key, |pool|, |s.value.ranges|));
      InPool(t, |pool + RangesOf(s)|) && Resolve(t, pool + RangesOf(s)) == s
  {
    if s.Some? {
      assert (pool + s.value.ranges)[|pool|..|pool| + |s.value.ranges|] == s.value.ranges;
    }
  }

  lemma TiledGrows(slots: seq<Slot>, w: Which, size: nat, s: Slot)
    requires Tiled(slots, w, size) && (SliceOf(s, w).Some? ==> SliceOf(s, w).value.start == size)
    ensures Tiled(slots + [s], w, if SliceOf(s, w).None? then size else size + SliceOf(s, w).value.count)
  {
    assert (slots + [s])[..|slots|] == slots;
  }

  lemma SplicedPrefix<T>(t: seq<T>, s: seq<T>, at: nat, part: seq<T>)
    requires Spliced(t, s, at, part)
    ensures |t| == |s| && t[..at + |part|] == s[..at] + part
  {
  }

  lemma {:induction false} FilesPrefix(buf: bytes, be: bool, hs: seq<Header>, k: nat, n: nat)
    requires k <= n <= |hs| && ParseFiles(buf, be, hs, n).Ok?
    ensures ParseFiles(buf, be, hs, k).Ok? && ParseFiles(buf, be, hs, k).value == ParseFiles(buf, be, hs, n).value[..k]
    decreases n
  {
    hide ParseFile;
    if k < n {
      FilesPrefix(buf, be, hs, k, n - 1);
    } else {
      assert ParseFiles(buf, be, hs, n).value[..n] == ParseFiles(buf, be, hs, n).value;
    }
  }

  lemma {:induction false} RangesPrefix(files: seq<File>, w: Which, k: nat)
    requires k <= |files|
    ensures |AllRanges(files[..k], w)| <= |AllRanges(files, w)|
    ensures k < |files| ==> |AllRanges(files[..k], w)| + |RangesOf(SealedOf(files[k], w))| <= |AllRanges(files, w)|
    decreases |files|
  {
    if k < |files| {
      var init := files[..|files| - 1];
      RangesPrefix(init, w, k);
      assert init[..k] == files[..k];
    } else {
      assert files[..k] == files;
    }
  }

  /** One step of the second pass: both records of a file, each into its pool. */
  method FillOne(rd: BinaryReader, h: Header, shaPool: array<Range>, aesPool: array<Range>, shaAt: nat, aesAt: nat, ghost f: File)
    returns (s: Slot, shaNext: nat, aesNext: nat)
    requires rd.Valid() && ParseFile(rd.buf, rd.bigEndian, h) == Ok(f) && shaPool != aesPool
    requires shaAt + |RangesOf(f.sha)| <= shaPool.Length && aesAt + |RangesOf(f.aes)| <= aesPool.Length
    modifies rd`pos, shaPool, aesPool
    ensures rd.Valid()
    ensures shaNext == shaAt + |RangesOf(f.sha)| && aesNext == aesAt + |RangesOf(f.aes)|
    ensures shaPool[..shaNext] == old(shaPool[..shaAt]) + RangesOf(f.sha)
    ensures aesPool[..aesNext] == old(aesPool[..aesAt]) + RangesOf(f.aes)
    ensures SlotIs(s, f, shaPool[..shaNext], aesPool[..aesNext])
    ensures s.sha.Some? == f.sha.Some? && (s.sha.Some? ==> s.sha.value.start == shaAt && s.sha.value.count == |RangesOf(f.sha)|)
    ensures s.aes.Some? == f.aes.Some? && (s.aes.Some? ==> s.aes.value.start == aesAt && s.aes.value.count == |RangesOf(f.aes)|)
  {
    hide ParseSealed, Spliced, Resolve;
    var sha, aes;
    sha, shaNext := ReadInto(rd, h.shaAt, Sha, shaPool, shaAt);
    SplicedPrefix(shaPool[..], old(shaPool[..]), shaAt, RangesOf(f.sha));
    FreshSlice(f.sha, old(shaPool[..shaAt]));
    aes, aesNext := ReadInto(rd, h.aesAt, Aes, aesPool, aesAt);
    SplicedPrefix(aesPool[..], old(aesPool[..]), aesAt, RangesOf(f.aes));
    FreshSlice(f.aes, old(aesPool[..aesAt]));
    s := Slot(h.pathHash, h.padded, h.unpadded, h.offset, sha, aes);
  }

  lemma FileAt(buf: bytes, be: bool, hs: seq<Header>, files: seq<File>, i: nat)
    requires ParseFiles(buf, be, hs, |hs|) == Ok(files) && i < |hs|
    ensures |files| == |hs| && ParseFile(buf, be, hs[i]) == Ok(files[i]) && files[..i + 1] == files[..i] + [files[i]]
  {
    hide ParseFile;
    FilesPrefix(buf, be, hs, i, |hs|);
    FilesPrefix(buf, be, hs, i + 1, |hs|);
    assert files[..i + 1][i] == files[i];
  }

  /** The state of the second pass after some files: their slots resolve to them, and the filled
      parts of both pools are their ranges, tiled by their slices. */
  ghost predicate Filled(slots: seq<Slot>, files: seq<File>, sha: seq<Range>, aes: seq<Range>) {
    && SlotsAre(slots, files, sha, aes)
    && sha == AllRanges(files, Sha) && Tiled(slots, Sha, |sha|)
    && aes == AllRanges(files, Aes) && Tiled(slots, Aes, |aes|)
  }

  lemma FilledGrows(slots: seq<Slot>, files: seq<File>, sha: seq<Range>, aes: seq<Range>, s: Slot, f: File)
    requires Filled(slots, files, sha, aes)
    requires SlotIs(s, f, sha + RangesOf(f.sha), aes + RangesOf(f.aes))
    requires s.sha.Some? == f.sha.Some? && (s.sha.Some? ==> s.sha.value.start == |sha| && s.sha.value.count == |RangesOf(f.sha)|)
    requires s.aes.Some? == f.aes.Some? && (s.aes.Some? ==> s.aes.value.start == |aes| && s.aes.value.count == |RangesOf(f.aes)|)
    ensures Filled(slots + [s], files + [f], sha + RangesOf(f.sha), aes + RangesOf(f.aes))
  {
    hide SlotsAre, SlotIs, Tiled, AllRanges;
    AllRangesStep(files, f, Sha);
    AllRangesStep(files, f, Aes);
    SlotsGrow(slots, files, sha, aes, s, f);
    TiledGrows(slots, Sha, |sha|, s);
    TiledGrows(slots, Aes, |aes|, s);
  }

  lemma Room(slots: seq<Slot>, files: seq<File>, i: nat, sha: seq<Range>, aes: seq<Range>)
    requires i < |files| && Filled(slots, files[..i], sha, aes)
    ensures |sha| + |RangesOf(files[i].sha)| <= |AllRanges(files, Sha)|
    ensures |aes| + |RangesOf(files[i].aes)| <= |AllRanges(files, Aes)|
  {
    hide SlotsAre, Tiled, AllRanges;
    RangesPrefix(files, Sha, i);
    RangesPrefix(files, Aes, i);
  }

  /** The second pass: with pools of exactly the counted sizes every write is in bounds, every file
      gets its own ranges, and the slices tile both pools. */
  method FillPools(rd: BinaryReader, hs: seq<Header>, shaPool: array<Range>, aesPool: array<Range>, ghost files: seq<File>)
    returns (slots: array<Slot>)
    requires rd.Valid() && ParseFiles(rd.buf, rd.bigEndian, hs, |hs|) == Ok(files) && shaPool != aesPool
    requires shaPool.Length == |AllRanges(files, Sha)| && aesPool.Length == |AllRanges(files, Aes)|
    modifies rd`pos, shaPool, aesPool
    ensures rd.Valid() && fresh(slots) && slots.Length == |hs|
    ensures Filled(slots[..], files, shaPool[..], aesPool[..])
  {
    hide ParseFiles, ParseFile, SlotIs, Filled, RangesOf, AllRanges;
    slots := new Slot[|hs|](_ => Slot(0, 0, 0, 0, None, None));
    var shaAt: nat, aesAt: nat := 0, 0;
    FileCount(rd.buf, rd.bigEndian, hs, files);
    NothingHandedOut(files, slots[..], shaPool[..], aesPool[..]);
    for i := 0 to |hs|
      invariant rd.Valid() && shaAt <= shaPool.Length && aesAt <= aesPool.Length
      invariant Filled(slots[..i], files[..i], shaPool[..shaAt], aesPool[..aesAt])
    {
      FileAt(rd.buf, rd.bigEndian, hs, files, i);
      ghost var before, sha, aes := slots[..i], shaPool[..shaAt], aesPool[..aesAt];
      Room(before, files, i, sha, aes);
      var s;
      s, shaAt, aesAt := FillOne(rd, hs[i], shaPool, aesPool, shaAt, aesAt, files[i]);
      slots[i] := s;
      assert slots[..i + 1] == before + [s];
      FilledGrows(before, files[..i], sha, aes, s, files[i]);
    }
    assert files[..|hs|] == files && slots[..|hs|] == slots[..];
    FilledSizes(slots[..], files, shaPool[..shaAt], aesPool[..aesAt]);
    assert shaPool[..shaAt] == shaPool[..] && aesPool[..aesAt] == aesPool[..];
  }

  lemma FilledSizes(slots: seq<Slot>, files: seq<File>, sha: seq<Range>, aes: seq<Range>)
    requires Filled(slots, files, sha, aes)
    ensures |sha| == |AllRanges(files, Sha)| && |aes| == |AllRanges(files, Aes)|
  {
  }

  lemma FileCount(buf: bytes, be: bool, hs: seq<Header>, files: seq<File>)
    requires ParseFiles(buf, be, hs, |hs|) == Ok(files)
    ensures |files| == |hs|
  {
    hide ParseFile;
  }

  lemma NothingHandedOut(files: seq<File>, slots: seq<Slot>, sha: seq<Range>, aes: seq<Range>)
    ensures Filled(slots[..0], files[..0], sha[..0], aes[..0])
  {
  }
}
