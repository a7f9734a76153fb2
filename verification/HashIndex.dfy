/** The bucketed path-hash index of BND4: counting sort into buckets on mutable arrays, each
    bucket ordered by hash, and the fact that looking a hash up in it is the linear scan. */
module HashIndex {
  import opened Bytes

  /** One record of the index: a path hash and the position of the file it came from. */
  datatype Entry = Entry(hash: nat, index: nat)

  function Entries(hashes: seq<nat>): (es: seq<Entry>)
    ensures |es| == |hashes|
    ensures forall i :: 0 <= i < |es| ==> es[i] == Entry(hashes[i], i)
  {
    seq(|hashes|, i requires 0 <= i < |hashes| => Entry(hashes[i], i))
  }

  // ------------------------------------------------------------------ buckets

  function Group(e: Entry, g: nat): (r: nat)
    requires g > 0
    ensures r < g
  {
    e.hash % g
  }

  /** The entries of group `r`, in file order. */
  function Bucket(es: seq<Entry>, g: nat, r: nat): seq<Entry>
    requires g > 0
  {
    if |es| == 0 then []
    else
      var last := es[|es| - 1];
      Bucket(es[..|es| - 1], g, r) + if Group(last, g) == r then [last] else []
  }

  /** Where the slice of group `r` begins: the sizes of all earlier groups added up. */
  function Start(es: seq<Entry>, g: nat, r: nat): nat
    requires g > 0
  {
    if r == 0 then 0 else Start(es, g, r - 1) + |Bucket(es, g, r - 1)|
  }

  lemma StartStep(es: seq<Entry>, g: nat, r: nat)
    requires g > 0
    ensures Start(es, g, r + 1) == Start(es, g, r) + |Bucket(es, g, r)|
  {
  }

  lemma BucketAppend(es: seq<Entry>, e: Entry, g: nat, r: nat)
    requires g > 0
    ensures Bucket(es + [e], g, r) == Bucket(es, g, r) + if Group(e, g) == r then [e] else []
  {
    assert (es + [e])[..|es|] == es;
  }

  lemma BucketSnoc(es: seq<Entry>, g: nat, r: nat, i: nat)
    requires g > 0 && i < |es|
    ensures Bucket(es[..i + 1], g, r) == Bucket(es[..i], g, r) + if Group(es[i], g) == r then [es[i]] else []
  {
    assert es[..i + 1][..i] == es[..i];
  }

  lemma {:induction false} BucketPrefix(es: seq<Entry>, g: nat, r: nat, i: nat)
    requires g > 0 && i <= |es|
    ensures |Bucket(es[..i], g, r)| <= |Bucket(es, g, r)|
    decreases |es| - i
  {
    if i == |es| {
      assert es[..i] == es;
    } else {
      BucketSnoc(es, g, r, i);
      BucketPrefix(es, g, r, i + 1);
    }
  }

  /** While an entry of group `r` is still to come, its slice has a free slot. */
  lemma BucketHasSlot(es: seq<Entry>, g: nat, i: nat)
    requires g > 0 && i < |es|
    ensures |Bucket(es[..i], g, Group(es[i], g))| < |Bucket(es, g, Group(es[i], g))|
  {
    BucketSnoc(es, g, Group(es[i], g), i);
    BucketPrefix(es, g, Group(es[i], g), i + 1);
  }

  lemma {:induction false} StartSnoc(es: seq<Entry>, e: Entry, g: nat, r: nat)
    requires g > 0
    ensures Start(es + [e], g, r) == Start(es, g, r) + if Group(e, g) < r then 1 else 0
  {
    if r > 0 {
      StartSnoc(es, e, g, r - 1);
      assert (es + [e])[..|es|] == es;
    }
  }

  lemma {:induction false} StartOfNothing(g: nat, r: nat)
    requires g > 0
    ensures Start([], g, r) == 0
  {
    if r > 0 {
      StartOfNothing(g, r - 1);
    }
  }

  /** The slices fill the table: the last one ends at the number of entries. */
  lemma {:induction false} StartTotal(es: seq<Entry>, g: nat)
    requires g > 0
    ensures Start(es, g, g) == |es|
  {
    if |es| == 0 {
      StartOfNothing(g, g);
    } else {
      var init := es[..|es| - 1];
      StartTotal(init, g);
      assert init + [es[|es| - 1]] == es;
      StartSnoc(init, es[|es| - 1], g, g);
    }
  }

  lemma {:induction false} StartMonotone(es: seq<Entry>, g: nat, q: nat, r: nat)
    requires g > 0 && q <= r
    ensures Start(es, g, q) <= Start(es, g, r)
    decreases r
  {
    hide Start, Bucket;
    if q < r {
      StartStep(es, g, r - 1);
      StartMonotone(es, g, q, r - 1);
    }
  }

  lemma StartBound(es: seq<Entry>, g: nat, r: nat)
    requires g > 0 && r < g
    ensures Start(es, g, r) + |Bucket(es, g, r)| == Start(es, g, r + 1) <= |es|
  {
    hide Start, Bucket;
    StartStep(es, g, r);
    StartMonotone(es, g, r + 1, g);
    StartTotal(es, g);
  }

  lemma SlicesDisjoint(es: seq<Entry>, g: nat, q: nat, r: nat)
    requires g > 0 && q < g && r < g && q != r
    ensures Start(es, g, q) + |Bucket(es, g, q)| <= Start(es, g, r)
         || Start(es, g, r) + |Bucket(es, g, r)| <= Start(es, g, q)
  {
    hide Start, Bucket;
    StartStep(es, g, q);
    StartStep(es, g, r);
    if q < r {
      StartMonotone(es, g, q + 1, r);
    } else {
      StartMonotone(es, g, r + 1, q);
    }
  }

  // ------------------------------------------------------------------ what the table is

  ghost predicate Ascending(s: seq<Entry>) {
    forall i, j :: 0 <= i < j < |s| ==> s[i].hash <= s[j].hash
  }

  function Slice(t: seq<Entry>, es: seq<Entry>, g: nat, r: nat): (s: seq<Entry>)
    requires g > 0 && r < g && |t| == |es|
    ensures |s| == |Bucket(es, g, r)|
  {
    StartBound(es, g, r);
    t[Start(es, g, r)..Start(es, g, r) + |Bucket(es, g, r)|]
  }

  /** Slice `r` is its bucket, in ascending hash order. */
  ghost predicate Ordered(t: seq<Entry>, es: seq<Entry>, g: nat, r: nat)
    requires g > 0 && r < g && |t| == |es|
  {
    Ascending(Slice(t, es, g, r)) && multiset(Slice(t, es, g, r)) == multiset(Bucket(es, g, r))
  }

  /** `t` is the finished index of `es`: every slice is its bucket, in ascending hash order.
      Entries with equal hashes may stand in any order, as after an unstable sort. */
  ghost predicate IsIndex(t: seq<Entry>, es: seq<Entry>, g: nat)
    requires g > 0
  {
    && |t| == |es|
    && forall r :: 0 <= r < g ==> Ordered(t, es, g, r)
  }

  // ------------------------------------------------------------------ counting sort

  method CountBuckets(es: seq<Entry>, g: nat, lengths: array<nat>)
    requires g > 0 && lengths.Length == g
    modifies lengths
    ensures forall r :: 0 <= r < g ==> lengths[r] == |Bucket(es, g, r)|
  {
    for i := 0 to g
      invariant forall r :: 0 <= r < i ==> lengths[r] == 0
    {
      lengths[i] := 0;
    }
    assert es[..0] == [];
    for i := 0 to |es|
      invariant forall r :: 0 <= r < g ==> lengths[r] == |Bucket(es[..i], g, r)|
    {
      var q := es[i].hash % g;
      forall r | 0 <= r < g
        ensures |Bucket(es[..i + 1], g, r)| == |Bucket(es[..i], g, r)| + if r == q then 1 else 0
      {
        BucketSnoc(es, g, r, i);
      }
      lengths[q] := lengths[q] + 1;
    }
    assert es[..|es|] == es;
  }

  method PrefixSums(es: seq<Entry>, g: nat, lengths: array<nat>, offsets: array<nat>)
    requires g > 0 && lengths.Length == g && offsets.Length == g && lengths != offsets
    requires forall r :: 0 <= r < g ==> lengths[r] == |Bucket(es, g, r)|
    modifies offsets
    ensures forall r :: 0 <= r < g ==> offsets[r] == Start(es, g, r)
  {
    hide Start, Bucket;
    StartZero(es, g);
    var cur := 0;
    for i := 0 to g
      invariant cur == Start(es, g, i)
      invariant forall r :: 0 <= r < i ==> offsets[r] == Start(es, g, r)
    {
      StartStep(es, g, i);
      offsets[i] := cur;
      cur := cur + lengths[i];
    }
  }

  /** The beginning of every slice holds the entries of its group met so far. */
  ghost predicate Scattered(t: seq<Entry>, es: seq<Entry>, g: nat, i: nat)
    requires g > 0 && i <= |es| && |t| == |es|
  {
    forall r :: 0 <= r < g ==> Landed(t, es, g, i, r)
  }

  ghost predicate Landed(t: seq<Entry>, es: seq<Entry>, g: nat, i: nat, r: nat)
    requires g > 0 && i <= |es| && |t| == |es|
  {
    && Start(es, g, r) + |Bucket(es[..i], g, r)| <= |t|
    && t[Start(es, g, r)..Start(es, g, r) + |Bucket(es[..i], g, r)|] == Bucket(es[..i], g, r)
  }

  /** Placing the next entry at its group's cursor disturbs no other slice. */
  lemma ScatterStep(t: seq<Entry>, es: seq<Entry>, g: nat, i: nat)
    requires g > 0 && i < |es| && |t| == |es| && Scattered(t, es, g, i)
    ensures var pos := Start(es, g, Group(es[i], g)) + |Bucket(es[..i], g, Group(es[i], g))|;
            pos < |t| && Scattered(t[pos := es[i]], es, g, i + 1)
  {
    hide Start, Bucket, Group;
    var q := Group(es[i], g);
    var pos := Start(es, g, q) + |Bucket(es[..i], g, q)|;
    BucketHasSlot(es, g, i);
    StartBound(es, g, q);
    var t', i' := t[pos := es[i]], i + 1;
    forall r | 0 <= r < g
      ensures Landed(t', es, g, i', r)
    {
      BucketSnoc(es, g, r, i);
      var lo := Start(es, g, r);
      var n := |Bucket(es[..i], g, r)|;
      assert Landed(t, es, g, i, r);
      if r != q {
        SlicesDisjoint(es, g, q, r);
        BucketPrefix(es, g, r, i);
        assert t'[lo..lo + n] == t[lo..lo + n];
      } else {
        assert t'[lo..lo + n + 1] == t[lo..lo + n] + [es[i]];
      }
    }
  }

  /** The scatter pass. The array that held the bucket lengths is reused as the cursor. */
  method Scatter(es: seq<Entry>, g: nat, offsets: array<nat>, cursor: array<nat>, ordered: array<Entry>)
    requires g > 0 && offsets.Length == g && cursor.Length == g && ordered.Length == |es|
    requires offsets != cursor
    requires forall r :: 0 <= r < g ==> offsets[r] == Start(es, g, r)
    modifies cursor, ordered
    ensures Scattered(ordered[..], es, g, |es|)
  {
    hide Bucket, Start, Landed, Scattered;
    for i := 0 to g
      invariant forall r :: 0 <= r < i ==> cursor[r] == 0
      invariant forall r :: 0 <= r < g ==> offsets[r] == Start(es, g, r)
    {
      cursor[i] := 0;
    }
    ScatterBegin(ordered[..], es, g);
    for i := 0 to |es|
      invariant forall r :: 0 <= r < g ==> cursor[r] == |Bucket(es[..i], g, r)|
      invariant forall r :: 0 <= r < g ==> offsets[r] == Start(es, g, r)
      invariant Scattered(ordered[..], es, g, i)
    {
      var q := es[i].hash % g;
      var pos := offsets[q] + cursor[q];
      ScatterStep(ordered[..], es, g, i);
      forall r | 0 <= r < g
        ensures |Bucket(es[..i + 1], g, r)| == |Bucket(es[..i], g, r)| + if r == q then 1 else 0
      {
        BucketSnoc(es, g, r, i);
      }
      ghost var before := ordered[..];
      ordered[pos] := es[i];
      assert ordered[..] == before[pos := es[i]];
      cursor[q] := cursor[q] + 1;
    }
  }

  lemma ScatterBegin(t: seq<Entry>, es: seq<Entry>, g: nat)
    requires g > 0 && |t| == |es|
    ensures Scattered(t, es, g, 0)
    ensures forall r :: 0 <= r < g ==> |Bucket(es[..0], g, r)| == 0
  {
    forall r | 0 <= r < g
      ensures Landed(t, es, g, 0, r)
    {
      StartBound(es, g, r);
    }
  }

  // ------------------------------------------------------------------ sorting a slice

  /** `e` put into an ascending sequence. */
  function Insert(s: seq<Entry>, e: Entry): (t: seq<Entry>)
    ensures |t| == |s| + 1
    ensures multiset(t) == multiset(s) + multiset{e}
  {
    if |s| == 0 || s[|s| - 1].hash <= e.hash then s + [e]
    else
      assert s == s[..|s| - 1] + [s[|s| - 1]];
      Insert(s[..|s| - 1], e) + [s[|s| - 1]]
  }

  function Sort(s: seq<Entry>): (t: seq<Entry>)
    ensures |t| == |s|
    ensures multiset(t) == multiset(s)
  {
    if |s| == 0 then []
    else
      assert s == s[..|s| - 1] + [s[|s| - 1]];
      Insert(Sort(s[..|s| - 1]), s[|s| - 1])
  }

  lemma {:induction false} InsertAscending(s: seq<Entry>, e: Entry)
    requires Ascending(s)
    ensures Ascending(Insert(s, e))
  {
    if !(|s| == 0 || s[|s| - 1].hash <= e.hash) {
      var init, last := s[..|s| - 1], s[|s| - 1];
      InsertAscending(init, e);
      var t := Insert(init, e);
      forall i | 0 <= i < |t|
        ensures t[i].hash <= last.hash
      {
        assert t[i] in multiset(t);
        assert t[i] in multiset(init) || t[i] == e;
      }
    }
  }

  lemma {:induction false} SortAscending(s: seq<Entry>)
    ensures Ascending(Sort(s))
  {
    if |s| > 0 {
      SortAscending(s[..|s| - 1]);
      InsertAscending(Sort(s[..|s| - 1]), s[|s| - 1]);
    }
  }

  /** The library sort, applied in place to a slice of the array. */
  method SortSlice(a: array<Entry>, lo: nat, n: nat)
    requires lo + n <= a.Length
    modifies a
    ensures Ascending(a[lo..lo + n])
    ensures multiset(a[lo..lo + n]) == multiset(old(a[lo..lo + n]))
    ensures a[..lo] == old(a[..lo]) && a[lo + n..] == old(a[lo + n..])
  {
    var s := Sort(a[lo..lo + n]);
    SortAscending(a[lo..lo + n]);
    for k := 0 to n
      invariant a[..lo] == old(a[..lo]) && a[lo + n..] == old(a[lo + n..])
      invariant a[lo..lo + k] == s[..k]
    {
      a[lo + k] := s[k];
    }
    assert a[lo..lo + n] == s;
  }

  /** How many entries group `i` has, as the source recomputes it from the offsets. */
  function LengthFromOffsets(offsets: seq<nat>, total: nat, i: nat, cur: nat): int
    requires i < |offsets|
  {
    if i + 1 < |offsets| then offsets[i + 1] - cur else total - cur
  }

  lemma LengthsMatch(es: seq<Entry>, g: nat, offsets: seq<nat>, i: nat)
    requires g > 0 && |offsets| == g && i < g
    requires forall r :: 0 <= r < g ==> offsets[r] == Start(es, g, r)
    ensures LengthFromOffsets(offsets, |es|, i, Start(es, g, i)) == |Bucket(es, g, i)|
  {
    hide Start, Bucket;
    StartStep(es, g, i);
    StartTotal(es, g);
  }

  lemma SliceKept(t: seq<Entry>, t': seq<Entry>, es: seq<Entry>, g: nat, q: nat, r: nat)
    requires g > 0 && q < g && r < g && q != r && |t| == |t'| == |es|
    requires forall k :: 0 <= k < |t| && !(Start(es, g, q) <= k < Start(es, g, q) + |Bucket(es, g, q)|) ==> t'[k] == t[k]
    ensures Slice(t', es, g, r) == Slice(t, es, g, r)
  {
    SlicesDisjoint(es, g, q, r);
    StartBound(es, g, r);
  }

  method SortBuckets(es: seq<Entry>, g: nat, offsets: array<nat>, ordered: array<Entry>)
    requires g > 0 && offsets.Length == g && ordered.Length == |es|
    requires forall r :: 0 <= r < g ==> offsets[r] == Start(es, g, r)
    requires forall r :: 0 <= r < g ==> Slice(ordered[..], es, g, r) == Bucket(es, g, r)
    modifies ordered
    ensures IsIndex(ordered[..], es, g)
  {
    hide Bucket, Start, Slice, Ordered;
    var cur := 0;
    StartZero(es, g);
    for i := 0 to g
      invariant cur == Start(es, g, i)
      invariant forall r :: 0 <= r < g ==> offsets[r] == Start(es, g, r)
      invariant forall r :: 0 <= r < i ==> Ordered(ordered[..], es, g, r)
      invariant forall r :: i <= r < g ==> Slice(ordered[..], es, g, r) == Bucket(es, g, r)
    {
      LengthsMatch(es, g, offsets[..], i);
      StartBound(es, g, i);
      var len := LengthFromOffsets(offsets[..], |es|, i, cur);
      ghost var before := ordered[..];
      if len > 1 {
        SortSlice(ordered, cur, len);
      }
      SortedSlice(before, ordered[..], es, g, i);
      cur := cur + len;
    }
  }

  lemma StartZero(es: seq<Entry>, g: nat)
    requires g > 0
    ensures Start(es, g, 0) == 0
  {
  }

  /** Sorting one slice orders that group and leaves the others as they were. */
  lemma SortedSlice(t: seq<Entry>, t': seq<Entry>, es: seq<Entry>, g: nat, i: nat)
    requires g > 0 && i < g && |t| == |t'| == |es|
    requires Slice(t, es, g, i) == Bucket(es, g, i)
    requires var lo, n := Start(es, g, i), |Bucket(es, g, i)|;
      && lo + n <= |t|
      && (if n > 1 then
            Ascending(t'[lo..lo + n]) && multiset(t'[lo..lo + n]) == multiset(t[lo..lo + n])
            && t'[..lo] == t[..lo] && t'[lo + n..] == t[lo + n..]
          else t' == t)
    ensures Ordered(t', es, g, i)
    ensures forall r :: 0 <= r < g && r != i ==> Slice(t', es, g, r) == Slice(t, es, g, r)
    ensures forall r :: 0 <= r < g && r != i && Ordered(t, es, g, r) ==> Ordered(t', es, g, r)
  {
    hide Start, Bucket, Ascending;
    var lo, n := Start(es, g, i), |Bucket(es, g, i)|;
    OnlySliceChanged(t, t', lo, n);
    forall r | 0 <= r < g && r != i
      ensures Slice(t', es, g, r) == Slice(t, es, g, r)
    {
      SliceKept(t, t', es, g, i, r);
    }
    if n <= 1 {
      SmallAscending(t', es, g, i);
    }
  }

  lemma SmallAscending(t: seq<Entry>, es: seq<Entry>, g: nat, i: nat)
    requires g > 0 && i < g && |t| == |es| && |Bucket(es, g, i)| <= 1
    ensures Ascending(Slice(t, es, g, i))
  {
  }

  lemma OnlySliceChanged(t: seq<Entry>, t': seq<Entry>, lo: nat, n: nat)
    requires |t| == |t'| && lo + n <= |t|
    requires t' == t || (t'[..lo] == t[..lo] && t'[lo + n..] == t[lo + n..])
    ensures forall k :: 0 <= k < |t| && !(lo <= k < lo + n) ==> t'[k] == t[k]
  {
    forall k | 0 <= k < |t| && !(lo <= k < lo + n)
      ensures t'[k] == t[k]
    {
      if t' != t {
        if k < lo {
          assert t'[k] == t'[..lo][k];
        } else {
          assert t'[k] == t'[lo + n..][k - lo - n];
        }
      }
    }
  }

  lemma ScatteredIsBuckets(t: seq<Entry>, es: seq<Entry>, g: nat)
    requires g > 0 && |t| == |es| && Scattered(t, es, g, |es|)
    ensures forall r :: 0 <= r < g ==> Slice(t, es, g, r) == Bucket(es, g, r)
  {
    assert es[..|es|] == es;
    forall r | 0 <= r < g
      ensures Slice(t, es, g, r) == Bucket(es, g, r)
    {
      assert Landed(t, es, g, |es|, r);
    }
  }

  /** Count, prefix sums, scatter, sort: the index and the offset of every group. */
  method BuildIndex(hashes: seq<nat>, g: nat) returns (ordered: seq<Entry>, starts: seq<nat>)
    requires g > 0
    ensures IsIndex(ordered, Entries(hashes), g)
    ensures |starts| == g && forall r :: 0 <= r < g ==> starts[r] == Start(Entries(hashes), g, r)
  {
    hide IsIndex, Bucket, Start, Slice, Scattered;
    var es := Entries(hashes);
    var lengths := new nat[g];
    CountBuckets(es, g, lengths);
    var offsets := new nat[g];
    PrefixSums(es, g, lengths, offsets);
    var t := new Entry[|es|];
    Scatter(es, g, offsets, lengths, t);
    ScatteredIsBuckets(t[..], es, g);
    SortBuckets(es, g, offsets, t);
    return t[..], offsets[..];
  }

  // ------------------------------------------------------------------ what the index means

  /** Everything in the groups before `r`. */
  ghost function Below(es: seq<Entry>, g: nat, r: nat): multiset<Entry>
    requires g > 0
  {
    if r == 0 then multiset{} else Below(es, g, r - 1) + multiset(Bucket(es, g, r - 1))
  }

  lemma {:induction false} BelowSnoc(es: seq<Entry>, e: Entry, g: nat, r: nat)
    requires g > 0
    ensures Below(es + [e], g, r) == Below(es, g, r) + if Group(e, g) < r then multiset{e} else multiset{}
  {
    hide Bucket;
    if r > 0 {
      BelowSnoc(es, e, g, r - 1);
      BucketAppend(es, e, g, r - 1);
    }
  }

  lemma {:induction false} BelowOfNothing(g: nat, r: nat)
    requires g > 0
    ensures Below([], g, r) == multiset{}
  {
    if r > 0 {
      BelowOfNothing(g, r - 1);
    }
  }

  lemma {:induction false} BelowTotal(es: seq<Entry>, g: nat)
    requires g > 0
    ensures Below(es, g, g) == multiset(es)
  {
    if |es| == 0 {
      BelowOfNothing(g, g);
    } else {
      var init, last := es[..|es| - 1], es[|es| - 1];
      BelowTotal(init, g);
      BelowSnoc(init, last, g, g);
      assert es == init + [last];
    }
  }

  lemma {:induction false} IndexPrefix(t: seq<Entry>, es: seq<Entry>, g: nat, r: nat)
    requires g > 0 && r <= g && IsIndex(t, es, g)
    ensures Start(es, g, r) <= |t| && multiset(t[..Start(es, g, r)]) == Below(es, g, r)
  {
    hide Bucket;
    if r > 0 {
      IndexPrefix(t, es, g, r - 1);
      StartBound(es, g, r - 1);
      assert Ordered(t, es, g, r - 1);
      assert t[..Start(es, g, r)] == t[..Start(es, g, r - 1)] + Slice(t, es, g, r - 1);
    }
  }

  /** Counting sort fills every slot once: the index is a permutation of the entries. */
  lemma IndexIsPermutation(t: seq<Entry>, es: seq<Entry>, g: nat)
    requires g > 0 && IsIndex(t, es, g)
    ensures multiset(t) == multiset(es)
  {
    IndexPrefix(t, es, g, g);
    StartTotal(es, g);
    BelowTotal(es, g);
    assert t[..|t|] == t;
  }

  lemma {:induction false} InBucket(es: seq<Entry>, g: nat, r: nat, e: Entry)
    requires g > 0
    ensures e in Bucket(es, g, r) <==> e in es && Group(e, g) == r
  {
    if |es| > 0 {
      var init := es[..|es| - 1];
      InBucket(init, g, r, e);
      assert es == init + [es[|es| - 1]];
    }
  }

  lemma InSlice(t: seq<Entry>, es: seq<Entry>, g: nat, r: nat, e: Entry)
    requires g > 0 && r < g && IsIndex(t, es, g)
    ensures e in Slice(t, es, g, r) <==> e in es && Group(e, g) == r
  {
    hide Bucket, Start, Slice;
    InBucket(es, g, r, e);
    assert Ordered(t, es, g, r);
    assert e in Slice(t, es, g, r) <==> e in multiset(Slice(t, es, g, r));
    assert e in Bucket(es, g, r) <==> e in multiset(Bucket(es, g, r));
  }

  /** The file positions a lookup of `h` in group `h % g` comes up with. */
  ghost function Found(s: seq<Entry>, h: nat): set<nat> {
    set k | 0 <= k < |s| && s[k].hash == h :: s[k].index
  }

  ghost function Matching(hashes: seq<nat>, h: nat): set<nat> {
    set i | 0 <= i < |hashes| && hashes[i] == h
  }

  /** The group of a hash holds exactly the files with that hash. */
  lemma FoundIsMatching(t: seq<Entry>, hashes: seq<nat>, g: nat, h: nat)
    requires g > 0 && IsIndex(t, Entries(hashes), g)
    ensures Found(Slice(t, Entries(hashes), g, h % g), h) == Matching(hashes, h)
  {
    hide Bucket, Start, Slice;
    var es := Entries(hashes);
    var s := Slice(t, es, g, h % g);
    forall i | i in Matching(hashes, h)
      ensures i in Found(s, h)
    {
      assert es[i] in es;
      InSlice(t, es, g, h % g, es[i]);
      var k :| 0 <= k < |s| && s[k] == es[i];
      assert s[k].index in Found(s, h);
    }
    forall i | i in Found(s, h)
      ensures i in Matching(hashes, h)
    {
      var k :| 0 <= k < |s| && s[k].hash == h && s[k].index == i;
      InSlice(t, es, g, h % g, s[k]);
      var j :| 0 <= j < |es| && es[j] == s[k];
    }
  }

  /** The linear scan: the first file with the hash. */
  function Scan(hashes: seq<nat>, h: nat, from: nat): (r: Option<nat>)
    requires from <= |hashes|
    ensures r.Some? ==> from <= r.value < |hashes| && hashes[r.value] == h
    ensures r.Some? ==> forall i :: from <= i < r.value ==> hashes[i] != h
    ensures r.None? ==> forall i :: from <= i < |hashes| ==> hashes[i] != h
    decreases |hashes| - from
  {
    if from == |hashes| then None else if hashes[from] == h then Some(from) else Scan(hashes, h, from + 1)
  }

  /** The index refines the scan: it finds something exactly when the scan does, and the scan's
      answer is the least position found. */
  lemma IndexRefinesScan(t: seq<Entry>, hashes: seq<nat>, g: nat, h: nat)
    requires g > 0 && IsIndex(t, Entries(hashes), g)
    ensures var found := Found(Slice(t, Entries(hashes), g, h % g), h);
            match Scan(hashes, h, 0)
            case None => found == {}
            case Some(i) => i in found && forall j :: j in found ==> i <= j
  {
    FoundIsMatching(t, hashes, g, h);
    var r := Scan(hashes, h, 0);
    if r.Some? {
      assert r.value in Matching(hashes, h);
    }
  }
}
