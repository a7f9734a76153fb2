/** In-place decryption of the ranges of a file: which bytes a range means, what success promises
    about all other bytes, and that disjoint ranges may be decrypted in any order. */
module Bhd5Decrypting {
  import opened Bytes
  import opened Bhd5

  /** A keyed cipher on whole blocks, as the platform provides it. */
  datatype Cipher = Cipher(encrypt: (bytes, bytes) -> bytes, decrypt: (bytes, bytes) -> Result<bytes>)

  const BLOCK: nat := 16

  /** Decrypting undoes encrypting, and neither changes a length. */
  ghost predicate Inverse(c: Cipher) {
    && (forall key, s :: |c.encrypt(key, s)| == |s|)
    && (forall key, s :: c.decrypt(key, s).Ok? ==> |c.decrypt(key, s).value| == |s|)
    && (forall key, s :: |s| % BLOCK == 0 ==> c.decrypt(key, c.encrypt(key, s)) == Ok(s))
  }

  ghost predicate KeepsLength(c: Cipher) {
    forall key, s :: c.decrypt(key, s).Ok? ==> |c.decrypt(key, s).value| == |s|
  }

  /** The part of a payload a range denotes, and the conditions under which it denotes any. */
  datatype Window = Nothing | Window(lo: nat, hi: nat)

  /** Where the payload lies in the archive, and how long that is. */
  datatype Place = Place(size: nat, offset: int, archive: int)

  /** A range that ends behind the payload is taken to be relative to the whole archive. */
  function WindowOf(r: Range, p: Place): (w: Result<Window>)
    ensures w.Ok? && w.value.Window? ==> w.value.lo < w.value.hi <= p.size
  {
    if r.start == r.end then Ok(Nothing)
    else if r.start < 0 || r.end < r.start then Err(OutOfRange)
    else
      var rebase := r.end > p.size;
      if rebase && (r.start < p.offset || r.end < p.offset) then Err(Truncated)
      else
        var lo := if rebase then r.start - p.offset else r.start;
        var hi := if rebase then r.end - p.offset else r.end;
        if lo < 0 || hi < lo || hi > p.size then Err(Truncated)
        else if r.end > p.archive && hi + p.offset > p.archive then Err(Truncated)
        else Ok(Window(lo, hi))
  }

  function Decrypt(c: Cipher, key: bytes, s: bytes): Result<bytes> {
    if |s| % BLOCK != 0 then Err(InvalidArg)
    else if |s| == 0 then Ok(s)
    else c.decrypt(key, s)
  }

  /** One range. */
  function Apply(c: Cipher, key: bytes, r: Range, p: Place, s: bytes): (t: Result<bytes>)
    requires |s| == p.size && KeepsLength(c)
    ensures t.Ok? ==> |t.value| == |s|
  {
    var w :- WindowOf(r, p);
    if w.Nothing? then Ok(s)
    else
      var d :- Decrypt(c, key, s[w.lo..w.hi]);
      Ok(s[..w.lo] + d + s[w.hi..])
  }

  /** The first `k` ranges, one after the other. */
  function ApplyAll(c: Cipher, key: bytes, rs: seq<Range>, p: Place, s: bytes, k: nat): (t: Result<bytes>)
    requires |s| == p.size && KeepsLength(c) && k <= |rs|
    ensures t.Ok? ==> |t.value| == |s|
  {
    if k == 0 then Ok(s)
    else
      var u :- ApplyAll(c, key, rs, p, s, k - 1);
      Apply(c, key, rs[k - 1], p, u)
  }

  // ------------------------------------------------------------------ the loop

  lemma {:induction false} FailsEarly(c: Cipher, key: bytes, rs: seq<Range>, p: Place, s: bytes, k: nat, n: nat)
    requires |s| == p.size && KeepsLength(c) && k <= n <= |rs| && ApplyAll(c, key, rs, p, s, k).Err?
    ensures ApplyAll(c, key, rs, p, s, n) == ApplyAll(c, key, rs, p, s, k)
    decreases n - k
  {
    hide Apply;
    if k < n {
      FailsEarly(c, key, rs, p, s, k + 1, n);
    }
  }

  method DecryptSlice(c: Cipher, key: bytes, buf: array<byte>, lo: nat, hi: nat) returns (r: Result<()>)
    requires lo <= hi <= buf.Length && KeepsLength(c)
    modifies buf
    ensures var d := Decrypt(c, key, old(buf[lo..hi]));
      if d.Err? then r == Err(d.error) && buf[..] == old(buf[..])
      else r == Ok(()) && buf[..] == old(buf[..lo]) + d.value + old(buf[hi..])
  {
    if (hi - lo) % BLOCK != 0 {
      return Err(InvalidArg);
    }
    if lo == hi {
      assert buf[..] == buf[..lo] + buf[lo..hi] + buf[hi..];
      return Ok(());
    }
    var d :- c.decrypt(key, buf[lo..hi]);
    for i := 0 to hi - lo
      invariant forall j :: 0 <= j < lo || hi <= j < buf.Length ==> buf[j] == old(buf[j])
      invariant forall j :: 0 <= j < i ==> buf[lo + j] == d[j]
    {
      buf[lo + i] := d[i];
    }
    return Ok(());
  }

  lemma NextRange(c: Cipher, key: bytes, rs: seq<Range>, p: Place, s: bytes, k: nat, u: bytes)
    requires |s| == p.size && KeepsLength(c) && k < |rs| && ApplyAll(c, key, rs, p, s, k) == Ok(u)
    ensures ApplyAll(c, key, rs, p, s, k + 1) == Apply(c, key, rs[k], p, u)
  {
    hide Apply;
  }

  /** One range: nothing to do, out of bounds, or decrypted in place. */
  method DecryptRange(c: Cipher, key: bytes, x: Range, p: Place, buf: array<byte>) returns (r: Result<()>)
    requires KeepsLength(c) && p.size == buf.Length
    modifies buf
    ensures var t := Apply(c, key, x, p, old(buf[..]));
      if t.Err? then r == Err(t.error) else r == Ok(()) && buf[..] == t.value
  {
    hide Decrypt;
    if x.start == x.end {
      return Ok(());
    }
    if x.start < 0 || x.end < x.start {
      return Err(OutOfRange);
    }
    var lo, hi := x.start, x.end;
    if x.end > p.size {
      if x.start < p.offset || x.end < p.offset {
        return Err(Truncated);
      }
      lo, hi := x.start - p.offset, x.end - p.offset;
    }
    if lo < 0 || hi < lo || hi > p.size {
      return Err(Truncated);
    }
    if x.end > p.archive && hi + p.offset > p.archive {
      return Err(Truncated);
    }
    ghost var s := buf[..];
    assert s[lo..hi] == buf[lo..hi] && s[..lo] == buf[..lo] && s[hi..] == buf[hi..];
    r := DecryptSlice(c, key, buf, lo, hi);
  }

  /** Decrypts the ranges of a file in its payload, in the order in which they are stored. */
  method DecryptRanges(c: Cipher, f: File, archive: int, buf: array<byte>) returns (r: Result<()>)
    requires KeepsLength(c)
    modifies buf
    ensures f.aes.None? ==> r == Ok(()) && buf[..] == old(buf[..])
    ensures f.aes.Some? ==>
      var t := ApplyAll(c, f.aes.value.key, f.aes.value.ranges, Place(buf.Length, f.offset, archive), old(buf[..]), |f.aes.value.ranges|);
      if t.Err? then r == Err(t.error) else r == Ok(()) && buf[..] == t.value
  {
    hide Apply, KeepsLength;
    if f.aes.None? {
      return Ok(());
    }
    ghost var s := buf[..];
    var key, rs, p := f.aes.value.key, f.aes.value.ranges, Place(buf.Length, f.offset, archive);
    for i := 0 to |rs|
      invariant ApplyAll(c, key, rs, p, s, i) == Ok(buf[..])
    {
      NextRange(c, key, rs, p, s, i, buf[..]);
      var d := DecryptRange(c, key, rs[i], p, buf);
      if d.Err? {
        FailsEarly(c, key, rs, p, s, i + 1, |rs|);
        return d;
      }
    }
    return Ok(());
  }

  // ------------------------------------------------------------------ what success promises

  ghost predicate Covers(r: Range, p: Place, i: nat) {
    WindowOf(r, p).Ok? && WindowOf(r, p).value.Window? && WindowOf(r, p).value.lo <= i < WindowOf(r, p).value.hi
  }

  /** On success every range was in bounds, and no byte outside the ranges has changed. */
  lemma {:induction false} Frame(c: Cipher, key: bytes, rs: seq<Range>, p: Place, s: bytes, k: nat)
    requires |s| == p.size && KeepsLength(c) && k <= |rs| && ApplyAll(c, key, rs, p, s, k).Ok?
    ensures forall j :: 0 <= j < k ==> WindowOf(rs[j], p).Ok?
    ensures forall i :: 0 <= i < |s| && (forall j :: 0 <= j < k ==> !Covers(rs[j], p, i)) ==> ApplyAll(c, key, rs, p, s, k).value[i] == s[i]
  {
    hide WindowOf, Decrypt;
    if k > 0 {
      Frame(c, key, rs, p, s, k - 1);
      OneFrame(c, key, rs[k - 1], p, ApplyAll(c, key, rs, p, s, k - 1).value);
    }
  }

  lemma OneFrame(c: Cipher, key: bytes, r: Range, p: Place, s: bytes)
    requires |s| == p.size && KeepsLength(c) && Apply(c, key, r, p, s).Ok?
    ensures WindowOf(r, p).Ok?
    ensures forall i :: 0 <= i < |s| && !Covers(r, p, i) ==> Apply(c, key, r, p, s).value[i] == s[i]
  {
    hide Decrypt;
    var w := WindowOf(r, p).value;
    if w.Window? {
      var d := Decrypt(c, key, s[w.lo..w.hi]).value;
      DecryptLength(c, key, s[w.lo..w.hi]);
    }
  }

  lemma DecryptLength(c: Cipher, key: bytes, s: bytes)
    requires KeepsLength(c) && Decrypt(c, key, s).Ok?
    ensures |Decrypt(c, key, s).value| == |s|
  {
  }

  /** No byte belongs to two ranges. */
  ghost predicate Disjoint(rs: seq<Range>, p: Place) {
    forall j, k, i :: 0 <= j < |rs| && 0 <= k < |rs| && Covers(rs[j], p, i) && Covers(rs[k], p, i) ==> j == k
  }

  /** Range `r` can be decrypted in the original payload. */
  ghost predicate Decryptable(c: Cipher, key: bytes, r: Range, p: Place, s: bytes)
    requires |s| == p.size
  {
    WindowOf(r, p).Ok? && (WindowOf(r, p).value.Window? ==> Decrypt(c, key, s[WindowOf(r, p).value.lo..WindowOf(r, p).value.hi]).Ok?)
  }

  /** `t` is `s` with what lies in the window of `r` decrypted. */
  ghost predicate Decrypted(c: Cipher, key: bytes, r: Range, p: Place, s: bytes, t: bytes)
    requires |s| == |t| == p.size
  {
    WindowOf(r, p).Ok? && WindowOf(r, p).value.Window? ==>
      var w := WindowOf(r, p).value; Decrypt(c, key, s[w.lo..w.hi]) == Ok(t[w.lo..w.hi])
  }

  lemma OneStep(c: Cipher, key: bytes, r: Range, p: Place, s: bytes, u: bytes)
    requires |s| == |u| == p.size && KeepsLength(c)
    requires forall i :: 0 <= i < |s| && Covers(r, p, i) ==> u[i] == s[i]
    ensures Apply(c, key, r, p, u).Ok? <==> Decryptable(c, key, r, p, s)
    ensures Apply(c, key, r, p, u).Ok? ==> Decrypted(c, key, r, p, s, Apply(c, key, r, p, u).value)
  {
    hide Decrypt;
    if WindowOf(r, p).Ok? && WindowOf(r, p).value.Window? {
      var w := WindowOf(r, p).value;
      forall i | w.lo <= i < w.hi
        ensures u[i] == s[i]
      {
        assert Covers(r, p, i);
      }
      assert u[w.lo..w.hi] == s[w.lo..w.hi];
      if Decrypt(c, key, s[w.lo..w.hi]).Ok? {
        DecryptLength(c, key, s[w.lo..w.hi]);
        var d := Decrypt(c, key, s[w.lo..w.hi]).value;
        assert (u[..w.lo] + d + u[w.hi..])[w.lo..w.hi] == d;
      }
    }
  }

  /** A later range leaves the window of an earlier, disjoint one alone. */
  lemma StaysDecrypted(c: Cipher, key: bytes, r: Range, p: Place, s: bytes, u: bytes, t: bytes)
    requires |s| == |u| == |t| == p.size && Decrypted(c, key, r, p, s, u)
    requires forall i :: 0 <= i < |s| && Covers(r, p, i) ==> t[i] == u[i]
    ensures Decrypted(c, key, r, p, s, t)
  {
    hide Decrypt;
    if WindowOf(r, p).Ok? && WindowOf(r, p).value.Window? {
      var w := WindowOf(r, p).value;
      forall i | w.lo <= i < w.hi
        ensures u[i] == t[i]
      {
        assert Covers(r, p, i);
      }
      assert u[w.lo..w.hi] == t[w.lo..w.hi];
    }
  }

  /** For disjoint ranges the loop succeeds exactly when each range can be decrypted by itself, and
      then every window holds its own decryption. */
  lemma {:induction false} EachByItself(c: Cipher, key: bytes, rs: seq<Range>, p: Place, s: bytes, k: nat)
    requires |s| == p.size && KeepsLength(c) && k <= |rs| && Disjoint(rs, p)
    ensures ApplyAll(c, key, rs, p, s, k).Ok? <==> forall j :: 0 <= j < k ==> Decryptable(c, key, rs[j], p, s)
    ensures ApplyAll(c, key, rs, p, s, k).Ok? ==>
              forall j :: 0 <= j < k ==> Decrypted(c, key, rs[j], p, s, ApplyAll(c, key, rs, p, s, k).value)
  {
    hide Decryptable, Decrypted, Apply, Covers;
    if k > 0 {
      EachByItself(c, key, rs, p, s, k - 1);
      if ApplyAll(c, key, rs, p, s, k - 1).Ok? {
        var u := ApplyAll(c, key, rs, p, s, k - 1).value;
        Frame(c, key, rs, p, s, k - 1);
        OneStep(c, key, rs[k - 1], p, s, u);
        if Apply(c, key, rs[k - 1], p, u).Ok? {
          OneFrame(c, key, rs[k - 1], p, u);
          forall j | 0 <= j < k - 1
            ensures Decrypted(c, key, rs[j], p, s, Apply(c, key, rs[k - 1], p, u).value)
          {
            StaysDecrypted(c, key, rs[j], p, s, u, Apply(c, key, rs[k - 1], p, u).value);
          }
        }
      }
    }
  }

  /** Two outcomes that leave the same bytes alone and hold the same decryptions are the same. */
  lemma SameOutcome(c: Cipher, key: bytes, rs: seq<Range>, p: Place, s: bytes, t: bytes, u: bytes)
    requires |s| == |t| == |u| == p.size
    requires forall r :: r in rs ==> Decrypted(c, key, r, p, s, t) && Decrypted(c, key, r, p, s, u)
    requires forall i :: 0 <= i < |s| && (forall r :: r in rs ==> !Covers(r, p, i)) ==> t[i] == u[i]
    ensures t == u
  {
    hide Decrypt;
    forall i | 0 <= i < |s|
      ensures t[i] == u[i]
    {
      if r :| r in rs && Covers(r, p, i) {
        var w := WindowOf(r, p).value;
        assert t[w.lo..w.hi] == u[w.lo..w.hi];
        assert t[i] == t[w.lo..w.hi][i - w.lo];
      }
    }
  }

  lemma TwiceThere(s: seq<Range>, i: nat, j: nat)
    requires i < j < |s| && s[i] == s[j]
    ensures multiset(s)[s[i]] >= 2
  {
    assert s == s[..i] + [s[i]] + s[i + 1..];
    assert s[j] == s[i + 1..][j - i - 1];
  }

  lemma TwoPlaces(s: seq<Range>, x: Range) returns (i: nat, j: nat)
    requires multiset(s)[x] >= 2
    ensures i < j < |s| && s[i] == s[j] == x
  {
    i :| 0 <= i < |s| && s[i] == x;
    var rest := s[..i] + s[i + 1..];
    assert s == s[..i] + [s[i]] + s[i + 1..];
    assert x in multiset(rest);
    var k :| 0 <= k < |rest| && rest[k] == x;
    if k < i {
      i, j := k, i;
    } else {
      j := k + 1;
    }
  }

  /** Two places of a sequence have two places in any reordering of it. */
  lemma MovedApart(rs: seq<Range>, qs: seq<Range>, j: nat, k: nat) returns (a: nat, b: nat)
    requires multiset(rs) == multiset(qs) && j < k < |qs|
    ensures a < |rs| && b < |rs| && a != b && rs[a] == qs[j] && rs[b] == qs[k]
  {
    assert qs[j] in multiset(rs) && qs[k] in multiset(rs);
    if qs[j] == qs[k] {
      TwiceThere(qs, j, k);
      a, b := TwoPlaces(rs, qs[j]);
    } else {
      a :| 0 <= a < |rs| && rs[a] == qs[j];
      b :| 0 <= b < |rs| && rs[b] == qs[k];
    }
  }

  lemma NotBoth(rs: seq<Range>, qs: seq<Range>, p: Place, j: nat, k: nat, i: nat)
    requires multiset(rs) == multiset(qs) && Disjoint(rs, p) && j < k < |qs|
    ensures !(Covers(qs[j], p, i) && Covers(qs[k], p, i))
  {
    hide Covers;
    var a, b := MovedApart(rs, qs, j, k);
  }

  /** Reordering keeps ranges disjoint. */
  lemma DisjointReordered(rs: seq<Range>, qs: seq<Range>, p: Place)
    requires multiset(rs) == multiset(qs) && Disjoint(rs, p)
    ensures Disjoint(qs, p)
  {
    hide Covers;
    forall j, k, i | 0 <= j < k < |qs| && 0 <= i
      ensures !(Covers(qs[j], p, i) && Covers(qs[k], p, i))
    {
      NotBoth(rs, qs, p, j, k, i);
    }
  }

  /** Disjoint ranges may be decrypted in any order. */
  lemma OrderIndependent(c: Cipher, key: bytes, rs: seq<Range>, qs: seq<Range>, p: Place, s: bytes)
    requires |s| == p.size && KeepsLength(c) && Disjoint(rs, p) && multiset(rs) == multiset(qs)
    ensures var t, u := ApplyAll(c, key, rs, p, s, |rs|), ApplyAll(c, key, qs, p, s, |qs|);
      t.Ok? == u.Ok? && (t.Ok? ==> t.value == u.value)
  {
    hide Covers, Decryptable, Decrypted, ApplyAll;
    DisjointReordered(rs, qs, p);
    EachByItself(c, key, rs, p, s, |rs|);
    EachByItself(c, key, qs, p, s, |qs|);
    assert forall r :: r in rs <==> r in multiset(rs);
    assert forall r :: r in qs <==> r in multiset(qs);
    assert forall r :: r in rs <==> r in qs;
    var t, u := ApplyAll(c, key, rs, p, s, |rs|), ApplyAll(c, key, qs, p, s, |qs|);
    if t.Ok? {
      forall j | 0 <= j < |qs|
        ensures Decryptable(c, key, qs[j], p, s)
      {
        assert qs[j] in rs;
      }
    }
    if u.Ok? {
      forall j | 0 <= j < |rs|
        ensures Decryptable(c, key, rs[j], p, s)
      {
        assert rs[j] in qs;
      }
    }
    if t.Ok? {
      Frame(c, key, rs, p, s, |rs|);
      Frame(c, key, qs, p, s, |qs|);
      SameOutcome(c, key, rs, p, s, t.value, u.value);
    }
  }

  /** `e` is `s` with every window encrypted, and everything else as it was. */
  ghost predicate Encryption(c: Cipher, key: bytes, rs: seq<Range>, p: Place, s: bytes, e: bytes) {
    && |s| == |e| == p.size
    && (forall r :: r in rs ==> WindowOf(r, p).Ok?)
    && (forall r :: r in rs && WindowOf(r, p).value.Window? ==>
          var w := WindowOf(r, p).value;
          (w.hi - w.lo) % BLOCK == 0 && e[w.lo..w.hi] == c.encrypt(key, s[w.lo..w.hi]))
    && (forall i :: 0 <= i < |s| && (forall r :: r in rs ==> !Covers(r, p, i)) ==> e[i] == s[i])
  }

  lemma OneUndone(c: Cipher, key: bytes, r: Range, rs: seq<Range>, p: Place, s: bytes, e: bytes)
    requires Inverse(c) && Encryption(c, key, rs, p, s, e) && r in rs
    ensures Decryptable(c, key, r, p, e) && Decrypted(c, key, r, p, e, s)
  {
    hide Covers;
    if WindowOf(r, p).value.Window? {
      var w := WindowOf(r, p).value;
      assert |s[w.lo..w.hi]| % BLOCK == 0;
      assert Decrypt(c, key, e[w.lo..w.hi]) == Ok(s[w.lo..w.hi]);
    }
  }

  /** Decrypting disjoint ranges undoes their encryption, in whatever order that was done. */
  lemma UndoesEncryption(c: Cipher, key: bytes, rs: seq<Range>, p: Place, s: bytes, e: bytes)
    requires Inverse(c) && Disjoint(rs, p) && Encryption(c, key, rs, p, s, e)
    ensures KeepsLength(c) && ApplyAll(c, key, rs, p, e, |rs|) == Ok(s)
  {
    hide Covers, Decryptable, Decrypted, ApplyAll, Decrypt;
    EachByItself(c, key, rs, p, e, |rs|);
    forall r | r in rs
      ensures Decryptable(c, key, r, p, e) && Decrypted(c, key, r, p, e, s)
    {
      OneUndone(c, key, r, rs, p, s, e);
    }
    Frame(c, key, rs, p, e, |rs|);
    SameOutcome(c, key, rs, p, e, ApplyAll(c, key, rs, p, e, |rs|).value, s);
  }

  // ------------------------------------------------------------------ in the numbers of the ranges

  /** Byte `i` of a payload of `size` bytes at `offset`: ranges that end inside count from the payload's
      beginning, the others from the archive's. */
  predicate Denotes(r: Range, size: nat, offset: int, i: int) {
    r.start != r.end && if r.end <= size then r.start <= i < r.end else r.start - offset <= i < r.end - offset
  }

  /** The stored bytes from `lo` up to `hi`, whole blocks of 16, decrypted, and nothing else changed. */
  ghost predicate Replaced(c: Cipher, key: bytes, lo: int, hi: int, s: bytes, t: bytes) {
    && 0 <= lo < hi <= |s| == |t| && (hi - lo) % 16 == 0
    && c.decrypt(key, s[lo..hi]) == Ok(t[lo..hi])
    && forall i :: 0 <= i < |s| && !(lo <= i < hi) ==> t[i] == s[i]
  }

  ghost predicate Outcome(c: Cipher, key: bytes, lo: int, hi: int, s: bytes, t: Result<bytes>)
    requires 0 <= lo < hi <= |s|
  {
    if (hi - lo) % 16 != 0 then t == Err(InvalidArg)
    else if c.decrypt(key, s[lo..hi]).Err? then t == Err(c.decrypt(key, s[lo..hi]).error)
    else t.Ok? && Replaced(c, key, lo, hi, s, t.value)
  }

  /** One range, in its own numbers. */
  lemma RangeMeans(c: Cipher, key: bytes, r: Range, p: Place, s: bytes)
    requires |s| == p.size && KeepsLength(c)
    ensures var t := Apply(c, key, r, p, s);
      if r.start == r.end then t == Ok(s)
      else if r.start < 0 || r.end < r.start then t == Err(OutOfRange)
      else if r.end <= p.size then
        if r.end > p.archive && r.end + p.offset > p.archive then t == Err(Truncated) else Outcome(c, key, r.start, r.end, s, t)
      else if r.start < p.offset || r.end - p.offset > p.size || r.end > p.archive then t == Err(Truncated)
      else Outcome(c, key, r.start - p.offset, r.end - p.offset, s, t)
  {
    var w := WindowOf(r, p);
    if w.Ok? && w.value.Window? {
      var lo, hi := w.value.lo, w.value.hi;
      if Decrypt(c, key, s[lo..hi]).Ok? {
        DecryptLength(c, key, s[lo..hi]);
        var d := Decrypt(c, key, s[lo..hi]).value;
        assert (s[..lo] + d + s[hi..])[lo..hi] == d;
      }
    }
  }

  lemma CoversIs(r: Range, p: Place, i: nat)
    ensures Covers(r, p, i) ==> Denotes(r, p.size, p.offset, i)
    ensures WindowOf(r, p).Ok? && i < p.size ==> (Covers(r, p, i) <==> Denotes(r, p.size, p.offset, i))
  {
  }

  /** No byte of the payload belongs to two ranges. */
  ghost predicate Apart(rs: seq<Range>, size: nat, offset: int) {
    forall j, k, i :: 0 <= j < k < |rs| && 0 <= i < size ==> !(Denotes(rs[j], size, offset, i) && Denotes(rs[k], size, offset, i))
  }

  lemma ApartIsDisjoint(rs: seq<Range>, p: Place)
    requires Apart(rs, p.size, p.offset)
    ensures Disjoint(rs, p)
  {
    hide WindowOf, Denotes;
    forall j, k, i | 0 <= j < |rs| && 0 <= k < |rs| && Covers(rs[j], p, i) && Covers(rs[k], p, i)
      ensures j == k
    {
      CoversIs(rs[j], p, i);
      CoversIs(rs[k], p, i);
    }
  }

  /** A range that can be decrypted by itself. */
  ghost predicate Usable(c: Cipher, key: bytes, r: Range, size: nat, offset: int, archive: int, s: bytes)
    requires |s| == size
  {
    r.start == r.end
    || (0 <= r.start < r.end
        && if r.end <= size then
             (r.end <= archive || r.end + offset <= archive) && (r.end - r.start) % 16 == 0 && c.decrypt(key, s[r.start..r.end]).Ok?
           else
             offset <= r.start && r.end - offset <= size && r.end <= archive && (r.end - r.start) % 16 == 0
             && c.decrypt(key, s[r.start - offset..r.end - offset]).Ok?)
  }

  /** What a range denotes is decrypted in `t`. */
  ghost predicate Opened(c: Cipher, key: bytes, r: Range, size: nat, offset: int, s: bytes, t: bytes)
    requires |s| == |t| == size
  {
    r.start != r.end ==>
      if r.end <= size then 0 <= r.start < r.end && c.decrypt(key, s[r.start..r.end]) == Ok(t[r.start..r.end])
      else 0 <= r.start - offset < r.end - offset <= size && c.decrypt(key, s[r.start - offset..r.end - offset]) == Ok(t[r.start - offset..r.end - offset])
  }

  lemma UsableIs(c: Cipher, key: bytes, r: Range, p: Place, s: bytes)
    requires |s| == p.size
    ensures Decryptable(c, key, r, p, s) <==> Usable(c, key, r, p.size, p.offset, p.archive, s)
  {
  }

  lemma OpenedIs(c: Cipher, key: bytes, r: Range, p: Place, s: bytes, t: bytes)
    requires |s| == |t| == p.size && Decryptable(c, key, r, p, s) && Decrypted(c, key, r, p, s, t)
    ensures Opened(c, key, r, p.size, p.offset, s, t)
  {
  }

  /** The whole list, in the numbers of the ranges: bytes that no range denotes are as stored; ranges that
      are apart are all decrypted exactly when each can be. */
  lemma RangesMean(c: Cipher, key: bytes, rs: seq<Range>, p: Place, s: bytes)
    requires |s| == p.size && KeepsLength(c)
    ensures var t := ApplyAll(c, key, rs, p, s, |rs|);
      && (t.Ok? ==> forall i :: 0 <= i < |s| && (forall r :: r in rs ==> !Denotes(r, p.size, p.offset, i)) ==> t.value[i] == s[i])
      && (Apart(rs, p.size, p.offset) ==>
            && (t.Ok? <==> forall r :: r in rs ==> Usable(c, key, r, p.size, p.offset, p.archive, s))
            && (t.Ok? ==> forall r :: r in rs ==> Opened(c, key, r, p.size, p.offset, s, t.value)))
  {
    hide ApplyAll, Covers, Denotes, Usable, Opened, Decryptable, Decrypted, WindowOf, Apart, Disjoint, KeepsLength;
    var t := ApplyAll(c, key, rs, p, s, |rs|);
    if t.Ok? {
      Frame(c, key, rs, p, s, |rs|);
      forall i | 0 <= i < |s| && forall r :: r in rs ==> !Denotes(r, p.size, p.offset, i)
        ensures t.value[i] == s[i]
      {
        forall j | 0 <= j < |rs|
          ensures !Covers(rs[j], p, i)
        {
          CoversIs(rs[j], p, i);
        }
      }
    }
    if Apart(rs, p.size, p.offset) {
      ApartIsDisjoint(rs, p);
      EachByItself(c, key, rs, p, s, |rs|);
      forall j | 0 <= j < |rs|
        ensures Decryptable(c, key, rs[j], p, s) <==> Usable(c, key, rs[j], p.size, p.offset, p.archive, s)
      {
        UsableIs(c, key, rs[j], p, s);
      }
      if t.Ok? {
        forall j | 0 <= j < |rs|
          ensures Opened(c, key, rs[j], p.size, p.offset, s, t.value)
        {
          OpenedIs(c, key, rs[j], p, s, t.value);
        }
      }
    }
  }
}
