/** FSDATA without compression: a fixed table of sector numbers, indexed by file id, in front of
    payloads on 32 KiB boundaries. */
module Fsdata {
  import opened Bytes
  import opened Reading

  datatype File = File(id: nat, bytes: bytes)

  const SECTOR: nat := 0x800
  const ALIGNMENT: nat := 0x8000
  const ROW: nat := 8

  // ------------------------------------------------------------------ layout

  /** Strictly ascending by id. */
  ghost predicate Ascending(fs: seq<File>) {
    forall i, j :: 0 <= i < j < |fs| ==> fs[i].id < fs[j].id
  }

  ghost predicate IdsBelow(fs: seq<File>, n: nat) {
    forall i :: 0 <= i < |fs| ==> fs[i].id < n
  }

  /** Where the payload of file `k` begins, counted from the end of the table. */
  function Cursor(fs: seq<File>, k: nat): (c: nat)
    requires k <= |fs|
    ensures c % ALIGNMENT == 0
  {
    if k == 0 then 0 else Cursor(fs, k - 1) + AlignUp(|fs[k - 1].bytes|, ALIGNMENT)
  }

  function Sectors(size: nat): nat { AlignUp(size, SECTOR) / SECTOR }

  function RowOf(fs: seq<File>, k: nat): (s: bytes)
    requires k < |fs|
    ensures |s| == ROW
  {
    Enc(false, Cursor(fs, k) / SECTOR, 4) + Enc(false, Sectors(|fs[k].bytes|), 4)
  }

  /** The table after the first `k` files: a row per id, zero where there is no file. */
  function Rows(n: nat, fs: seq<File>, k: nat): (rows: seq<bytes>)
    requires k <= |fs| && IdsBelow(fs, n)
    ensures |rows| == n && AllSized(rows, ROW)
  {
    if k == 0 then seq(n, _ => Fill(ROW, 0)) else Rows(n, fs, k - 1)[fs[k - 1].id := RowOf(fs, k - 1)]
  }

  /** A text with zero bytes behind it, up to a multiple of `align`. */
  function Padded(s: bytes, align: nat): (t: bytes)
    requires align > 0
    ensures |t| == AlignUp(|s|, align)
  {
    s + Fill(AlignUp(|s|, align) - |s|, 0)
  }

  function Payloads(fs: seq<File>, k: nat): (s: bytes)
    requires k <= |fs|
    ensures |s| == Cursor(fs, k)
  {
    if k == 0 then [] else Payloads(fs, k - 1) + Padded(fs[k - 1].bytes, ALIGNMENT)
  }

  function HeaderSize(n: nat): nat { ROW * n }

  function Image(n: nat, fs: seq<File>): bytes
    requires IdsBelow(fs, n)
  {
    Flatten(Rows(n, fs, |fs|)) + Payloads(fs, |fs|)
  }

  lemma {:induction false} CursorMonotone(fs: seq<File>, i: nat, j: nat)
    requires i <= j <= |fs|
    ensures Cursor(fs, i) <= Cursor(fs, j)
    decreases j
  {
    hide AlignUp;
    if i < j {
      CursorMonotone(fs, i, j - 1);
    }
  }

  lemma CursorNext(fs: seq<File>, k: nat)
    requires k < |fs|
    ensures Cursor(fs, k + 1) == Cursor(fs, k) + AlignUp(|fs[k].bytes|, ALIGNMENT)
    ensures |fs[k].bytes| <= AlignUp(|fs[k].bytes|, ALIGNMENT)
  {
    hide AlignUp;
  }

  /** Payloads begin on multiples of the alignment, follow the table in id order, never overlap, and
      stay inside the image. */
  lemma PayloadsLaidOut(n: nat, fs: seq<File>, i: nat)
    requires IdsBelow(fs, n) && i < |fs|
    ensures Cursor(fs, i) % ALIGNMENT == 0
    ensures HeaderSize(n) + Cursor(fs, i) + |fs[i].bytes| <= |Image(n, fs)|
    ensures forall j :: i < j < |fs| ==> Cursor(fs, i) + |fs[i].bytes| <= Cursor(fs, j)
  {
    hide AlignUp, Rows, Cursor, Payloads, Flatten;
    FlattenUniform(Rows(n, fs, |fs|), ROW);
    CursorNext(fs, i);
    CursorMonotone(fs, i + 1, |fs|);
    forall j | i < j < |fs|
      ensures Cursor(fs, i) + |fs[i].bytes| <= Cursor(fs, j)
    {
      CursorMonotone(fs, i + 1, j);
    }
  }

  lemma {:induction false} PayloadStands(fs: seq<File>, k: nat, i: nat)
    requires i < k <= |fs|
    ensures At(Payloads(fs, k), Cursor(fs, i), Padded(fs[i].bytes, ALIGNMENT))
  {
    hide Padded, Cursor;
    var s, t := Payloads(fs, k - 1), Padded(fs[k - 1].bytes, ALIGNMENT);
    AtWhole(s + t);
    AtSplit(s + t, 0, s, t);
    if i < k - 1 {
      PayloadStands(fs, k - 1, i);
      AtTrans(s + t, 0, s, Cursor(fs, i), Padded(fs[i].bytes, ALIGNMENT));
    }
  }

  /** Which file, if any, has id `id`. */
  ghost predicate HasId(fs: seq<File>, k: nat, id: nat)
    requires k <= |fs|
  {
    exists j :: 0 <= j < k && fs[j].id == id
  }

  /** The row of an id records its file, and is zero without one. */
  lemma {:induction false} RowIs(n: nat, fs: seq<File>, k: nat, id: nat)
    requires k <= |fs| && IdsBelow(fs, n) && Ascending(fs) && id < n
    ensures forall j :: 0 <= j < k && fs[j].id == id ==> Rows(n, fs, k)[id] == RowOf(fs, j)
    ensures !HasId(fs, k, id) ==> Rows(n, fs, k)[id] == Fill(ROW, 0)
  {
    hide RowOf;
    if k > 0 {
      RowIs(n, fs, k - 1, id);
      if fs[k - 1].id == id {
        assert forall j :: 0 <= j < k - 1 ==> fs[j].id < fs[k - 1].id;
      } else if HasId(fs, k - 1, id) {
        var j :| 0 <= j < k - 1 && fs[j].id == id;
        assert HasId(fs, k, id);
      }
    }
  }

  // ------------------------------------------------------------------ sorting

  lemma LastIsLargest(s: seq<File>, x: File)
    requires Ascending(s) && x in multiset(s)
    ensures s != [] && (x == s[|s| - 1] || x.id < s[|s| - 1].id)
  {
    var j :| 0 <= j < |s| && s[j] == x;
  }

  lemma WithoutLast(s: seq<File>)
    requires s != []
    ensures multiset(s[..|s| - 1]) == multiset(s) - multiset{s[|s| - 1]}
    ensures s == s[..|s| - 1] + [s[|s| - 1]] && s[|s| - 1] in multiset(s)
    ensures Ascending(s) ==> Ascending(s[..|s| - 1])
  {
    assert s == s[..|s| - 1] + [s[|s| - 1]];
  }

  /** Two ascending arrangements of the same files are the same. */
  lemma {:induction false} AscendingUnique(s: seq<File>, t: seq<File>)
    requires Ascending(s) && Ascending(t) && multiset(s) == multiset(t)
    ensures s == t
    decreases |s|
  {
    hide Ascending;
    if s == [] {
      assert |t| == |multiset(t)| == 0;
    } else {
      var x := s[|s| - 1];
      WithoutLast(s);
      LastIsLargest(t, x);
      var y := t[|t| - 1];
      WithoutLast(t);
      LastIsLargest(s, y);
      AscendingUnique(s[..|s| - 1], t[..|t| - 1]);
    }
  }

  lemma Inserted(s: seq<File>, p: nat, x: File)
    requires p <= |s| && Ascending(s)
    requires forall i :: 0 <= i < p ==> s[i].id < x.id
    requires forall i :: p <= i < |s| ==> x.id < s[i].id
    ensures Ascending(s[..p] + [x] + s[p..])
    ensures multiset(s[..p] + [x] + s[p..]) == multiset(s) + multiset{x}
  {
    assert s == s[..p] + s[p..];
  }

  ghost predicate DistinctIds(fs: seq<File>) {
    forall i, j :: 0 <= i < j < |fs| ==> fs[i].id != fs[j].id
  }

  lemma NewId(fs: seq<File>, i: nat, s: seq<File>)
    requires DistinctIds(fs) && i < |fs| && multiset(s) == multiset(fs[..i])
    ensures forall k :: 0 <= k < |s| ==> s[k].id != fs[i].id
  {
    forall k | 0 <= k < |s|
      ensures s[k].id != fs[i].id
    {
      assert s[k] in multiset(fs[..i]);
      var j :| 0 <= j < i && fs[..i][j] == s[k];
      assert fs[j].id != fs[i].id;
    }
  }

  lemma AscendingAt(s: seq<File>, p: nat, id: nat)
    requires Ascending(s) && p < |s| && id < s[p].id
    ensures forall k :: p <= k < |s| ==> id < s[k].id
  {
  }

  lemma NextTaken(fs: seq<File>, i: nat)
    requires i < |fs|
    ensures multiset(fs[..i + 1]) == multiset(fs[..i]) + multiset{fs[i]}
  {
    assert fs[..i + 1] == fs[..i] + [fs[i]];
  }

  /** A sorted copy. */
  method SortById(fs: seq<File>) returns (s: seq<File>)
    requires DistinctIds(fs)
    ensures Ascending(s) && multiset(s) == multiset(fs)
  {
    hide Ascending, DistinctIds;
    s := [];
    assert Ascending([]) by { NoFiles(); }
    for i := 0 to |fs|
      invariant Ascending(s) && multiset(s) == multiset(fs[..i])
    {
      NewId(fs, i, s);
      NextTaken(fs, i);
      s := InsertById(s, fs[i]);
    }
    assert fs[..|fs|] == fs;
  }

  method InsertById(s: seq<File>, x: File) returns (t: seq<File>)
    requires Ascending(s) && forall k :: 0 <= k < |s| ==> s[k].id != x.id
    ensures Ascending(t) && multiset(t) == multiset(s) + multiset{x}
  {
    hide Ascending;
    var p := 0;
    while p < |s| && s[p].id < x.id
      invariant p <= |s| && forall k :: 0 <= k < p ==> s[k].id < x.id
    {
      p := p + 1;
    }
    if p < |s| {
      AscendingAt(s, p, x.id);
    }
    Inserted(s, p, x);
    t := s[..p] + [x] + s[p..];
  }

  lemma NoFiles()
    ensures Ascending([])
  {
  }

  // ------------------------------------------------------------------ writing

  /** Copies a text over the bytes at `pos`. */
  method Copy(buf: array<byte>, pos: nat, s: bytes)
    requires pos + |s| <= buf.Length
    modifies buf
    ensures buf[..] == old(buf[..pos]) + s + old(buf[pos + |s|..])
  {
    for i := 0 to |s|
      invariant forall j :: 0 <= j < pos || pos + i <= j < buf.Length ==> buf[j] == old(buf[j])
      invariant forall j :: pos <= j < pos + i ==> buf[j] == s[j - pos]
    {
      buf[pos + i] := s[i];
    }
  }

  /** Writing over one row of a table. */
  lemma {:induction false} RowUpdate(rows: seq<bytes>, size: nat, i: nat, r: bytes)
    requires AllSized(rows, size) && i < |rows| && |r| == size
    ensures AllSized(rows[i := r], size) && |Flatten(rows)| == size * |rows|
    ensures size * (i + 1) <= size * |rows|
    ensures Flatten(rows[i := r]) == Flatten(rows)[..size * i] + r + Flatten(rows)[size * (i + 1)..]
    decreases |rows|
  {
    hide Pow256;
    var n := |rows| - 1;
    FlattenUniform(rows, size);
    FlattenUniform(rows[..n], size);
    assert size * |rows| == size * n + size;
    var updated := rows[i := r];
    if i == n {
      assert updated[..n] == rows[..n];
      assert Flatten(rows)[..size * n] == Flatten(rows[..n]);
    } else {
      RowUpdate(rows[..n], size, i, r);
      assert updated[..n] == rows[..n][i := r];
      assert updated[n] == rows[n];
      var a, b := Flatten(rows[..n]), rows[n];
      assert (a + b)[..size * i] == a[..size * i];
      assert (a + b)[size * (i + 1)..] == a[size * (i + 1)..] + b;
    }
  }

  /** The buffer after some files: table, payloads so far, and nothing but zeros behind. */
  ghost predicate Filled(buf: bytes, n: nat, fs: seq<File>, k: nat, total: nat)
    requires k <= |fs| && IdsBelow(fs, n)
  {
    && HeaderSize(n) + Cursor(fs, k) <= total
    && buf == Flatten(Rows(n, fs, k)) + Payloads(fs, k) + Fill(total - HeaderSize(n) - Cursor(fs, k), 0)
  }

  lemma FilledBegins(n: nat, fs: seq<File>, total: nat)
    requires IdsBelow(fs, n) && HeaderSize(n) <= total
    ensures Filled(Fill(total, 0), n, fs, 0, total)
  {
    AllZero(seq(n, _ => Fill(ROW, 0)));
    FlattenUniform(Rows(n, fs, 0), ROW);
  }

  lemma {:induction false} AllZero(rows: seq<bytes>)
    requires AllSized(rows, ROW) && forall i :: 0 <= i < |rows| ==> rows[i] == Fill(ROW, 0)
    ensures Flatten(rows) == Fill(|Flatten(rows)|, 0)
  {
    if rows != [] {
      AllZero(rows[..|rows| - 1]);
    }
  }

  /** Overwriting in the front part, or in the zeros behind. */
  lemma SpliceFront(a: bytes, b: bytes, pos: nat, s: bytes)
    requires pos + |s| <= |a|
    ensures (a + b)[..pos] + s + (a + b)[pos + |s|..] == a[..pos] + s + a[pos + |s|..] + b
  {
  }

  lemma SpliceZeros(a: bytes, zeros: nat, s: bytes, size: nat)
    requires |s| <= size <= zeros
    ensures (a + Fill(zeros, 0))[..|a|] + s + (a + Fill(zeros, 0))[|a| + |s|..] == a + (s + Fill(size - |s|, 0)) + Fill(zeros - size, 0)
  {
  }

  lemma TableNext(n: nat, fs: seq<File>, k: nat)
    requires IdsBelow(fs, n) && k < |fs|
    ensures Rows(n, fs, k + 1) == Rows(n, fs, k)[fs[k].id := RowOf(fs, k)]
    ensures Payloads(fs, k + 1) == Payloads(fs, k) + Padded(fs[k].bytes, ALIGNMENT)
  {
    hide RowOf, AlignUp;
  }

  lemma FilledNext(buf: bytes, n: nat, fs: seq<File>, k: nat, total: nat, one: bytes, two: bytes)
    requires k < |fs| && IdsBelow(fs, n) && Filled(buf, n, fs, k, total) && HeaderSize(n) + Cursor(fs, k + 1) <= total
    requires ROW * fs[k].id + ROW <= |buf| && one == buf[..ROW * fs[k].id] + RowOf(fs, k) + buf[ROW * fs[k].id + ROW..]
    requires var at := HeaderSize(n) + Cursor(fs, k);
      at + |fs[k].bytes| <= |one| && two == one[..at] + fs[k].bytes + one[at + |fs[k].bytes|..]
    ensures Filled(two, n, fs, k + 1, total)
  {
    hide RowOf, AlignUp, Flatten, Rows, Payloads, Cursor;
    TableNext(n, fs, k);
    CursorNext(fs, k);
    var rows, id, r := Rows(n, fs, k), fs[k].id, RowOf(fs, k);
    var rest := Fill(total - HeaderSize(n) - Cursor(fs, k), 0);
    RowUpdate(rows, ROW, id, r);
    SpliceFront(Flatten(rows), Payloads(fs, k) + rest, ROW * id, r);
    assert buf == Flatten(rows) + (Payloads(fs, k) + rest);
    assert one == Flatten(Rows(n, fs, k + 1)) + (Payloads(fs, k) + rest);
    FlattenUniform(Rows(n, fs, k + 1), ROW);
    var front := Flatten(Rows(n, fs, k + 1)) + Payloads(fs, k);
    assert one == front + rest;
    SpliceZeros(front, |rest|, fs[k].bytes, AlignUp(|fs[k].bytes|, ALIGNMENT));
  }

  method DataSize(fs: seq<File>) returns (size: nat)
    ensures size == Cursor(fs, |fs|)
  {
    hide Cursor, AlignUp;
    size := 0;
    CursorBegins(fs);
    for i := 0 to |fs|
      invariant size == Cursor(fs, i)
    {
      CursorNext(fs, i);
      size := size + AlignUp(|fs[i].bytes|, ALIGNMENT);
    }
  }

  method WriteFiles(n: nat, fs: seq<File>) returns (buf: array<byte>)
    requires IdsBelow(fs, n)
    ensures fresh(buf) && buf[..] == Image(n, fs)
  {
    hide RowOf, Rows, Payloads, Cursor, AlignUp, Sectors, Flatten, Filled;
    var dataSize := DataSize(fs);
    var total := HeaderSize(n) + dataSize;
    buf := new byte[total](_ => 0);
    assert buf[..] == Fill(total, 0);
    CursorBegins(fs);
    FilledBegins(n, fs, total);
    var cursor: nat := 0;
    for k := 0 to |fs|
      invariant cursor == Cursor(fs, k) && Filled(buf[..], n, fs, k, total)
    {
      CursorNext(fs, k);
      CursorMonotone(fs, k + 1, |fs|);
      RowHere(n, fs[k].id);
      ghost var before := buf[..];
      Copy(buf, ROW * fs[k].id, RowFor(cursor, |fs[k].bytes|));
      RowForIs(fs, k);
      ghost var between := buf[..];
      Copy(buf, HeaderSize(n) + cursor, fs[k].bytes);
      FilledNext(before, n, fs, k, total, between, buf[..]);
      cursor := cursor + AlignUp(|fs[k].bytes|, ALIGNMENT);
    }
    FilledEnds(buf[..], n, fs, total);
  }

  function RowFor(cursor: nat, size: nat): (s: bytes)
    ensures |s| == ROW
  {
    Enc(false, cursor / SECTOR, 4) + Enc(false, Sectors(size), 4)
  }

  lemma RowForIs(fs: seq<File>, k: nat)
    requires k < |fs|
    ensures RowFor(Cursor(fs, k), |fs[k].bytes|) == RowOf(fs, k)
  {
    hide Cursor, Sectors;
  }

  lemma CursorBegins(fs: seq<File>)
    ensures Cursor(fs, 0) == 0
  {
  }

  lemma RowHere(n: nat, id: nat)
    requires id < n
    ensures ROW * id + ROW <= HeaderSize(n)
  {
  }

  lemma FilledEnds(buf: bytes, n: nat, fs: seq<File>, total: nat)
    requires IdsBelow(fs, n) && total == HeaderSize(n) + Cursor(fs, |fs|) && Filled(buf, n, fs, |fs|, total)
    ensures buf == Image(n, fs)
  {
    hide Rows, Flatten, Payloads, Cursor;
  }
}
