/** Reading FSDATA back: which rows name a payload, what comes back from a written image, and when
    writing it again reproduces the image. */
module FsdataReading {
  import opened Bytes
  import opened Reading
  import opened Fsdata

  const WORD: nat := 0x1_0000_0000_0000_0000

  // ------------------------------------------------------------------ rows

  /** What a row of the table asks for. */
  datatype Fetch = Skip | Refused | Slice(lo: nat, hi: nat) | Outside

  /** The bounds check adds 64-bit numbers: a negative sector number that is too small wraps around
      twice, passes, and denotes bytes in front of the buffer. */
  function FetchOf(header: nat, size: nat, sector: int, length: int): Fetch {
    if length <= 0 then Skip
    else
      var start := header + sector * SECTOR;
      var count := length * SECTOR;
      if (start % WORD + count) % WORD > size then Refused
      else if start < 0 || start + count > size then Outside
      else Slice(start, start + count)
  }

  /** For tables that fit the address space, the check lets a fetch outside the buffer through exactly
      for a start in front of it and an end inside. */
  lemma OutsideExactly(header: nat, size: nat, sector: int, length: int)
    requires header <= size < 0x4000_0000_0000_0000 && Fits(sector, 4) && Fits(length, 4)
    ensures FetchOf(header, size, sector, length) == Outside
       <==> length > 0 && header + sector * SECTOR < 0 <= header + (sector + length) * SECTOR <= size
    ensures sector >= 0 ==> !FetchOf(header, size, sector, length).Outside?
  {
    Widths();
    var start, count := header + sector * SECTOR, length * SECTOR;
    assert -0x8000_0000 <= sector && length < 0x8000_0000;
    if start >= 0 {
      SmallMod(start, WORD);
      if length > 0 {
        SmallMod(start + count, WORD);
      }
    } else {
      Wrap(start);
      if length > 0 {
        if start + count >= 0 {
          assert start % WORD + count == (start + count) + WORD;
          AddMod(start + count, WORD);
          SmallMod(start + count, WORD);
        } else {
          SmallMod(start + count + WORD, WORD);
        }
      }
    }
  }

  lemma SmallMod(x: nat, d: nat)
    requires x < d
    ensures x % d == x
  {
  }

  lemma Wrap(x: int)
    requires x < 0 <= x + WORD
    ensures x % WORD == x + WORD
  {
  }

  function SectorAt(buf: bytes, i: nat): int
    requires ROW * (i + 1) <= |buf|
  {
    Signed(UnLE(buf[ROW * i..ROW * i + 4]), 4)
  }

  function LengthAt(buf: bytes, i: nat): int
    requires ROW * (i + 1) <= |buf|
  {
    Signed(UnLE(buf[ROW * i + 4..ROW * (i + 1)]), 4)
  }

  function FetchAt(buf: bytes, n: nat, i: nat): (f: Fetch)
    requires i < n && HeaderSize(n) <= |buf|
    ensures f.Slice? ==> f.lo <= f.hi <= |buf|
  {
    FetchOf(HeaderSize(n), |buf|, SectorAt(buf, i), LengthAt(buf, i))
  }

  /** No row of the table reaches in front of the buffer. */
  ghost predicate Sound(buf: bytes, n: nat) {
    HeaderSize(n) <= |buf| ==> forall i :: 0 <= i < n ==> !FetchAt(buf, n, i).Outside?
  }

  /** What reading comes to: a value, the code's own error, or a copy from in front of the buffer, which
      has no meaning. */
  datatype Outcome<+T> = Done(value: T) | Failed(error: Error) | Undefined

  /** The files of the first `k` rows. */
  function Parse(buf: bytes, n: nat, k: nat): (r: Outcome<seq<File>>)
    requires k <= n && HeaderSize(n) <= |buf|
  {
    if k == 0 then Done([])
    else
      var init := Parse(buf, n, k - 1);
      if !init.Done? then init
      else
        match FetchAt(buf, n, k - 1)
        case Skip => init
        case Refused => Failed(InvalidArg)
        case Outside => Undefined
        case Slice(lo, hi) => Done(init.value + [File(k - 1, buf[lo..hi])])
  }

  /** Reading loses its meaning exactly at a row that reaches in front of the buffer, with no row refused
      before it. */
  lemma {:induction false} UndefinedExactly(buf: bytes, n: nat, k: nat)
    requires k <= n && HeaderSize(n) <= |buf|
    ensures Parse(buf, n, k).Undefined?
       <==> exists i :: 0 <= i < k && FetchAt(buf, n, i).Outside? && forall j :: 0 <= j < i ==> !FetchAt(buf, n, j).Refused?
    ensures Parse(buf, n, k).Done? <==> forall i :: 0 <= i < k ==> !FetchAt(buf, n, i).Outside? && !FetchAt(buf, n, i).Refused?
  {
    hide FetchAt;
    if k > 0 {
      UndefinedExactly(buf, n, k - 1);
    }
  }

  /** A table of 0x800 rows whose first asks for one sector from number -9 on: the end of the fetch is
      the start of the buffer, so the check lets it through. */
  lemma FetchInFront(buf: bytes)
    requires buf == Enc(false, -9, 4) + Enc(false, 1, 4) + Fill(HeaderSize(0x800) - ROW, 0)
    ensures FetchAt(buf, 0x800, 0) == Outside && Parse(buf, 0x800, 0x800) == Undefined
  {
    hide FetchOf, Parse;
    assert At(buf, 0, Enc(false, -9, 4)) && At(buf, 4, Enc(false, 1, 4));
    Widths();
    EncSigned(false, -9, 4);
    EncSigned(false, 1, 4);
    assert SectorAt(buf, 0) == -9 && LengthAt(buf, 0) == 1;
    OutsideExactly(HeaderSize(0x800), |buf|, -9, 1);
    UndefinedExactly(buf, 0x800, 0x800);
  }

  lemma {:induction false} ParsedIds(buf: bytes, n: nat, k: nat)
    requires k <= n && HeaderSize(n) <= |buf| && Parse(buf, n, k).Done?
    ensures Ascending(Parse(buf, n, k).value) && IdsBelow(Parse(buf, n, k).value, k)
  {
    hide FetchAt;
    if k > 0 {
      ParsedIds(buf, n, k - 1);
    }
  }

  // ------------------------------------------------------------------ what comes back

  /** Files without a byte are lost; the others are filled up to whole sectors. */
  function Kept(fs: seq<File>): (s: seq<File>)
    ensures |s| <= |fs|
  {
    if fs == [] then []
    else
      var last := fs[|fs| - 1];
      Kept(fs[..|fs| - 1]) + if last.bytes == [] then [] else [File(last.id, Padded(last.bytes, SECTOR))]
  }

  /** Sector numbers are stored in 31 bits. */
  ghost predicate Representable(n: nat, fs: seq<File>) {
    HeaderSize(n) + Cursor(fs, |fs|) < SECTOR * MAX_SIZE
  }

  lemma AlignTwice(size: nat)
    ensures AlignUp(AlignUp(size, SECTOR), ALIGNMENT) == AlignUp(size, ALIGNMENT)
    ensures AlignUp(size, SECTOR) <= AlignUp(size, ALIGNMENT)
    ensures Sectors(size) * SECTOR == AlignUp(size, SECTOR)
    ensures size == 0 <==> AlignUp(size, SECTOR) == 0
  {
    AlignNested(size, SECTOR, 16);
    DivMod(AlignUp(size, SECTOR), SECTOR);
  }

  lemma WholeSectors(c: nat)
    requires c % ALIGNMENT == 0
    ensures (c / SECTOR) * SECTOR == c
  {
    DivMod(c, ALIGNMENT);
    UniqueDiv(c, SECTOR, 16 * (c / ALIGNMENT), 0);
  }

  /** The two numbers of a row that stands in the table. */
  lemma RowRead(buf: bytes, i: nat, sector: nat, length: nat)
    requires ROW * (i + 1) <= |buf| && sector < MAX_SIZE && length < MAX_SIZE
    requires At(buf, ROW * i, Enc(false, sector, 4) + Enc(false, length, 4))
    ensures SectorAt(buf, i) == sector && LengthAt(buf, i) == length
  {
    hide LE, UnLE, Signed, Fits, Pow256;
    SmallFits(sector);
    SmallFits(length);
    AtSplit(buf, ROW * i, Enc(false, sector, 4), Enc(false, length, 4));
    EncSigned(false, sector, 4);
    EncSigned(false, length, 4);
  }

  /** The image carries table and payloads. */
  lemma ImagePieces(n: nat, fs: seq<File>)
    requires IdsBelow(fs, n)
    ensures var buf := Image(n, fs);
      && At(buf, 0, Flatten(Rows(n, fs, |fs|))) && At(buf, HeaderSize(n), Payloads(fs, |fs|))
      && |buf| == HeaderSize(n) + Cursor(fs, |fs|)
  {
    hide At, Rows, Payloads, Flatten, Cursor;
    AtWhole(Image(n, fs));
    AtSplit(Image(n, fs), 0, Flatten(Rows(n, fs, |fs|)), Payloads(fs, |fs|));
    FlattenUniform(Rows(n, fs, |fs|), ROW);
  }

  lemma ZeroRow()
    ensures Fill(ROW, 0) == Enc(false, 0, 4) + Enc(false, 0, 4)
  {
    assert LE(0, 4) == [0] + LE(0, 3) && LE(0, 3) == [0] + LE(0, 2) && LE(0, 2) == [0] + LE(0, 1) && LE(0, 1) == [0] + LE(0, 0);
  }

  /** The row of an id without a file is skipped. */
  lemma EmptyRowRead(n: nat, fs: seq<File>, id: nat)
    requires IdsBelow(fs, n) && Ascending(fs) && id < n && !HasId(fs, |fs|, id) && HeaderSize(n) <= |Image(n, fs)|
    ensures FetchAt(Image(n, fs), n, id) == Skip
  {
    hide At, Rows, Payloads, Flatten, Cursor, Image, SectorAt, LengthAt;
    ImagePieces(n, fs);
    RowStands(Image(n, fs), 0, Rows(n, fs, |fs|), ROW, id);
    RowIs(n, fs, |fs|, id);
    ZeroRow();
    RowRead(Image(n, fs), id, 0, 0);
  }

  /** The row of a file yields its payload, filled up to whole sectors, or nothing for an empty one. */
  lemma FileRowRead(n: nat, fs: seq<File>, k: nat)
    requires IdsBelow(fs, n) && Ascending(fs) && k < |fs| && Representable(n, fs) && HeaderSize(n) <= |Image(n, fs)|
    ensures var buf, f := Image(n, fs), FetchAt(Image(n, fs), n, fs[k].id);
      if fs[k].bytes == [] then f == Skip
      else f.Slice? && buf[f.lo..f.hi] == Padded(fs[k].bytes, SECTOR)
  {
    hide At, Rows, Payloads, Flatten, Cursor, Image, SectorAt, LengthAt, AlignUp, Padded, HeaderSize, FetchOf;
    var buf, size, c := Image(n, fs), |fs[k].bytes|, Cursor(fs, k);
    ImagePieces(n, fs);
    RowStands(buf, 0, Rows(n, fs, |fs|), ROW, fs[k].id);
    RowIs(n, fs, |fs|, fs[k].id);
    AlignTwice(size);
    WholeSectors(c);
    CursorNext(fs, k);
    CursorMonotone(fs, k + 1, |fs|);
    RowHere(n, fs[k].id);
    RowRead(buf, fs[k].id, c / SECTOR, Sectors(size));
    FetchInside(HeaderSize(n), |buf|, c / SECTOR, Sectors(size));
    if size > 0 {
      PayloadStands(fs, |fs|, k);
      AtTrans(buf, HeaderSize(n), Payloads(fs, |fs|), c, Padded(fs[k].bytes, ALIGNMENT));
      PaddedPrefix(buf, HeaderSize(n) + c, fs[k].bytes);
    }
  }

  lemma FetchInside(header: nat, size: nat, sector: nat, length: nat)
    requires header + sector * SECTOR + length * SECTOR <= size < SECTOR * MAX_SIZE
    ensures FetchOf(header, size, sector, length)
         == if length == 0 then Skip else Slice(header + sector * SECTOR, header + sector * SECTOR + length * SECTOR)
  {
    SmallMod(header + sector * SECTOR, WORD);
    SmallMod(header + sector * SECTOR + length * SECTOR, WORD);
  }

  lemma PaddedPrefix(buf: bytes, pos: nat, s: bytes)
    requires At(buf, pos, Padded(s, ALIGNMENT))
    ensures pos + AlignUp(|s|, SECTOR) <= |buf| && buf[pos..pos + AlignUp(|s|, SECTOR)] == Padded(s, SECTOR)
  {
    hide AlignUp;
    AlignTwice(|s|);
    var long, short := Padded(s, ALIGNMENT), Padded(s, SECTOR);
    assert short == long[..|short|];
    assert buf[pos..pos + |long|][..|short|] == buf[pos..pos + |short|];
  }

  /** Row by row: after the first `i` ids, the files with smaller ids are back. */
  lemma {:induction false} RowsBack(n: nat, fs: seq<File>, i: nat, k: nat)
    requires IdsBelow(fs, n) && Ascending(fs) && Representable(n, fs) && i <= n && k <= |fs| && HeaderSize(n) <= |Image(n, fs)|
    requires forall j :: 0 <= j < k ==> fs[j].id < i
    requires forall j :: k <= j < |fs| ==> fs[j].id >= i
    ensures Parse(Image(n, fs), n, i) == Done(Kept(fs[..k]))
    ensures forall j :: 0 <= j < i ==> !FetchAt(Image(n, fs), n, j).Outside?
    decreases i
  {
    hide Image, FetchAt, Padded, Representable, Kept;
    if i > 0 {
      if k > 0 && fs[k - 1].id == i - 1 {
        RowsBack(n, fs, i - 1, k - 1);
        FileRowRead(n, fs, k - 1);
        KeptStep(fs, k);
      } else {
        assert forall j :: 0 <= j < k ==> fs[j].id <= fs[k - 1].id;
        RowsBack(n, fs, i - 1, k);
        EmptyRowRead(n, fs, i - 1);
      }
    } else {
      assert k > 0 ==> fs[0].id < i;
      KeptNothing(fs);
    }
  }

  lemma KeptStep(fs: seq<File>, k: nat)
    requires 0 < k <= |fs|
    ensures var f := fs[k - 1];
      Kept(fs[..k]) == if f.bytes == [] then Kept(fs[..k - 1]) else Kept(fs[..k - 1]) + [File(f.id, Padded(f.bytes, SECTOR))]
  {
    hide Padded;
    assert fs[..k][..k - 1] == fs[..k - 1];
  }

  lemma KeptNothing(fs: seq<File>)
    ensures Kept(fs[..0]) == []
  {
  }

  /** Reading what was written gives the kept files in ascending id order, and every fetch stays
      inside the image. */
  lemma RoundTrip(n: nat, fs: seq<File>)
    requires IdsBelow(fs, n) && Ascending(fs) && Representable(n, fs)
    ensures HeaderSize(n) <= |Image(n, fs)| && Sound(Image(n, fs), n)
    ensures Parse(Image(n, fs), n, n) == Done(Kept(fs))
  {
    hide Image, FetchAt, Kept, Representable;
    ImagePieces(n, fs);
    RowsBack(n, fs, n, |fs|);
    assert fs[..|fs|] == fs;
  }

  // ------------------------------------------------------------------ writing again

  lemma PaddedTwice(s: bytes)
    ensures Padded(Padded(s, SECTOR), ALIGNMENT) == Padded(s, ALIGNMENT)
    ensures s == [] ==> Padded(s, ALIGNMENT) == []
    ensures Sectors(|Padded(s, SECTOR)|) == Sectors(|s|)
  {
    hide AlignUp;
    AlignTwice(|s|);
    AlignMultiple(|s|);
  }

  lemma AlignMultiple(size: nat)
    ensures AlignUp(AlignUp(size, SECTOR), SECTOR) == AlignUp(size, SECTOR)
    ensures AlignUp(0, ALIGNMENT) == 0
  {
  }

  /** The kept files fill the same payload area, each at the place it had. */
  lemma {:induction false} KeptPayloads(fs: seq<File>)
    ensures Payloads(Kept(fs), |Kept(fs)|) == Payloads(fs, |fs|)
    ensures Cursor(Kept(fs), |Kept(fs)|) == Cursor(fs, |fs|)
  {
    hide AlignUp, Padded, Payloads, Cursor, Kept;
    if fs == [] {
      KeptNothing([]);
      assert Kept([]) == [];
    } else {
      var init, last := fs[..|fs| - 1], fs[|fs| - 1];
      KeptPayloads(init);
      PaddedTwice(last.bytes);
      PayloadsPrefix(fs, init, |init|);
      LastPayload(fs);
      KeptStep(fs, |fs|);
      AllFiles(fs);
      if last.bytes != [] {
        PayloadsPrefix(Kept(fs), Kept(init), |Kept(init)|);
        LastPayload(Kept(fs));
      }
    }
  }

  lemma LastPayload(fs: seq<File>)
    requires fs != []
    ensures var k := |fs| - 1;
      && Payloads(fs, |fs|) == Payloads(fs, k) + Padded(fs[k].bytes, ALIGNMENT)
      && |Payloads(fs, |fs|)| == Cursor(fs, |fs|) && |Payloads(fs, k)| == Cursor(fs, k)
  {
    hide AlignUp, Padded;
  }

  lemma {:induction false} PayloadsPrefix(s: seq<File>, t: seq<File>, k: nat)
    requires k <= |s| && k <= |t| && s[..k] == t[..k]
    ensures Payloads(s, k) == Payloads(t, k) && Cursor(s, k) == Cursor(t, k)
  {
    hide AlignUp, Padded;
    if k > 0 {
      assert s[..k][k - 1] == t[..k][k - 1];
      assert s[..k - 1] == s[..k][..k - 1] && t[..k - 1] == t[..k][..k - 1];
      PayloadsPrefix(s, t, k - 1);
    }
  }

  lemma AscendingGrows(s: seq<File>, x: File)
    requires Ascending(s) && IdsBelow(s, x.id)
    ensures Ascending(s + [x]) && IdsBelow(s + [x], x.id + 1)
  {
  }

  lemma InitAscending(fs: seq<File>)
    requires Ascending(fs) && fs != []
    ensures Ascending(fs[..|fs| - 1]) && IdsBelow(fs[..|fs| - 1], fs[|fs| - 1].id)
  {
  }

  lemma {:induction false} KeptOrder(fs: seq<File>, n: nat)
    requires Ascending(fs) && IdsBelow(fs, n)
    ensures Ascending(Kept(fs)) && IdsBelow(Kept(fs), n)
  {
    hide Padded, Ascending;
    if fs == [] {
      KeptNothing([]);
      assert Ascending([]) by { NoFiles(); }
    } else {
      var init, last := fs[..|fs| - 1], fs[|fs| - 1];
      InitAscending(fs);
      KeptOrder(init, last.id);
      KeptStep(fs, |fs|);
      AllFiles(fs);
      if last.bytes != [] {
        AscendingGrows(Kept(init), File(last.id, Padded(last.bytes, SECTOR)));
      }
    }
  }

  lemma AllFiles(fs: seq<File>)
    ensures fs[..|fs|] == fs
  {
  }

  lemma {:induction false} RowsPrefix(n: nat, s: seq<File>, t: seq<File>, k: nat)
    requires IdsBelow(s, n) && IdsBelow(t, n) && k <= |s| && k <= |t| && s[..k] == t[..k]
    ensures Rows(n, s, k) == Rows(n, t, k)
  {
    hide Cursor, Sectors, Payloads;
    if k > 0 {
      assert s[..k][k - 1] == t[..k][k - 1];
      assert s[..k - 1] == s[..k][..k - 1] && t[..k - 1] == t[..k][..k - 1];
      PayloadsPrefix(s, t, k - 1);
      RowsPrefix(n, s, t, k - 1);
    }
  }

  /** No empty file lies behind one that is not empty. */
  ghost predicate EmptyFirst(fs: seq<File>) {
    forall i :: 0 <= i < |fs| && fs[i].bytes == [] ==> Cursor(fs, i) == 0
  }

  lemma EmptyFirstPrefix(fs: seq<File>)
    requires EmptyFirst(fs) && fs != []
    ensures EmptyFirst(fs[..|fs| - 1])
  {
    hide Cursor;
    var init := fs[..|fs| - 1];
    forall i | 0 <= i < |init| && init[i].bytes == []
      ensures Cursor(init, i) == 0
    {
      PayloadsPrefix(fs, init, i);
      assert fs[i] == init[i];
    }
  }

  lemma ZeroRowOf(fs: seq<File>, k: nat)
    requires k < |fs| && fs[k].bytes == []
    ensures Cursor(fs, k) == 0 ==> RowOf(fs, k) == Fill(ROW, 0)
    ensures 0 < Cursor(fs, k) < SECTOR * MAX_SIZE ==> RowOf(fs, k) != Fill(ROW, 0)
  {
    hide Cursor, AlignUp;
    ZeroRow();
    AlignMultiple(0);
    AlignTwice(0);
    var c := Cursor(fs, k);
    WholeSectors(c);
    if 0 < c < SECTOR * MAX_SIZE {
      SmallFits(c / SECTOR);
      SmallFits(0);
      EncUnsigned(false, c / SECTOR, 4);
      EncUnsigned(false, 0, 4);
      assert RowOf(fs, k)[..4] == Enc(false, c / SECTOR, 4);
      assert Fill(ROW, 0)[..4] == Enc(false, 0, 4);
      assert c / SECTOR != 0;
    }
  }

  /** With empty files in front only, the kept files produce the same table. */
  lemma {:induction false} KeptTable(n: nat, fs: seq<File>)
    requires Ascending(fs) && IdsBelow(fs, n) && EmptyFirst(fs)
    ensures IdsBelow(Kept(fs), n)
    ensures Rows(n, Kept(fs), |Kept(fs)|) == Rows(n, fs, |fs|)
  {
    hide EmptyFirst;
    KeptOrder(fs, n);
    if fs != [] {
      var init, last := fs[..|fs| - 1], fs[|fs| - 1];
      EmptyFirstPrefix(fs);
      KeptTable(n, init);
      RowsPrefix(n, fs, init, |init|);
      TableStep(n, fs);
    }
  }

  lemma TableStep(n: nat, fs: seq<File>)
    requires fs != [] && Ascending(fs) && IdsBelow(fs, n) && EmptyFirst(fs) && IdsBelow(Kept(fs), n)
    requires var init := fs[..|fs| - 1]; IdsBelow(Kept(init), n) && Rows(n, Kept(init), |Kept(init)|) == Rows(n, fs, |init|)
    ensures Rows(n, Kept(fs), |Kept(fs)|) == Rows(n, fs, |fs|)
  {
    hide Cursor, Sectors, AlignUp, Padded, Rows, RowOf, Kept;
    var k, init, last := |fs| - 1, fs[..|fs| - 1], fs[|fs| - 1];
    KeptStep(fs, |fs|);
    AllFiles(fs);
    TableNext(n, fs, k);
    if last.bytes == [] {
      ZeroRowOf(fs, k);
      RowIs(n, fs, k, last.id);
      assert !HasId(fs, k, last.id);
    } else {
      KeptTableStep(n, fs);
    }
  }

  lemma KeptTableStep(n: nat, fs: seq<File>)
    requires fs != [] && fs[|fs| - 1].bytes != [] && IdsBelow(fs, n) && IdsBelow(Kept(fs), n)
    requires IdsBelow(Kept(fs[..|fs| - 1]), n)
    ensures Rows(n, Kept(fs), |Kept(fs)|)
         == Rows(n, Kept(fs[..|fs| - 1]), |Kept(fs[..|fs| - 1])|)[fs[|fs| - 1].id := RowOf(fs, |fs| - 1)]
  {
    hide Cursor, Sectors, AlignUp, Padded, Rows, RowOf, Kept;
    var init := fs[..|fs| - 1];
    KeptStep(fs, |fs|);
    AllFiles(fs);
    RowsPrefix(n, Kept(fs), Kept(init), |Kept(init)|);
    TableNext(n, Kept(fs), |Kept(init)|);
    SameRow(fs);
  }

  lemma SameRow(fs: seq<File>)
    requires fs != [] && fs[|fs| - 1].bytes != []
    ensures var init := fs[..|fs| - 1];
      |Kept(fs)| == |Kept(init)| + 1 && RowOf(Kept(fs), |Kept(init)|) == RowOf(fs, |fs| - 1)
  {
    hide Cursor, Sectors, AlignUp, Padded, Payloads;
    var k, init, last := |fs| - 1, fs[..|fs| - 1], fs[|fs| - 1];
    KeptPayloads(init);
    PaddedTwice(last.bytes);
    PayloadsPrefix(fs, init, k);
    PayloadsPrefix(Kept(fs), Kept(init), |Kept(init)|);
  }

  /** Every kept file was a file that is not empty. */
  lemma {:induction false} KeptIds(fs: seq<File>, id: nat)
    requires HasId(Kept(fs), |Kept(fs)|, id)
    ensures exists j :: 0 <= j < |fs| && fs[j].id == id && fs[j].bytes != []
  {
    hide Padded;
    if fs != [] {
      var n, init := |fs| - 1, fs[..|fs| - 1];
      var j :| 0 <= j < |Kept(fs)| && Kept(fs)[j].id == id;
      if j < |Kept(init)| {
        assert Kept(init)[j].id == id;
        KeptIds(init, id);
        var i :| 0 <= i < |init| && init[i].id == id && init[i].bytes != [];
        assert fs[i] == init[i];
      } else {
        assert fs[n].id == id && fs[n].bytes != [];
      }
    }
  }

  lemma NotKept(fs: seq<File>, i: nat)
    requires Ascending(fs) && i < |fs| && fs[i].bytes == []
    ensures !HasId(Kept(fs), |Kept(fs)|, fs[i].id)
  {
    hide Kept;
    assert forall j :: 0 <= j < |fs| && fs[j].id == fs[i].id ==> j == i;
    if HasId(Kept(fs), |Kept(fs)|, fs[i].id) {
      KeptIds(fs, fs[i].id);
    }
  }

  /** The row of an empty file behind another is not zero, and nothing kept accounts for it. */
  lemma LostRow(n: nat, fs: seq<File>, i: nat)
    requires Ascending(fs) && IdsBelow(fs, n) && Representable(n, fs) && i < |fs| && fs[i].bytes == [] && Cursor(fs, i) > 0
    ensures IdsBelow(Kept(fs), n) && Image(n, Kept(fs)) != Image(n, fs)
  {
    hide Cursor, Sectors, AlignUp, Padded, Rows, RowOf, Kept, Payloads, Image, Flatten, At;
    KeptOrder(fs, n);
    var id := fs[i].id;
    CursorMonotone(fs, i, |fs|);
    ZeroRowOf(fs, i);
    RowIs(n, fs, |fs|, id);
    NotKept(fs, i);
    RowIs(n, Kept(fs), |Kept(fs)|, id);
    ImagePieces(n, fs);
    ImagePieces(n, Kept(fs));
    RowStands(Image(n, fs), 0, Rows(n, fs, |fs|), ROW, id);
    RowStands(Image(n, Kept(fs)), 0, Rows(n, Kept(fs), |Kept(fs)|), ROW, id);
    SamePlace(Image(n, fs), Image(n, Kept(fs)), ROW * id, RowOf(fs, i), Fill(ROW, 0));
  }

  lemma SamePlace(s: bytes, t: bytes, pos: nat, x: bytes, y: bytes)
    requires At(s, pos, x) && At(t, pos, y) && |x| == |y| && x != y
    ensures s != t
  {
  }

  /** Writing what was read reproduces the image byte for byte, exactly when no empty file lies behind
      one that is not empty; in particular for files none of which is empty. */
  lemma WriteReadWrite(n: nat, fs: seq<File>)
    requires Ascending(fs) && IdsBelow(fs, n) && Representable(n, fs)
    ensures IdsBelow(Kept(fs), n)
    ensures Image(n, Kept(fs)) == Image(n, fs) <==> EmptyFirst(fs)
  {
    hide Cursor, Rows, Payloads, Flatten, Kept, Representable;
    KeptOrder(fs, n);
    if EmptyFirst(fs) {
      KeptTable(n, fs);
      KeptPayloads(fs);
    } else {
      var i :| 0 <= i < |fs| && fs[i].bytes == [] && Cursor(fs, i) != 0;
      LostRow(n, fs, i);
    }
  }

  /** A file of one byte in front of an empty one is an archive whose image is not reproduced. */
  lemma EmptyFileLost(fs: seq<File>)
    requires fs == [File(0, [1]), File(1, [])]
    ensures IdsBelow(Kept(fs), 0x800) && Image(0x800, Kept(fs)) != Image(0x800, fs)
  {
    hide Image, Kept, AlignUp;
    AlignUnique(1, ALIGNMENT, ALIGNMENT);
    AlignMultiple(0);
    assert Cursor(fs, 0) == 0 && Cursor(fs, 1) == ALIGNMENT && Cursor(fs, 2) == ALIGNMENT;
    WriteReadWrite(0x800, fs);
    assert fs[1].bytes == [];
  }

  /** How long the image is does not depend on the order of the files. */
  lemma {:induction false} SizeOfAnyOrder(s: seq<File>, t: seq<File>)
    requires multiset(s) == multiset(t)
    ensures Cursor(s, |s|) == Cursor(t, |t|)
    decreases |s|
  {
    hide AlignUp, Cursor;
    SameLength(s, t);
    if s != [] {
      var n, x := |s| - 1, s[|s| - 1];
      WithoutLast(s);
      var i := PlaceOf(t, x);
      SizeOfAnyOrder(s[..n], t[..i] + t[i + 1..]);
      PayloadsPrefix(s, s[..n], n);
      CursorNext(s, n);
      SizeWithout(t, i, |t|);
    }
  }

  lemma SameLength(s: seq<File>, t: seq<File>)
    requires multiset(s) == multiset(t)
    ensures |s| == |t| && (s == [] ==> t == [])
  {
    assert |s| == |multiset(s)| && |t| == |multiset(t)|;
  }

  lemma PlaceOf(t: seq<File>, x: File) returns (i: nat)
    requires x in multiset(t)
    ensures i < |t| && t[i] == x && multiset(t[..i] + t[i + 1..]) == multiset(t) - multiset{x}
  {
    i :| i < |t| && t[i] == x;
    assert t == t[..i] + [x] + t[i + 1..];
  }

  lemma {:induction false} SizeWithout(t: seq<File>, i: nat, k: nat)
    requires i < k <= |t|
    ensures Cursor(t, k) == Cursor(t[..i] + t[i + 1..], k - 1) + AlignUp(|t[i].bytes|, ALIGNMENT)
  {
    hide AlignUp, Cursor;
    var rest := t[..i] + t[i + 1..];
    CursorNext(t, k - 1);
    if i == k - 1 {
      PayloadsPrefix(t, rest, i);
    } else {
      SizeWithout(t, i, k - 1);
      CursorNext(rest, k - 2);
    }
  }
}
