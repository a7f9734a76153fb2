/** FSDATA spelled out word by word: which bytes are read as which files, and what is written. */
module FsdataWords {
  import opened Bytes
  import opened Reading
  import opened Words
  import opened Fsdata
  import opened FsdataReading
  import opened FsdataArchive

  // ------------------------------------------------------------------ the words

  /** The two words of row `i`: a sector number and a length in sectors of 2048 bytes. */
  function Sector(buf: bytes, i: nat): int
    requires 8 * i + 8 <= |buf|
  {
    I32(buf, 8 * i, false)
  }

  function Length(buf: bytes, i: nat): int
    requires 8 * i + 8 <= |buf|
  {
    I32(buf, 8 * i + 4, false)
  }

  /** A row with a positive length that lies in the buffer, counted from the end of the table. */
  ghost predicate RowFound(buf: bytes, n: nat, i: nat, content: bytes) {
    && i < n && 8 * n <= |buf| && Length(buf, i) > 0
    && var start, size := 8 * n + 2048 * Sector(buf, i), 2048 * Length(buf, i);
       0 <= start && start + size <= |buf| && content == buf[start..start + size]
  }

  /** The files are those of the rows with a positive length, in the order of the rows. */
  ghost predicate Carries(buf: bytes, n: nat, fs: seq<File>) {
    && 8 * n <= |buf| && Ascending(fs)
    && (forall k :: 0 <= k < |fs| ==> RowFound(buf, n, fs[k].id, fs[k].bytes))
    && forall i :: 0 <= i < n && Length(buf, i) > 0 ==> Listed(fs, i)
  }

  ghost predicate Listed(fs: seq<File>, id: nat) {
    exists k :: 0 <= k < |fs| && fs[k].id == id
  }

  // ------------------------------------------------------------------ reading

  lemma RowWords(buf: bytes, n: nat, i: nat)
    requires i < n && 8 * n <= |buf|
    ensures SectorAt(buf, i) == Sector(buf, i) && LengthAt(buf, i) == Length(buf, i)
  {
    hide UnLE, I32;
    Read32(buf, 8 * i, false);
    Read32(buf, 8 * i + 4, false);
  }

  /** What a row comes to. */
  lemma FetchIs(buf: bytes, n: nat, i: nat)
    requires i < n && 8 * n <= |buf| < 0x4000_0000_0000_0000
    ensures var f := FetchAt(buf, n, i);
      && (f.Skip? <==> Length(buf, i) <= 0)
      && (f.Slice? <==> RowFound(buf, n, i, if f.Slice? then buf[f.lo..f.hi] else []))
      && (forall s :: RowFound(buf, n, i, s) ==> f.Slice? && s == buf[f.lo..f.hi])
  {
    hide Sector, Length, SectorAt, LengthAt;
    RowWords(buf, n, i);
    WordRange(buf, n, i);
    var start, count := 8 * n + 2048 * Sector(buf, i), 2048 * Length(buf, i);
    if Length(buf, i) > 0 && 0 <= start && start + count <= |buf| {
      SmallMod(start, WORD);
      SmallMod(start + count, WORD);
    }
  }

  lemma WordRange(buf: bytes, n: nat, i: nat)
    requires i < n && 8 * n <= |buf|
    ensures -0x8000_0000 <= Sector(buf, i) < 0x8000_0000 && -0x8000_0000 <= Length(buf, i) < 0x8000_0000
  {
  }

  /** The rows read so far. */
  ghost predicate CarriesUpTo(buf: bytes, n: nat, fs: seq<File>, k: nat) {
    && 8 * n <= |buf| && k <= n && Ascending(fs) && IdsBelow(fs, k)
    && (forall j :: 0 <= j < |fs| ==> RowFound(buf, n, fs[j].id, fs[j].bytes))
    && forall i :: 0 <= i < k && Length(buf, i) > 0 ==> Listed(fs, i)
  }

  lemma {:induction false} RowsCarried(buf: bytes, n: nat, k: nat)
    requires k <= n && 8 * n <= |buf| < 0x4000_0000_0000_0000 && Parse(buf, n, k).Done?
    ensures CarriesUpTo(buf, n, Parse(buf, n, k).value, k)
  {
    hide FetchAt, RowFound, Length, Sector;
    if k > 0 {
      RowsCarried(buf, n, k - 1);
      FetchIs(buf, n, k - 1);
      var init := Parse(buf, n, k - 1).value;
      var f := FetchAt(buf, n, k - 1);
      if f.Slice? {
        ListedMore(init, File(k - 1, buf[f.lo..f.hi]));
        AscendingGrows(init, File(k - 1, buf[f.lo..f.hi]));
      }
    }
  }

  lemma ListedMore(fs: seq<File>, x: File)
    ensures forall id: nat :: Listed(fs + [x], id) <==> Listed(fs, id) || id == x.id
  {
    forall id: nat
      ensures Listed(fs + [x], id) <==> Listed(fs, id) || id == x.id
    {
      var gs := fs + [x];
      assert gs[|fs|] == x;
      if Listed(fs, id) {
        var k :| 0 <= k < |fs| && fs[k].id == id;
        assert gs[k].id == id;
      }
    }
  }

  /** The first files, those with ids below `k`. */
  function Below(fs: seq<File>, k: nat): (s: seq<File>)
    ensures |s| <= |fs|
  {
    if fs == [] || fs[|fs| - 1].id < k then fs else Below(fs[..|fs| - 1], k)
  }

  lemma {:induction false} BelowIs(fs: seq<File>, k: nat)
    requires Ascending(fs)
    ensures Below(fs, k) == fs[..|Below(fs, k)|] && IdsBelow(Below(fs, k), k)
    ensures forall j :: 0 <= j < |Below(fs, k)| ==> fs[j].id < k
    ensures forall j :: |Below(fs, k)| <= j < |fs| ==> fs[j].id >= k
  {
    if fs != [] && fs[|fs| - 1].id >= k {
      var init := fs[..|fs| - 1];
      BelowIs(init, k);
      assert init[..|Below(init, k)|] == fs[..|Below(init, k)|];
      assert forall j :: 0 <= j < |init| ==> init[j] == fs[j];
    }
  }

  lemma BelowStep(fs: seq<File>, k: nat)
    requires Ascending(fs)
    ensures if Listed(fs, k) then
              var m := |Below(fs, k)|; m < |fs| && fs[m].id == k && Below(fs, k + 1) == Below(fs, k) + [fs[m]]
            else Below(fs, k + 1) == Below(fs, k)
  {
    BelowIs(fs, k);
    BelowIs(fs, k + 1);
    var m, m' := |Below(fs, k)|, |Below(fs, k + 1)|;
    if Listed(fs, k) {
      var j :| 0 <= j < |fs| && fs[j].id == k;
      assert m <= j && fs[m].id == k;
      assert m + 1 < |fs| ==> fs[m + 1].id > k;
      assert m' == m + 1;
      assert fs[..m + 1] == fs[..m] + [fs[m]];
    } else {
      assert m < |fs| ==> fs[m].id > k;
      assert m' < |fs| ==> fs[m'].id > k;
      assert m' == m;
    }
  }

  lemma {:induction false} CarriedParsed(buf: bytes, n: nat, fs: seq<File>, k: nat)
    requires Carries(buf, n, fs) && |buf| < 0x4000_0000_0000_0000 && k <= n
    ensures Parse(buf, n, k) == Done(Below(fs, k))
  {
    hide FetchAt, RowFound, Length, Sector, Below, Listed;
    if k == 0 {
      BelowIs(fs, 0);
      assert Below(fs, 0) == [] by { NoneBelow(fs); }
    } else {
      CarriedParsed(buf, n, fs, k - 1);
      FetchIs(buf, n, k - 1);
      BelowStep(fs, k - 1);
      if Listed(fs, k - 1) {
        var m := |Below(fs, k - 1)|;
        assert RowFound(buf, n, fs[m].id, fs[m].bytes);
        assert FetchAt(buf, n, k - 1).Slice?;
      } else {
        assert Length(buf, k - 1) <= 0;
      }
    }
  }

  lemma NoneBelow(fs: seq<File>)
    requires Ascending(fs)
    ensures Below(fs, 0) == []
  {
    BelowIs(fs, 0);
    assert Below(fs, 0) != [] ==> Below(fs, 0)[0].id < 0;
  }

  lemma AllBelow(buf: bytes, n: nat, fs: seq<File>)
    requires Carries(buf, n, fs)
    ensures Below(fs, n) == fs
  {
    hide Length, Sector;
    if fs != [] {
      var k := |fs| - 1;
      assert RowFound(buf, n, fs[k].id, fs[k].bytes);
    }
  }

  /** What is read, to the word: reading succeeds exactly for tables whose rows all lie in the buffer, and
      then gives these files. */
  lemma ReadExactly(buf: bytes, n: int, fs: seq<File>)
    requires |buf| < 0x4000_0000_0000_0000
    ensures ParseArchive(buf, n) == Done(fs) <==> n > 0 && n % 2048 == 0 && Carries(buf, n, fs)
  {
    hide Parse, RowFound, Length, Sector, Below, Listed;
    if n > 0 && n % 2048 == 0 && 8 * n <= |buf| {
      if Parse(buf, n, n).Done? {
        RowsCarried(buf, n, n);
      }
      if Carries(buf, n, fs) {
        CarriedParsed(buf, n, fs, n);
        AllBelow(buf, n, fs);
      }
    }
  }

  /** A row with a positive length that ends outside the buffer; and one that begins in front of it and ends
      inside. */
  ghost predicate RowRefused(buf: bytes, n: nat, i: nat) {
    && i < n && 8 * n <= |buf| && Length(buf, i) > 0
    && var end := 8 * n + 2048 * (Sector(buf, i) + Length(buf, i)); end < 0 || end > |buf|
  }

  ghost predicate RowInFront(buf: bytes, n: nat, i: nat) {
    && i < n && 8 * n <= |buf| && Length(buf, i) > 0
    && 8 * n + 2048 * Sector(buf, i) < 0 <= 8 * n + 2048 * (Sector(buf, i) + Length(buf, i)) <= |buf|
  }

  lemma FetchFails(buf: bytes, n: nat, i: nat)
    requires i < n && 8 * n <= |buf| < 0x4000_0000_0000_0000
    ensures FetchAt(buf, n, i).Refused? <==> RowRefused(buf, n, i)
    ensures FetchAt(buf, n, i).Outside? <==> RowInFront(buf, n, i)
  {
    hide Sector, Length, SectorAt, LengthAt, FetchOf;
    RowWords(buf, n, i);
    FetchIs(buf, n, i);
    SectorFits(buf, n, i);
    var start, size := 8 * n + 2048 * Sector(buf, i), 2048 * Length(buf, i);
    if Length(buf, i) > 0 && 0 <= start && start + size <= |buf| {
      assert RowFound(buf, n, i, buf[start..start + size]);
    }
    OutsideExactly(8 * n, |buf|, SectorAt(buf, i), LengthAt(buf, i));
  }

  lemma SectorFits(buf: bytes, n: nat, i: nat)
    requires i < n && 8 * n <= |buf|
    ensures Fits(SectorAt(buf, i), 4) && Fits(LengthAt(buf, i), 4)
  {
    hide SectorAt, LengthAt, Sector, Length;
    Widths();
    RowWords(buf, n, i);
    WordRange(buf, n, i);
  }

  lemma {:induction false} FailsExactly(buf: bytes, n: nat, k: nat)
    requires k <= n && 8 * n <= |buf| < 0x4000_0000_0000_0000
    ensures Parse(buf, n, k) == Failed(InvalidArg)
       <==> exists i :: 0 <= i < k && RowRefused(buf, n, i) && forall j :: 0 <= j < i ==> !RowInFront(buf, n, j)
    ensures Parse(buf, n, k).Failed? ==> Parse(buf, n, k).error == InvalidArg
    ensures Parse(buf, n, k).Undefined?
       <==> exists i :: 0 <= i < k && RowInFront(buf, n, i) && forall j :: 0 <= j < i ==> !RowRefused(buf, n, j)
    ensures Parse(buf, n, k).Done? <==> forall i :: 0 <= i < k ==> !RowRefused(buf, n, i) && !RowInFront(buf, n, i)
  {
    hide FetchAt, RowRefused, RowInFront;
    if k > 0 {
      FailsExactly(buf, n, k - 1);
      FetchFails(buf, n, k - 1);
    }
  }

  /** Which tables are refused: those of another size, and those with a row that is refused before any that
      reaches in front of the buffer. */
  lemma RefusedWith(buf: bytes, n: int, e: Error)
    requires |buf| < 0x4000_0000_0000_0000
    ensures ParseArchive(buf, n) == Failed(e) <==>
      && e == InvalidArg
      && (n <= 0 || n % 2048 != 0 || |buf| < 8 * n
          || exists i :: 0 <= i < n && RowRefused(buf, n, i) && forall j :: 0 <= j < i ==> !RowInFront(buf, n, j))
  {
    hide Parse, RowRefused, RowInFront;
    if n > 0 && n % 2048 == 0 && 8 * n <= |buf| {
      FailsExactly(buf, n, n);
    }
  }

  // ------------------------------------------------------------------ writing

  /** Where payload `k` stands: behind the table, and each on the next multiple of 32 KiB behind the one
      before. */
  function Place(n: nat, fs: seq<File>, k: nat): nat
    requires k <= |fs|
  {
    if k == 0 then 8 * n else Place(n, fs, k - 1) + (|fs[k - 1].bytes| + 0x7FFF) / 0x8000 * 0x8000
  }

  /** The row of file `k` and its payload, filled up with zeros. */
  ghost predicate FileWritten(buf: bytes, n: nat, fs: seq<File>, k: nat) {
    && k < |fs| && fs[k].id < n && 8 * n <= |buf|
    && 8 * n + 2048 * Sector(buf, fs[k].id) == Place(n, fs, k) && Length(buf, fs[k].id) == (|fs[k].bytes| + 2047) / 2048
    && At(buf, Place(n, fs, k), fs[k].bytes) && Place(n, fs, k + 1) <= |buf|
    && forall i :: Place(n, fs, k) + |fs[k].bytes| <= i < Place(n, fs, k + 1) ==> buf[i] == 0
  }

  ghost predicate Written(buf: bytes, n: nat, fs: seq<File>) {
    && 8 * n <= |buf| == Place(n, fs, |fs|)
    && (forall k :: 0 <= k < |fs| ==> FileWritten(buf, n, fs, k))
    && forall i :: 0 <= i < n && !Listed(fs, i) ==> Sector(buf, i) == 0 && Length(buf, i) == 0
  }

  lemma {:induction false} PlaceIs(n: nat, fs: seq<File>, k: nat)
    requires k <= |fs|
    ensures Place(n, fs, k) == HeaderSize(n) + Cursor(fs, k)
  {
    hide AlignUp;
    if k > 0 {
      PlaceIs(n, fs, k - 1);
      CursorNext(fs, k - 1);
      RoundsUp(|fs[k - 1].bytes|, 0x8000);
    }
  }

  lemma OneWritten(n: nat, fs: seq<File>, k: nat)
    requires Ascending(fs) && IdsBelow(fs, n) && Representable(n, fs) && k < |fs|
    ensures FileWritten(Image(n, fs), n, fs, k)
  {
    hide At, Image, Rows, Payloads, Flatten, Cursor, Sector, Length, AlignUp, Place;
    var buf, size, c := Image(n, fs), |fs[k].bytes|, Cursor(fs, k);
    ImagePieces(n, fs);
    RowStands(buf, 0, Rows(n, fs, |fs|), ROW, fs[k].id);
    RowIs(n, fs, |fs|, fs[k].id);
    PlaceIs(n, fs, k);
    PlaceIs(n, fs, k + 1);
    CursorNext(fs, k);
    CursorMonotone(fs, k + 1, |fs|);
    WholeSectors(c);
    SectorsIs(size);
    RowSpelled(buf, n, fs[k].id, c / SECTOR, Sectors(size));
    PayloadSpelled(buf, HeaderSize(n), fs, k);
  }

  lemma PayloadSpelled(buf: bytes, base: nat, fs: seq<File>, k: nat)
    requires k < |fs| && At(buf, base, Payloads(fs, |fs|))
    ensures var size, at := |fs[k].bytes|, base + Cursor(fs, k);
      && At(buf, at, fs[k].bytes) && size <= AlignUp(size, ALIGNMENT) && at + AlignUp(size, ALIGNMENT) <= |buf|
      && forall j :: at + size <= j < at + AlignUp(size, ALIGNMENT) ==> buf[j] == 0
  {
    hide At, Payloads, Cursor, AlignUp;
    var size, at := |fs[k].bytes|, base + Cursor(fs, k);
    PayloadStands(fs, |fs|, k);
    AtTrans(buf, base, Payloads(fs, |fs|), Cursor(fs, k), Padded(fs[k].bytes, ALIGNMENT));
    AtSplit(buf, at, fs[k].bytes, Fill(AlignUp(size, ALIGNMENT) - size, 0));
    ZerosAt(buf, at + size, AlignUp(size, ALIGNMENT) - size);
  }

  lemma SectorsIs(size: nat)
    ensures Sectors(size) == (size + 2047) / 2048 && Sectors(size) * 2048 == AlignUp(size, SECTOR)
    ensures AlignUp(size, SECTOR) <= AlignUp(size, ALIGNMENT)
  {
    hide AlignUp;
    RoundsUp(size, 2048);
    AlignTwice(size);
  }

  lemma RowSpelled(buf: bytes, n: nat, i: nat, sector: nat, length: nat)
    requires i < n && 8 * n <= |buf| && At(buf, 8 * i, Enc(false, sector, 4) + Enc(false, length, 4))
    requires sector < 0x8000_0000 && length < 0x8000_0000
    ensures Sector(buf, i) == sector && Length(buf, i) == length
  {
    hide Enc, I32, U32;
    AtSplit(buf, 8 * i, Enc(false, sector, 4), Enc(false, length, 4));
    Stored32(buf, 8 * i, false, sector);
    Stored32(buf, 8 * i + 4, false, length);
  }

  lemma EmptyRow(n: nat, fs: seq<File>, i: nat)
    requires Ascending(fs) && IdsBelow(fs, n) && i < n && !Listed(fs, i) && 8 * n <= |Image(n, fs)|
    ensures Sector(Image(n, fs), i) == 0 && Length(Image(n, fs), i) == 0
  {
    hide At, Image, Rows, Payloads, Flatten, Cursor, Sector, Length;
    ImagePieces(n, fs);
    RowStands(Image(n, fs), 0, Rows(n, fs, |fs|), ROW, i);
    RowIs(n, fs, |fs|, i);
    ZeroRow();
    RowSpelled(Image(n, fs), n, i, 0, 0);
  }

  /** What is written, to the byte: the rows, zero where there is no file, and the payloads. */
  lemma WrittenExactly(n: nat, fs: seq<File>)
    requires Ascending(fs) && IdsBelow(fs, n) && Representable(n, fs)
    ensures Written(Image(n, fs), n, fs)
  {
    hide Image, Sector, Length, Place, FileWritten, Listed, Cursor, Payloads, Rows;
    ImagePieces(n, fs);
    PlaceIs(n, fs, |fs|);
    forall k | 0 <= k < |fs|
      ensures FileWritten(Image(n, fs), n, fs, k)
    {
      OneWritten(n, fs, k);
    }
    forall i | 0 <= i < n && !Listed(fs, i)
      ensures Sector(Image(n, fs), i) == 0 && Length(Image(n, fs), i) == 0
    {
      EmptyRow(n, fs, i);
    }
  }
}
