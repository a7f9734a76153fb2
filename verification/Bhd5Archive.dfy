/** An opened BHD5 index: its buckets, its file slots over two shared range pools, and the table
    that finds a file by its path hash. */
module Bhd5Archive {
  import opened Bytes
  import opened Reading
  import opened Bhd5
  import opened Bhd5Parsing
  import opened Bhd5Reading
  import opened Bhd5Decrypting
  import HashIndex
  import Bhd5Words

  // ------------------------------------------------------------------ reading the head

  method ReadNonNeg(rd: BinaryReader) returns (r: Result<nat>)
    requires rd.Valid()
    modifies rd`pos
    ensures rd.Valid()
    ensures r == NonNeg(rd.buf, old(rd.pos), rd.bigEndian)
    ensures r.Ok? ==> rd.pos == old(rd.pos) + 4
  {
    var v :- rd.ReadSInt(4);
    if v < 0 {
      return Err(OutOfRange);
    }
    return Ok(v);
  }

  method ReadLead(rd: BinaryReader) returns (r: Result<Lead>)
    requires rd.Valid() && rd.pos == 0
    modifies rd`pos, rd`bigEndian
    ensures rd.Valid()
    ensures r == ParseLead(rd.buf)
    ensures r.Ok? ==> rd.pos == 16 && rd.bigEndian == r.value.be
  {
    hide GetBool, ExpectBytes, ExpectSInt, GetSInt, GetUInt;
    var _ :- rd.AssertBytes(MAGIC);
    var e :- rd.AssertByte({0, 0xFF});
    rd.bigEndian := e == 0;
    var unk05 :- rd.ReadBool();
    var _ :- rd.AssertByte({0});
    var _ :- rd.AssertByte({0});
    var _ :- rd.AssertSInt(4, 1);
    var _ :- rd.ReadSInt(4);
    return Ok(Lead(e == 0, unk05));
  }

  method GuessWidth(rd: BinaryReader) returns (wide: bool)
    requires rd.Valid()
    modifies rd`pos
    ensures rd.Valid() && rd.pos == old(rd.pos)
    ensures wide == LooksWide(rd.buf, rd.bigEndian)
  {
    hide GetSInt;
    if |rd.buf| <= 0x28 {
      return false;
    }
    var back := rd.pos;
    rd.pos := 0x14;
    var test0 := rd.ReadSInt(4);
    rd.pos := 0x1C;
    var test1 := rd.ReadSInt(4);
    rd.pos := back;
    return test0 == Ok(0) && test1 == Ok(0);
  }

  method ReadCounts(rd: BinaryReader) returns (r: Result<Counts>)
    requires rd.Valid() && rd.pos == 16
    modifies rd`pos
    ensures rd.Valid()
    ensures r == ParseCounts(rd.buf, rd.bigEndian)
    ensures r.Ok? ==> rd.pos == r.value.next
  {
    hide GetSInt, NonNeg, LooksWide;
    var wide := GuessWidth(rd);
    if wide {
      var n :- rd.ReadSInt(8);
      var at :- rd.ReadSInt(8);
      if n < 0 || at < 0 {
        return Err(OutOfRange);
      }
      return Ok(Counts(true, n, at, 32));
    }
    var n :- ReadNonNeg(rd);
    var at :- ReadNonNeg(rd);
    return Ok(Counts(false, n, at, 24));
  }

  method ReadSalt(rd: BinaryReader) returns (r: Result<bytes>)
    requires rd.Valid()
    modifies rd`pos
    ensures rd.Valid()
    ensures r == ParseSalt(rd.buf, old(rd.pos), rd.bigEndian)
  {
    hide NonNeg, AsciiText, CString;
    var n :- ReadNonNeg(rd);
    var s :- rd.ReadBytes(n);
    var t := AsciiToText(s);
    return Ok(CString(t));
  }

  // ------------------------------------------------------------------ buckets and headers

  method ReadBucket(rd: BinaryReader, wide: bool) returns (r: Result<Spot>)
    requires rd.Valid()
    modifies rd`pos
    ensures rd.Valid()
    ensures r == ParseBucket(rd.buf, old(rd.pos), rd.bigEndian, wide)
    ensures r.Ok? ==> rd.pos == old(rd.pos) + BucketWidth(wide)
  {
    hide GetSInt, NonNeg;
    var count :- ReadNonNeg(rd);
    if wide {
      var flag :- rd.ReadSInt(4);
      if flag != 1 {
        return Err(BadMagic);
      }
      var off :- rd.ReadSInt(8);
      if off < 0 {
        return Err(OutOfRange);
      }
      return Ok(Spot(count, off));
    }
    var off :- ReadNonNeg(rd);
    return Ok(Spot(count, off));
  }

  lemma {:induction false} DirectoryFailsEarly(buf: bytes, pos: nat, be: bool, wide: bool, k: nat, n: nat)
    requires k <= n && ParseDirectory(buf, pos, be, wide, k).Err?
    ensures ParseDirectory(buf, pos, be, wide, n) == ParseDirectory(buf, pos, be, wide, k)
    decreases n - k
  {
    hide ParseBucket;
    if k < n {
      DirectoryFailsEarly(buf, pos, be, wide, k + 1, n);
    }
  }

  lemma BadBucket(buf: bytes, pos: nat, be: bool, wide: bool, i: nat, n: nat)
    requires i < n && ParseDirectory(buf, pos, be, wide, i).Ok? && ParseBucket(buf, pos + BucketWidth(wide) * i, be, wide).Err?
    ensures ParseDirectory(buf, pos, be, wide, n) == Err(ParseBucket(buf, pos + BucketWidth(wide) * i, be, wide).error)
  {
    hide ParseBucket;
    DirectoryFailsEarly(buf, pos, be, wide, i + 1, n);
  }

  lemma NoDirectory(buf: bytes, pos: nat, be: bool, wide: bool)
    ensures ParseDirectory(buf, pos, be, wide, 0) == Ok(Directory([], [])) && FirstFile([], 0) == 0
  {
  }

  /** The bucket table, with a running total of the files. */
  method ReadDirectory(rd: BinaryReader, wide: bool, n: nat) returns (r: Result<Directory>, total: nat)
    requires rd.Valid()
    modifies rd`pos
    ensures rd.Valid()
    ensures r == ParseDirectory(rd.buf, old(rd.pos), rd.bigEndian, wide, n)
    ensures r.Ok? ==> total == FirstFile(r.value.buckets, n)
  {
    hide ParseBucket, ParseDirectory, FirstFile;
    NoDirectory(rd.buf, rd.pos, rd.bigEndian, wide);
    ghost var at := rd.pos;
    var buckets: seq<Bucket>, offsets: seq<nat> := [], [];
    total := 0;
    for i := 0 to n
      invariant rd.Valid() && rd.pos == at + BucketWidth(wide) * i
      invariant |buckets| == i && ParseDirectory(rd.buf, at, rd.bigEndian, wide, i) == Ok(Directory(buckets, offsets))
      invariant total == FirstFile(buckets, i)
    {
      var spot := ReadBucket(rd, wide);
      if spot.Err? {
        BadBucket(rd.buf, at, rd.bigEndian, wide, i, n);
        return Err(spot.error), 0;
      }
      DirectoryStep(rd.buf, at, rd.bigEndian, wide, i, Directory(buckets, offsets), spot.value);
      TotalGrows(buckets, Bucket(spot.value.count, total));
      buckets := buckets + [Bucket(spot.value.count, total)];
      offsets := offsets + [spot.value.offset];
      total := total + spot.value.count;
    }
    return Ok(Directory(buckets, offsets)), total;
  }

  method ReadHeader(rd: BinaryReader, game: Game) returns (r: Result<Header>)
    requires rd.Valid()
    modifies rd`pos
    ensures rd.Valid()
    ensures r == ParseHeader(game, rd.buf, old(rd.pos), rd.bigEndian)
    ensures r.Ok? ==> rd.pos == old(rd.pos) + HEADER_SIZE
  {
    hide GetSInt, GetUInt, NonNeg, MakeHeader;
    if Narrow(game) {
      var pathHash :- rd.ReadUInt(4);
      var padded :- ReadNonNeg(rd);
      var offset :- rd.ReadSInt(8);
      var shaAt :- rd.ReadSInt(8);
      var aesAt :- rd.ReadSInt(8);
      var unpadded :- rd.ReadSInt(8);
      r := MakeHeader(pathHash, padded, unpadded, offset, shaAt, aesAt);
    } else {
      var pathHash :- rd.ReadUInt(8);
      var padded :- ReadNonNeg(rd);
      var unpadded :- ReadNonNeg(rd);
      var offset :- rd.ReadSInt(8);
      var shaAt :- rd.ReadSInt(8);
      var aesAt :- rd.ReadSInt(8);
      r := MakeHeader(pathHash, padded, unpadded, offset, shaAt, aesAt);
    }
  }

  lemma {:induction false} RunFailsEarly(game: Game, buf: bytes, pos: nat, be: bool, k: nat, n: nat)
    requires k <= n && ParseRun(game, buf, pos, be, k).Err?
    ensures ParseRun(game, buf, pos, be, n) == ParseRun(game, buf, pos, be, k)
    decreases n - k
  {
    hide ParseHeader;
    if k < n {
      RunFailsEarly(game, buf, pos, be, k + 1, n);
    }
  }

  /** The headers of one bucket, into the array from the bucket's first file on. */
  method ReadRun(rd: BinaryReader, game: Game, hs: array<Header>, first: nat, n: nat) returns (r: Result<()>)
    requires rd.Valid() && first + n <= hs.Length
    modifies rd`pos, hs
    ensures rd.Valid()
    ensures var t := ParseRun(game, rd.buf, old(rd.pos), rd.bigEndian, n);
      if t.Err? then r == Err(t.error)
      else r == Ok(()) && hs[..first + n] == old(hs[..first]) + t.value
  {
    hide ParseHeader;
    ghost var at := rd.pos;
    for j := 0 to n
      invariant rd.Valid() && rd.pos == at + HEADER_SIZE * j
      invariant ParseRun(game, rd.buf, at, rd.bigEndian, j).Ok?
      invariant hs[..first + j] == old(hs[..first]) + ParseRun(game, rd.buf, at, rd.bigEndian, j).value
    {
      var h := ReadHeader(rd, game);
      if h.Err? {
        RunFailsEarly(game, rd.buf, at, rd.bigEndian, j + 1, n);
        return Err(h.error);
      }
      hs[first + j] := h.value;
      assert hs[..first + j + 1] == hs[..first + j] + [h.value];
    }
    return Ok(());
  }

  lemma {:induction false} HeadersFailEarly(game: Game, buf: bytes, be: bool, d: Directory, k: nat, n: nat)
    requires k <= n <= |d.buckets| == |d.offsets| && ParseHeaders(game, buf, be, d, k).Err?
    ensures ParseHeaders(game, buf, be, d, n) == ParseHeaders(game, buf, be, d, k)
    decreases n - k
  {
    hide ParseRun;
    if k < n {
      HeadersFailEarly(game, buf, be, d, k + 1, n);
    }
  }

  lemma HeadersStep(game: Game, buf: bytes, be: bool, d: Directory, k: nat)
    requires k < |d.buckets| == |d.offsets| && ParseHeaders(game, buf, be, d, k).Ok?
    ensures var init, next := ParseHeaders(game, buf, be, d, k).value, ParseHeaders(game, buf, be, d, k + 1);
      var p, count := SeekTo(buf, d.offsets[k]), d.buckets[k].count;
      && (count == 0 ==> next == Ok(init))
      && (count > 0 && p.Err? ==> next == Err(p.error))
      && (count > 0 && p.Ok? && ParseRun(game, buf, p.value, be, count).Err? ==>
            next == Err(ParseRun(game, buf, p.value, be, count).error))
      && (count > 0 && p.Ok? && ParseRun(game, buf, p.value, be, count).Ok? ==>
            next == Ok(init + ParseRun(game, buf, p.value, be, count).value))
  {
    hide ParseRun;
  }

  method ReadHeaders(rd: BinaryReader, game: Game, d: Directory, total: nat) returns (r: Result<()>, hs: array<Header>)
    requires rd.Valid() && |d.buckets| == |d.offsets| && Partition(d.buckets, total)
    modifies rd`pos
    ensures rd.Valid() && fresh(hs)
    ensures var t := ParseHeaders(game, rd.buf, rd.bigEndian, d, |d.buckets|);
      if t.Err? then r == Err(t.error) else r == Ok(()) && hs[..] == t.value
  {
    hide ParseRun, ParseHeaders, Fits, FirstFile;
    hs := new Header[total](_ => Header(0, 0, 0, 0, 0, 0));
    ghost var n := |d.buckets|;
    NoHeaders(game, rd.buf, rd.bigEndian, d);
    for i := 0 to |d.buckets|
      invariant rd.Valid() && FirstFile(d.buckets, i) <= hs.Length
      invariant ParseHeaders(game, rd.buf, rd.bigEndian, d, i) == Ok(hs[..FirstFile(d.buckets, i)])
    {
      HeadersStep(game, rd.buf, rd.bigEndian, d, i);
      TilesBelow(d.buckets, total, i);
      var count := d.buckets[i].count;
      if count == 0 {
        continue;
      }
      var back := rd.pos;
      var seek := rd.Seek(d.offsets[i]);
      if seek.Err? {
        HeadersFailEarly(game, rd.buf, rd.bigEndian, d, i + 1, n);
        return Err(seek.error), hs;
      }
      var run := ReadRun(rd, game, hs, d.buckets[i].firstFile, count);
      if run.Err? {
        HeadersFailEarly(game, rd.buf, rd.bigEndian, d, i + 1, n);
        return Err(run.error), hs;
      }
      rd.pos := back;
    }
    assert hs[..total] == hs[..];
    return Ok(()), hs;
  }

  lemma NoHeaders(game: Game, buf: bytes, be: bool, d: Directory)
    requires |d.buckets| == |d.offsets|
    ensures ParseHeaders(game, buf, be, d, 0) == Ok([]) && FirstFile(d.buckets, 0) == 0
  {
  }

  lemma TilesBelow(buckets: seq<Bucket>, total: nat, i: nat)
    requires Partition(buckets, total) && i < |buckets|
    ensures buckets[i].firstFile == FirstFile(buckets, i)
    ensures FirstFile(buckets, i + 1) == FirstFile(buckets, i) + buckets[i].count <= total
  {
    hide Fits;
    FirstFileMonotone(buckets, i + 1, |buckets|);
  }

  // ------------------------------------------------------------------ lookup

  function SlotHashes(slots: seq<Slot>): (hs: seq<nat>)
    ensures |hs| == |slots| && forall i :: 0 <= i < |hs| ==> hs[i] == slots[i].pathHash
  {
    seq(|slots|, i requires 0 <= i < |slots| => slots[i].pathHash)
  }

  ghost predicate FirstWins(table: map<nat, nat>, hashes: seq<nat>) {
    && (forall h :: h in table ==> HashIndex.Scan(hashes, h, 0) == Some(table[h]))
    && (forall i :: 0 <= i < |hashes| ==> hashes[i] in table)
  }

  lemma {:induction false} ScanAppend(hashes: seq<nat>, x: nat, h: nat, i: nat)
    requires i <= |hashes|
    ensures HashIndex.Scan(hashes + [x], h, i)
         == if HashIndex.Scan(hashes, h, i).Some? then HashIndex.Scan(hashes, h, i) else if x == h then Some(|hashes|) else None
    decreases |hashes| - i
  {
    if i < |hashes| {
      ScanAppend(hashes, x, h, i + 1);
    }
  }

  /** Enters every file under its hash unless an earlier file has it already. */
  method BuildLookup(slots: array<Slot>) returns (table: map<nat, nat>)
    ensures FirstWins(table, SlotHashes(slots[..]))
  {
    hide HashIndex.Scan;
    table := map[];
    for i := 0 to slots.Length
      invariant FirstWins(table, SlotHashes(slots[..i]))
    {
      var h := slots[i].pathHash;
      var hashes := SlotHashes(slots[..i]);
      assert SlotHashes(slots[..i + 1]) == hashes + [h];
      forall g
        ensures HashIndex.Scan(hashes + [h], g, 0)
             == if HashIndex.Scan(hashes, g, 0).Some? then HashIndex.Scan(hashes, g, 0) else if h == g then Some(i) else None
      {
        ScanAppend(hashes, h, g, 0);
      }
      if h !in table {
        table := table[h := i];
      }
    }
    assert slots[..slots.Length] == slots[..];
  }

  lemma LookupIsScan(table: map<nat, nat>, hashes: seq<nat>, h: nat)
    requires FirstWins(table, hashes)
    ensures HashIndex.Scan(hashes, h, 0) == if h in table then Some(table[h]) else None
  {
  }

  // ------------------------------------------------------------------ files over pools

  predicate AllInPools(slots: seq<Slot>, sha: nat, aes: nat) {
    forall i :: 0 <= i < |slots| ==> InPool(slots[i].sha, sha) && InPool(slots[i].aes, aes)
  }

  function FileOf(s: Slot, sha: seq<Range>, aes: seq<Range>): File
    requires InPool(s.sha, |sha|) && InPool(s.aes, |aes|)
  {
    File(s.pathHash, s.padded, s.unpadded, s.offset, Resolve(s.sha, sha), Resolve(s.aes, aes))
  }

  function FilesOf(slots: seq<Slot>, sha: seq<Range>, aes: seq<Range>): (files: seq<File>)
    requires AllInPools(slots, |sha|, |aes|)
    ensures |files| == |slots|
    ensures forall i :: 0 <= i < |slots| ==> files[i] == FileOf(slots[i], sha, aes)
  {
    seq(|slots|, i requires 0 <= i < |slots| => FileOf(slots[i], sha, aes))
  }

  lemma FilledMeans(slots: seq<Slot>, files: seq<File>, sha: seq<Range>, aes: seq<Range>)
    requires Filled(slots, files, sha, aes)
    ensures Tiled(slots, Sha, |sha|) && Tiled(slots, Aes, |aes|)
    ensures AllInPools(slots, |sha|, |aes|) && FilesOf(slots, sha, aes) == files
  {
    hide Tiled, AllRanges, Resolve;
    forall i | 0 <= i < |slots|
      ensures InPool(slots[i].sha, |sha|) && InPool(slots[i].aes, |aes|) && FileOf(slots[i], sha, aes) == files[i]
    {
      assert SlotIs(slots[i], files[i], sha, aes);
    }
  }

  function ParseAll(game: Game, buf: bytes, be: bool, d: Directory): Result<seq<File>>
    requires |d.buckets| == |d.offsets|
  {
    var hs :- ParseHeaders(game, buf, be, d, |d.buckets|);
    ParseFiles(buf, be, hs, |hs|)
  }

  /** Headers, then the two passes over the range records. */
  method ReadSlots(rd: BinaryReader, game: Game, d: Directory, total: nat)
    returns (r: Result<()>, slots: array<Slot>, shaPool: array<Range>, aesPool: array<Range>)
    requires rd.Valid() && |d.buckets| == |d.offsets| && Partition(d.buckets, total)
    modifies rd`pos
    ensures fresh(slots) && fresh(shaPool) && fresh(aesPool)
    ensures var t := ParseAll(game, rd.buf, rd.bigEndian, d);
      if t.Err? then r == Err(t.error) else r == Ok(()) && Filled(slots[..], t.value, shaPool[..], aesPool[..])
  {
    hide ParseHeaders, ParseFiles, Partition, FirstFile, Filled, AllRanges;
    slots, shaPool, aesPool := new Slot[0], new Range[0], new Range[0];
    var headers, hs := ReadHeaders(rd, game, d, total);
    if headers.Err? {
      return headers, slots, shaPool, aesPool;
    }
    var totals := CountRanges(rd, hs[..]);
    if totals.Err? {
      return Err(totals.error), slots, shaPool, aesPool;
    }
    ghost var files := ParseFiles(rd.buf, rd.bigEndian, hs[..], hs.Length).value;
    shaPool := new Range[totals.value.0](_ => Range(0, 0));
    aesPool := new Range[totals.value.1](_ => Range(0, 0));
    slots := FillPools(rd, hs[..], shaPool, aesPool, files);
    r := Ok(());
  }

  /** Everything in front of the file headers. */
  datatype Front = Front(lead: Lead, salt: bytes, directory: Directory)

  function ParseFront(buf: bytes): (r: Result<Front>)
    ensures r.Ok? ==> |r.value.directory.buckets| == |r.value.directory.offsets|
  {
    var lead :- ParseLead(buf);
    var counts :- ParseCounts(buf, lead.be);
    var salt :- ParseSalt(buf, counts.next, lead.be);
    var at :- SeekTo(buf, counts.at);
    var d :- ParseDirectory(buf, at, lead.be, counts.wide, counts.buckets);
    Ok(Front(lead, salt, d))
  }

  lemma IndexSplits(game: Game, buf: bytes)
    ensures ParseIndex(game, buf)
         == var front :- ParseFront(buf);
            var files :- ParseAll(game, buf, front.lead.be, front.directory);
            Ok(Index(game, front.lead.be, front.lead.unk05, front.salt, front.directory.buckets, files))
  {
    hide ParseLead, ParseCounts, ParseSalt, ParseDirectory, ParseHeaders, ParseFiles;
  }

  method ReadFront(rd: BinaryReader) returns (r: Result<Front>, total: nat)
    requires rd.Valid() && rd.pos == 0
    modifies rd`pos, rd`bigEndian
    ensures rd.Valid()
    ensures r == ParseFront(rd.buf)
    ensures r.Ok? ==> Partition(r.value.directory.buckets, total) && rd.bigEndian == r.value.lead.be
  {
    hide ParseLead, ParseCounts, ParseSalt, ParseDirectory, Partition, FirstFile;
    total := 0;
    var lead := ReadLead(rd);
    if lead.Err? {
      return Err(lead.error), 0;
    }
    var counts := ReadCounts(rd);
    if counts.Err? {
      return Err(counts.error), 0;
    }
    var salt := ReadSalt(rd);
    if salt.Err? {
      return Err(salt.error), 0;
    }
    var seek := rd.Seek(counts.value.at);
    if seek.Err? {
      return Err(seek.error), 0;
    }
    var d;
    DirectoryTiles(rd.buf, rd.pos, rd.bigEndian, counts.value.wide, counts.value.buckets);
    d, total := ReadDirectory(rd, counts.value.wide, counts.value.buckets);
    if d.Err? {
      return Err(d.error), 0;
    }
    return Ok(Front(lead.value, salt.value, d.value)), total;
  }

  // ------------------------------------------------------------------ extraction

  function ExtractOne(c: Cipher, f: File, bdt: bytes): Result<bytes>
    requires KeepsLength(c)
  {
    if f.offset < 0 then Err(Truncated)
    else if f.offset > |bdt| then Err(OutOfRange)
    else if f.offset + f.padded > |bdt| then Err(Truncated)
    else
      var s := bdt[f.offset..f.offset + f.padded];
      if f.aes.None? then Ok(s)
      else ApplyAll(c, f.aes.value.key, f.aes.value.ranges, Place(f.padded, f.offset, |bdt|), s, |f.aes.value.ranges|)
  }

  /** What extraction may return: errors for a payload outside the archive; otherwise the stored bytes,
      changed only where a range denotes them; and where ranges are apart, each of them decrypted. */
  ghost predicate Extracted(c: Cipher, f: File, bdt: bytes, r: Result<bytes>) {
    if f.offset < 0 then r == Err(Truncated)
    else if f.offset > |bdt| then r == Err(OutOfRange)
    else if f.offset + f.padded > |bdt| then r == Err(Truncated)
    else
      var s := bdt[f.offset..f.offset + f.padded];
      if f.aes.None? then r == Ok(s) else RangesDone(c, f.aes.value.key, f.aes.value.ranges, f.offset, |bdt|, s, r)
  }

  ghost predicate RangesDone(c: Cipher, key: bytes, rs: seq<Range>, offset: int, archive: int, s: bytes, r: Result<bytes>) {
    && (r.Ok? ==> |r.value| == |s|)
    && (r.Ok? ==> forall i :: 0 <= i < |s| && (forall x :: x in rs ==> !Denotes(x, |s|, offset, i)) ==> r.value[i] == s[i])
    && (Apart(rs, |s|, offset) ==>
          && (r.Ok? <==> forall x :: x in rs ==> Usable(c, key, x, |s|, offset, archive, s))
          && (r.Ok? ==> forall x :: x in rs ==> Opened(c, key, x, |s|, offset, s, r.value)))
  }

  lemma ExtractionMeans(c: Cipher, f: File, bdt: bytes)
    requires KeepsLength(c)
    ensures Extracted(c, f, bdt, ExtractOne(c, f, bdt))
  {
    hide ApplyAll, KeepsLength, Denotes, Usable, Opened, Apart;
    if 0 <= f.offset && f.offset + f.padded <= |bdt| && f.aes.Some? {
      RangesMean(c, f.aes.value.key, f.aes.value.ranges, Place(f.padded, f.offset, |bdt|), bdt[f.offset..f.offset + f.padded]);
    }
  }

  /** The payload of a file: what stands in the archive, with its ranges decrypted in place. */
  method ExtractFile(c: Cipher, f: File, bdt: bytes) returns (r: Result<bytes>)
    requires KeepsLength(c)
    ensures r == ExtractOne(c, f, bdt) && Extracted(c, f, bdt, r)
  {
    hide ApplyAll, KeepsLength, Extracted;
    ExtractionMeans(c, f, bdt);
    if f.offset < 0 || (|bdt| - f.offset >= 0 && f.padded > |bdt| - f.offset) {
      return Err(Truncated);
    }
    if f.offset > |bdt| {
      return Err(OutOfRange);
    }
    var stored := bdt[f.offset..f.offset + f.padded];
    var buf := new byte[f.padded](j requires 0 <= j < f.padded => stored[j]);
    assert buf[..] == stored;
    var _ :- DecryptRanges(c, f, |bdt|, buf);
    return Ok(buf[..]);
  }

  // ------------------------------------------------------------------ the opened archive

  /** An index is read exactly from the bytes that carry it. */
  lemma ReadByWords(game: Game, buf: bytes)
    ensures forall b: Index :: ParseIndex(game, buf) == Ok(b) <==> b.game == game && Bhd5Words.Carries(buf, b, Bhd5Words.IsWide(buf, b.bigEndian))
  {
    hide ParseIndex, Bhd5Words.Carries, Bhd5Words.IsWide;
    forall b: Index
      ensures ParseIndex(game, buf) == Ok(b) <==> b.game == game && Bhd5Words.Carries(buf, b, Bhd5Words.IsWide(buf, b.bigEndian))
    {
      Bhd5Words.ReadExactly(game, buf, b);
    }
  }

  class Archive {
    const game: Game
    var bigEndian: bool
    var unk05: bool
    var salt: bytes
    var buckets: seq<Bucket>
    var slots: array<Slot>
    var shaPool: array<Range>
    var aesPool: array<Range>
    var lookup: map<nat, nat>

    /** The slices of all files lie in the pools one after the other and fill them completely. */
    ghost predicate Valid()
      reads this, slots, shaPool, aesPool
    {
      && Tiled(slots[..], Sha, shaPool.Length) && Tiled(slots[..], Aes, aesPool.Length)
      && AllInPools(slots[..], shaPool.Length, aesPool.Length)
      && FirstWins(lookup, SlotHashes(slots[..]))
    }

    /** The index this object stands for. */
    function Contents(): Index
      reads this, slots, shaPool, aesPool
      requires Valid()
    {
      Index(game, bigEndian, unk05, salt, buckets, FilesOf(slots[..], shaPool[..], aesPool[..]))
    }

    constructor (game: Game)
      ensures this.game == game && Valid() && Contents() == Index(game, false, false, [], [], [])
    {
      this.game := game;
      bigEndian, unk05, salt, buckets, lookup := false, false, [], [], map[];
      slots, shaPool, aesPool := new Slot[0], new Range[0], new Range[0];
    }

    /** Reads an index: the object then holds exactly what the bytes mean, all slices are inside
        their pools, and the lookup table is ready. */
    method Parse(buf: bytes) returns (r: Result<()>)
      modifies this
      ensures var t := ParseIndex(game, buf);
        if t.Err? then r == Err(t.error)
        else r == Ok(()) && fresh(slots) && fresh(shaPool) && fresh(aesPool) && Valid() && Contents() == t.value
      ensures r.Ok? ==> Bhd5Words.Carries(buf, Contents(), Bhd5Words.IsWide(buf, bigEndian))
      ensures r.Err? ==> forall b: Index :: b.game == game ==> !Bhd5Words.Carries(buf, b, Bhd5Words.IsWide(buf, b.bigEndian))
    {
      hide Bhd5Words.Carries, Bhd5Words.IsWide, ParseFront, ParseIndex, ParseAll, Partition, FirstWins, Filled, SlotHashes, Archive.Valid, Archive.Contents;
      ReadByWords(game, buf);
      IndexSplits(game, buf);
      var rd := new BinaryReader(buf);
      var front, total := ReadFront(rd);
      if front.Err? {
        return Err(front.error);
      }
      bigEndian, unk05 := front.value.lead.be, front.value.lead.unk05;
      salt, buckets := front.value.salt, front.value.directory.buckets;
      var read;
      read, slots, shaPool, aesPool := ReadSlots(rd, game, front.value.directory, total);
      if read.Err? {
        return read;
      }
      lookup := BuildLookup(slots);
      Established(ParseAll(game, buf, bigEndian, front.value.directory).value);
      return Ok(());
    }

    /** After both passes and with the lookup table built, the object stands for what was read. */
    lemma Established(files: seq<File>)
      requires Filled(slots[..], files, shaPool[..], aesPool[..]) && FirstWins(lookup, SlotHashes(slots[..]))
      ensures Valid() && Contents() == Index(game, bigEndian, unk05, salt, buckets, files)
    {
      hide Tiled, Filled, FirstWins, FilesOf, AllInPools;
      FilledMeans(slots[..], files, shaPool[..], aesPool[..]);
    }

    /** Finding a file by its path hash agrees with a scan from the first file on. */
    method Find(h: nat) returns (i: Option<nat>)
      requires Valid()
      ensures i == HashIndex.Scan(SlotHashes(slots[..]), h, 0)
    {
      hide Tiled;
      LookupIsScan(lookup, SlotHashes(slots[..]), h);
      return if h in lookup then Some(lookup[h]) else None;
    }

    /** Extracts the first file with the given path hash. */
    method Extract(c: Cipher, bdt: bytes, h: nat) returns (r: Result<bytes>)
      requires Valid() && KeepsLength(c)
      ensures r == ExtractFrom(c, Contents(), bdt, h)
    {
      hide Tiled, FirstWins, ExtractOne, KeepsLength, Resolve, HashIndex.Scan;
      var i := Find(h);
      HashesAgree(slots[..], shaPool[..], aesPool[..]);
      if i.None? {
        return Err(NotFound);
      }
      r := ExtractFile(c, FileOf(slots[i.value], shaPool[..], aesPool[..]), bdt);
    }
  }

  lemma HashesAgree(slots: seq<Slot>, sha: seq<Range>, aes: seq<Range>)
    requires AllInPools(slots, |sha|, |aes|)
    ensures FileHashes(FilesOf(slots, sha, aes)) == SlotHashes(slots)
  {
    hide Resolve;
  }

  function FileHashes(files: seq<File>): (hs: seq<nat>)
    ensures |hs| == |files| && forall i :: 0 <= i < |hs| ==> hs[i] == files[i].pathHash
  {
    seq(|files|, i requires 0 <= i < |files| => files[i].pathHash)
  }

  function ExtractFrom(c: Cipher, b: Index, bdt: bytes, h: nat): Result<bytes>
    requires KeepsLength(c)
  {
    match HashIndex.Scan(FileHashes(b.files), h, 0)
    case None => Err(NotFound)
    case Some(i) => ExtractOne(c, b.files[i], bdt)
  }
}
