/** The hash table of BND4 as bytes: the group records and hash records that are written, and a
    lookup carried out on those bytes. */
module HashTableCodec {
  import opened Bytes
  import opened Reading
  import opened HashIndex

  function TableHead(be: bool, at: nat, g: nat): (s: bytes)
    ensures |s| == 16
  {
    Enc(be, at + 16 + 8 * g, 8) + Enc(be, g, 4) + [0x10, 0x08, 0x08, 0x00]
  }

  function GroupRecord(be: bool, es: seq<Entry>, g: nat, r: nat): (s: bytes)
    requires g > 0
    ensures |s| == 8
  {
    Enc(be, |Bucket(es, g, r)|, 4) + Enc(be, Start(es, g, r), 4)
  }

  function GroupRecords(be: bool, es: seq<Entry>, g: nat, k: nat): (s: bytes)
    requires k <= g
    ensures |s| == 8 * k
  {
    if k == 0 then [] else GroupRecords(be, es, g, k - 1) + GroupRecord(be, es, g, k - 1)
  }

  function HashRecord(be: bool, e: Entry): (s: bytes)
    ensures |s| == 8
  {
    Enc(be, e.hash, 4) + Enc(be, e.index, 4)
  }

  function HashRecords(be: bool, t: seq<Entry>, k: nat): (s: bytes)
    requires k <= |t|
    ensures |s| == 8 * k
  {
    if k == 0 then [] else HashRecords(be, t, k - 1) + HashRecord(be, t[k - 1])
  }

  function TableSize(g: nat, n: nat): nat { 16 + 8 * g + 8 * n }

  /** The table that stands at offset `at`. */
  function TableBytes(be: bool, at: nat, es: seq<Entry>, g: nat, t: seq<Entry>): (s: bytes)
    ensures |s| == TableSize(g, |t|)
  {
    TableHead(be, at, g) + GroupRecords(be, es, g, g) + HashRecords(be, t, |t|)
  }

  lemma {:induction false} GroupStands(buf: bytes, pos: nat, be: bool, es: seq<Entry>, g: nat, k: nat, r: nat)
    requires r < k <= g && At(buf, pos, GroupRecords(be, es, g, k))
    ensures At(buf, pos + 8 * r, Enc(be, |Bucket(es, g, r)|, 4)) && At(buf, pos + 8 * r + 4, Enc(be, Start(es, g, r), 4))
    decreases k
  {
    hide At, Enc, Bucket, Start;
    AtSplit(buf, pos, GroupRecords(be, es, g, k - 1), GroupRecord(be, es, g, k - 1));
    if r == k - 1 {
      AtSplit(buf, pos + 8 * r, Enc(be, |Bucket(es, g, r)|, 4), Enc(be, Start(es, g, r), 4));
    } else {
      GroupStands(buf, pos, be, es, g, k - 1, r);
    }
  }

  lemma {:induction false} HashStands(buf: bytes, pos: nat, be: bool, t: seq<Entry>, k: nat, i: nat)
    requires i < k <= |t| && At(buf, pos, HashRecords(be, t, k))
    ensures At(buf, pos + 8 * i, Enc(be, t[i].hash, 4)) && At(buf, pos + 8 * i + 4, Enc(be, t[i].index, 4))
    decreases k
  {
    hide At, Enc;
    AtSplit(buf, pos, HashRecords(be, t, k - 1), HashRecord(be, t[k - 1]));
    if i == k - 1 {
      AtSplit(buf, pos + 8 * i, Enc(be, t[i].hash, 4), Enc(be, t[i].index, 4));
    } else {
      HashStands(buf, pos, be, t, k - 1, i);
    }
  }

  lemma TableStands(buf: bytes, at: nat, be: bool, es: seq<Entry>, g: nat, t: seq<Entry>)
    requires At(buf, at, TableBytes(be, at, es, g, t))
    ensures At(buf, at, Enc(be, at + 16 + 8 * g, 8)) && At(buf, at + 8, Enc(be, g, 4)) && At(buf, at + 12, [0x10, 0x08, 0x08, 0x00])
    ensures At(buf, at + 16, GroupRecords(be, es, g, g)) && At(buf, at + 16 + 8 * g, HashRecords(be, t, |t|))
  {
    hide At, Enc, GroupRecords, HashRecords;
    AtSplit3(buf, at, TableHead(be, at, g), GroupRecords(be, es, g, g), HashRecords(be, t, |t|));
    AtSplit3(buf, at, Enc(be, at + 16 + 8 * g, 8), Enc(be, g, 4), [0x10, 0x08, 0x08, 0x00]);
  }

  // ------------------------------------------------------------------ lookup on the bytes

  /** Where the records of the hash's group stand, and how many there are. */
  function GroupOf(buf: bytes, at: nat, be: bool, h: nat): Result<(nat, nat)> {
    var records :- GetUInt(buf, at, be, 8);
    var g :- GetUInt(buf, at + 8, be, 4);
    if g == 0 then Err(Internal)
    else
      var length :- GetUInt(buf, at + 16 + 8 * (h % g), be, 4);
      var start :- GetUInt(buf, at + 16 + 8 * (h % g) + 4, be, 4);
      Ok((records + 8 * start, length))
  }

  /** The file positions of the records in a stretch of the table that carry the hash. */
  ghost function IndicesIn(buf: bytes, pos: nat, length: nat, be: bool, h: nat): set<nat> {
    set k | 0 <= k < length && GetUInt(buf, pos + 8 * k, be, 4) == Ok(h) && GetUInt(buf, pos + 8 * k + 4, be, 4).Ok?
      :: GetUInt(buf, pos + 8 * k + 4, be, 4).value
  }

  /** Looking a hash up in the written bytes finds exactly the files with that hash. */
  lemma LookupInBytes(buf: bytes, at: nat, be: bool, hashes: seq<nat>, g: nat, t: seq<Entry>, h: nat)
    requires g > 0 && IsIndex(t, Entries(hashes), g) && At(buf, at, TableBytes(be, at, Entries(hashes), g, t))
    requires |buf| < 0x8000_0000 && forall i :: 0 <= i < |hashes| ==> hashes[i] < 0x1_0000_0000
    ensures GroupOf(buf, at, be, h).Ok?
    ensures var (pos, length) := GroupOf(buf, at, be, h).value;
            IndicesIn(buf, pos, length, be, h) == Matching(hashes, h)
  {
    hide At, Enc, Bucket, Start, IsIndex, TableBytes, GroupRecords, HashRecords, GetUInt;
    var es := Entries(hashes);
    IndexSize(t, es, g);
    var r, pos := GroupRead(buf, at, be, es, g, t, h);
    SliceRead(buf, at, be, hashes, g, t, h, pos);
    FoundIsMatching(t, hashes, g, h);
  }

  lemma IndexSize(t: seq<Entry>, es: seq<Entry>, g: nat)
    requires g > 0 && IsIndex(t, es, g)
    ensures |t| == |es|
  {
  }

  lemma PlacedNat(buf: bytes, pos: nat, be: bool, v: nat, n: nat)
    requires n == 4 || n == 8
    requires At(buf, pos, Enc(be, v, n)) && v < 0x1_0000_0000
    ensures GetUInt(buf, pos, be, n) == Ok(v)
  {
    Widths();
    PlacedUInt(buf, pos, be, v, n);
  }

  lemma GroupRead(buf: bytes, at: nat, be: bool, es: seq<Entry>, g: nat, t: seq<Entry>, h: nat) returns (r: nat, pos: nat)
    requires g > 0 && |t| == |es| && At(buf, at, TableBytes(be, at, es, g, t)) && |buf| < 0x8000_0000
    ensures r == h % g && pos == at + 16 + 8 * g + 8 * Start(es, g, r)
    ensures GroupOf(buf, at, be, h) == Ok((pos, |Bucket(es, g, r)|))
  {
    hide Enc, Bucket, Start, TableBytes, GroupRecords, HashRecords, GetUInt;
    r := h % g;
    pos := at + 16 + 8 * g + 8 * Start(es, g, r);
    TableStands(buf, at, be, es, g, t);
    GroupStands(buf, at + 16, be, es, g, g, r);
    StartBound(es, g, r);
    assert |HashRecords(be, t, |t|)| == 8 * |t|;
    PlacedNat(buf, at, be, at + 16 + 8 * g, 8);
    PlacedNat(buf, at + 8, be, g, 4);
    PlacedNat(buf, at + 16 + 8 * r, be, |Bucket(es, g, r)|, 4);
    PlacedNat(buf, at + 16 + 8 * r + 4, be, Start(es, g, r), 4);
  }

  /** The records of a group, read back, are its slice of the index. */
  lemma SliceRead(buf: bytes, at: nat, be: bool, hashes: seq<nat>, g: nat, t: seq<Entry>, h: nat, pos: nat)
    requires g > 0 && IsIndex(t, Entries(hashes), g) && At(buf, at, TableBytes(be, at, Entries(hashes), g, t)) && |buf| < 0x8000_0000
    requires forall i :: 0 <= i < |hashes| ==> hashes[i] < 0x1_0000_0000
    requires pos == at + 16 + 8 * g + 8 * Start(Entries(hashes), g, h % g)
    ensures IndicesIn(buf, pos, |Bucket(Entries(hashes), g, h % g)|, be, h) == Found(Slice(t, Entries(hashes), g, h % g), h)
  {
    hide At, Enc, Bucket, Start, TableBytes, GroupRecords, HashRecords, GetUInt;
    var es, r := Entries(hashes), h % g;
    var n := |Bucket(es, g, r)|;
    var s := Slice(t, es, g, r);
    TableStands(buf, at, be, es, g, t);
    StartBound(es, g, r);
    forall k | 0 <= k < n
      ensures GetUInt(buf, pos + 8 * k, be, 4) == Ok(s[k].hash) && GetUInt(buf, pos + 8 * k + 4, be, 4) == Ok(s[k].index)
    {
      var i := Start(es, g, r) + k;
      assert t[i] == s[k];
      HashStands(buf, at + 16 + 8 * g, be, t, |t|, i);
      EntryInRange(t, hashes, g, i);
      TableReach(buf, at, be, es, g, t);
      PlacedNat(buf, pos + 8 * k, be, s[k].hash, 4);
      PlacedNat(buf, pos + 8 * k + 4, be, s[k].index, 4);
    }
    var found := IndicesIn(buf, pos, n, be, h);
    forall x | x in Found(s, h)
      ensures x in found
    {
      var k :| 0 <= k < |s| && s[k].hash == h && s[k].index == x;
      assert GetUInt(buf, pos + 8 * k, be, 4) == Ok(h);
    }
    forall x | x in found
      ensures x in Found(s, h)
    {
      var k :| 0 <= k < n && GetUInt(buf, pos + 8 * k, be, 4) == Ok(h)
               && GetUInt(buf, pos + 8 * k + 4, be, 4).Ok? && GetUInt(buf, pos + 8 * k + 4, be, 4).value == x;
      assert s[k].hash == h && s[k].index == x;
    }
  }

  lemma TableReach(buf: bytes, at: nat, be: bool, es: seq<Entry>, g: nat, t: seq<Entry>)
    requires At(buf, at, TableBytes(be, at, es, g, t))
    ensures |t| <= |buf|
  {
    hide Enc, TableHead, GroupRecords, HashRecords;
  }

  lemma EntryInRange(t: seq<Entry>, hashes: seq<nat>, g: nat, i: nat)
    requires g > 0 && IsIndex(t, Entries(hashes), g) && i < |t|
    ensures t[i].index < |t|
    ensures (forall j :: 0 <= j < |hashes| ==> hashes[j] < 0x1_0000_0000) ==> t[i].hash < 0x1_0000_0000
  {
    hide Bucket, Start, Slice;
    IndexIsPermutation(t, Entries(hashes), g);
    assert t[i] in multiset(t);
    assert t[i] in Entries(hashes);
  }
}
