/** The hash table of BND4 spelled out word by word: groups that follow each other and cover all records,
    a record for every file in the group of its hash, and each group in ascending order. */
module HashTableWords {
  import opened Bytes
  import opened Words
  import opened HashIndex
  import opened HashTableCodec

  /** Record `r` of the groups: how many hash records it has, and where they begin. */
  function GroupLength(buf: bytes, at: nat, be: bool, r: nat): int {
    if at + 16 + 8 * r + 8 <= |buf| then I32(buf, at + 16 + 8 * r, be) else -1
  }

  function GroupStart(buf: bytes, at: nat, be: bool, r: nat): int {
    if at + 16 + 8 * r + 8 <= |buf| then I32(buf, at + 16 + 8 * r + 4, be) else -1
  }

  /** Hash record `k`: a hash and the number of its file. */
  function RecordHash(buf: bytes, records: nat, be: bool, k: nat): int {
    if records + 8 * k + 8 <= |buf| then U32(buf, records + 8 * k, be) else -1
  }

  function RecordFile(buf: bytes, records: nat, be: bool, k: nat): int {
    if records + 8 * k + 8 <= |buf| then I32(buf, records + 8 * k + 4, be) else -1
  }

  /** The groups follow each other from record zero on, and cover all records. */
  ghost predicate GroupsFollow(buf: bytes, at: nat, be: bool, groups: nat, total: nat)
    requires groups > 0
  {
    && GroupStart(buf, at, be, 0) == 0 && GroupStart(buf, at, be, groups - 1) + GroupLength(buf, at, be, groups - 1) == total
    && (forall r :: 0 <= r < groups ==> 0 <= GroupStart(buf, at, be, r) && 0 <= GroupLength(buf, at, be, r))
    && forall q, r :: 0 <= q && r == q + 1 < groups ==> GroupStart(buf, at, be, r) == GroupStart(buf, at, be, q) + GroupLength(buf, at, be, q)
  }

  ghost predicate InGroup(buf: bytes, at: nat, be: bool, r: nat, k: int) {
    GroupStart(buf, at, be, r) <= k < GroupStart(buf, at, be, r) + GroupLength(buf, at, be, r)
  }

  /** File `i` has a record in the group of its hash. */
  ghost predicate FileListed(buf: bytes, at: nat, be: bool, groups: nat, records: nat, hash: nat, i: nat)
    requires groups > 0
  {
    exists k: nat :: InGroup(buf, at, be, hash % groups, k)
      && RecordHash(buf, records, be, k) == hash && RecordFile(buf, records, be, k) == i
  }

  /** Within a group hashes do not descend. */
  ghost predicate Sorted(buf: bytes, at: nat, be: bool, records: nat, r: nat) {
    forall j: nat, k: nat :: j <= k && InGroup(buf, at, be, r, j) && InGroup(buf, at, be, r, k)
      ==> RecordHash(buf, records, be, j) <= RecordHash(buf, records, be, k)
  }

  ghost predicate IndexWords(buf: bytes, at: nat, be: bool, hashes: seq<nat>) {
    && at + 16 <= |buf|
    && var groups, records := U32(buf, at + 8, be), U64(buf, at, be);
       && groups > 0 && records == at + 16 + 8 * groups && records + 8 * |hashes| <= |buf|
       && buf[at + 12] == 0x10 && buf[at + 13] == 8 && buf[at + 14] == 8 && buf[at + 15] == 0
       && GroupsFollow(buf, at, be, groups, |hashes|)
       && (forall r :: 0 <= r < groups ==> Sorted(buf, at, be, records, r))
       && (forall i :: 0 <= i < |hashes| ==> FileListed(buf, at, be, groups, records, hashes[i], i))
  }

  /** A finished index in a buffer. */
  ghost predicate Laid(buf: bytes, at: nat, be: bool, hashes: seq<nat>, g: nat, t: seq<Entry>) {
    && g > 0 && IsIndex(t, Entries(hashes), g) && At(buf, at, TableBytes(be, at, Entries(hashes), g, t)) && |buf| < MAX_SIZE
    && forall i :: 0 <= i < |hashes| ==> hashes[i] < 0x1_0000_0000
  }

  lemma HeadSpelled(buf: bytes, at: nat, be: bool, hashes: seq<nat>, g: nat, t: seq<Entry>)
    requires Laid(buf, at, be, hashes, g, t)
    ensures at + 16 + 8 * g + 8 * |hashes| <= |buf|
    ensures U32(buf, at + 8, be) == g && U64(buf, at, be) == at + 16 + 8 * g
    ensures buf[at + 12] == 0x10 && buf[at + 13] == 8 && buf[at + 14] == 8 && buf[at + 15] == 0
  {
    hide Enc, U32, U64, GroupRecords, HashRecords, Ordered;
    var es := Entries(hashes);
    TableStands(buf, at, be, es, g, t);
    Stored64(buf, at, be, at + 16 + 8 * g);
    Stored32(buf, at + 8, be, g);
    SameBytes(buf, at + 12, [0x10, 0x08, 0x08, 0x00]);
  }

  lemma GroupSpelled(buf: bytes, at: nat, be: bool, hashes: seq<nat>, g: nat, t: seq<Entry>, r: nat)
    requires Laid(buf, at, be, hashes, g, t) && r < g
    ensures GroupLength(buf, at, be, r) == |Bucket(Entries(hashes), g, r)| && GroupStart(buf, at, be, r) == Start(Entries(hashes), g, r)
  {
    hide At, Enc, I32, Bucket, Start, TableBytes, GroupRecords, HashRecords, Ordered;
    var es := Entries(hashes);
    HeadSpelled(buf, at, be, hashes, g, t);
    TableStands(buf, at, be, es, g, t);
    GroupStands(buf, at + 16, be, es, g, g, r);
    StartBound(es, g, r);
    Stored32(buf, at + 16 + 8 * r, be, |Bucket(es, g, r)|);
    Stored32(buf, at + 16 + 8 * r + 4, be, Start(es, g, r));
  }

  lemma RecordSpelled(buf: bytes, at: nat, be: bool, hashes: seq<nat>, g: nat, t: seq<Entry>, k: nat)
    requires Laid(buf, at, be, hashes, g, t) && k < |hashes|
    ensures |t| == |hashes|
    ensures RecordHash(buf, at + 16 + 8 * g, be, k) == t[k].hash && RecordFile(buf, at + 16 + 8 * g, be, k) == t[k].index
  {
    hide At, Enc, U32, I32, Bucket, Start, TableBytes, GroupRecords, HashRecords, Ordered;
    var es := Entries(hashes);
    HeadSpelled(buf, at, be, hashes, g, t);
    TableStands(buf, at, be, es, g, t);
    HashStands(buf, at + 16 + 8 * g, be, t, |t|, k);
    EntryInRange(t, hashes, g, k);
    Stored32(buf, at + 16 + 8 * g + 8 * k, be, t[k].hash);
    Stored32(buf, at + 16 + 8 * g + 8 * k + 4, be, t[k].index);
  }

  lemma GroupsSpelled(buf: bytes, at: nat, be: bool, hashes: seq<nat>, g: nat, t: seq<Entry>)
    requires Laid(buf, at, be, hashes, g, t) && g > 0
    ensures GroupsFollow(buf, at, be, g, |hashes|)
  {
    hide Laid, GroupLength, GroupStart, Bucket, Start;
    var es := Entries(hashes);
    StartTotal(es, g);
    StartZero(es, g);
    forall r | 0 <= r < g
      ensures GroupLength(buf, at, be, r) == |Bucket(es, g, r)| && GroupStart(buf, at, be, r) == Start(es, g, r)
      ensures Start(es, g, r + 1) == Start(es, g, r) + |Bucket(es, g, r)|
    {
      GroupSpelled(buf, at, be, hashes, g, t, r);
      StartStep(es, g, r);
    }
  }

  lemma InOrder(t: seq<Entry>, es: seq<Entry>, g: nat, r: nat, j: nat, k: nat)
    requires g > 0 && r < g && IsIndex(t, es, g) && Start(es, g, r) <= j <= k < Start(es, g, r) + |Bucket(es, g, r)|
    ensures k < |t| && t[j].hash <= t[k].hash
  {
    hide Bucket, Start;
    StartBound(es, g, r);
    assert Ordered(t, es, g, r);
    var s := Slice(t, es, g, r);
    assert s[j - Start(es, g, r)] == t[j] && s[k - Start(es, g, r)] == t[k];
  }

  lemma GroupSorted(buf: bytes, at: nat, be: bool, hashes: seq<nat>, g: nat, t: seq<Entry>, r: nat)
    requires Laid(buf, at, be, hashes, g, t) && r < g
    ensures Sorted(buf, at, be, at + 16 + 8 * g, r)
  {
    hide GroupLength, GroupStart, RecordHash, RecordFile, Bucket, Start, IsIndex, At, TableBytes;
    var es, records := Entries(hashes), at + 16 + 8 * g;
    GroupSpelled(buf, at, be, hashes, g, t, r);
    StartBound(es, g, r);
    forall j: nat, k: nat | j <= k && InGroup(buf, at, be, r, j) && InGroup(buf, at, be, r, k)
      ensures RecordHash(buf, records, be, j) <= RecordHash(buf, records, be, k)
    {
      InOrder(t, es, g, r, j, k);
      RecordSpelled(buf, at, be, hashes, g, t, j);
      RecordSpelled(buf, at, be, hashes, g, t, k);
    }
  }

  lemma Listed(buf: bytes, at: nat, be: bool, hashes: seq<nat>, g: nat, t: seq<Entry>, i: nat)
    requires Laid(buf, at, be, hashes, g, t) && i < |hashes|
    ensures FileListed(buf, at, be, g, at + 16 + 8 * g, hashes[i], i)
  {
    hide GroupLength, GroupStart, RecordHash, RecordFile, Bucket, Start, IsIndex, At, TableBytes, Slice;
    var es, r := Entries(hashes), hashes[i] % g;
    GroupSpelled(buf, at, be, hashes, g, t, r);
    RecordSpelled(buf, at, be, hashes, g, t, i);
    StartBound(es, g, r);
    InSlice(t, es, g, r, es[i]);
    var k := PlaceInSlice(t, es, g, r, es[i]);
    RecordSpelled(buf, at, be, hashes, g, t, k);
    assert InGroup(buf, at, be, r, k);
  }

  lemma PlaceInSlice(t: seq<Entry>, es: seq<Entry>, g: nat, r: nat, e: Entry) returns (k: nat)
    requires g > 0 && r < g && |t| == |es| && e in Slice(t, es, g, r)
    ensures Start(es, g, r) <= k < Start(es, g, r) + |Bucket(es, g, r)| && k < |t| && t[k] == e
  {
    hide Bucket, Start;
    StartBound(es, g, r);
    var s := Slice(t, es, g, r);
    var j :| 0 <= j < |s| && s[j] == e;
    k := Start(es, g, r) + j;
  }

  /** What is written for an index, to the word. */
  lemma TableSpelled(buf: bytes, at: nat, be: bool, hashes: seq<nat>, g: nat, t: seq<Entry>)
    requires Laid(buf, at, be, hashes, g, t)
    ensures IndexWords(buf, at, be, hashes) && U32(buf, at + 8, be) == g
  {
    hide At, IsIndex, TableBytes, GroupsFollow, Sorted, FileListed, U32, U64;
    HeadSpelled(buf, at, be, hashes, g, t);
    GroupsSpelled(buf, at, be, hashes, g, t);
    var records := at + 16 + 8 * g;
    forall r | 0 <= r < g
      ensures Sorted(buf, at, be, records, r)
    {
      GroupSorted(buf, at, be, hashes, g, t, r);
    }
    forall i | 0 <= i < |hashes|
      ensures FileListed(buf, at, be, g, records, hashes[i], i)
    {
      Listed(buf, at, be, hashes, g, t, i);
    }
  }
}
