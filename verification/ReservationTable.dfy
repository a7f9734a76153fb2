/** The pending-reservation index of the binary writer: an open-addressing hash table with
    linear probing and tombstones, proved to behave as a finite map for every hash function. */
module Reservations {
  import opened Bytes

  datatype Kind = I32 | U32 | I64

  function Width(kind: Kind): (w: nat) {
    match kind
    case I32 => 4
    case U32 => 4
    case I64 => 8
  }

  /** What a reservation is keyed on: the textual name and the integer kind. */
  datatype Key = Key(name: string, kind: Kind)

  datatype Slot = Empty | Tombstone | Occupied(key: Key, nameHash: nat, pos: nat)

  const INIT_CAP: nat := 16

  /** How many forward steps, wrapping at `cap`, lead from `start` to `i`. The table size is a
      power of two in the source, so its `& mask` is this wrap-around. */
  function Distance(start: nat, i: nat, cap: nat): (d: nat)
    requires start < cap && i < cap
    ensures d < cap
  {
    if i >= start then i - start else i + cap - start
  }

  function Next(i: nat, cap: nat): (n: nat)
    requires i < cap
    ensures n < cap
  {
    if i + 1 == cap then 0 else i + 1
  }

  predicate Holds(s: Slot, key: Key) {
    s.Occupied? && s.key == key
  }

  ghost predicate Stored(slots: seq<Slot>, key: Key) {
    exists i :: 0 <= i < |slots| && Holds(slots[i], key)
  }

  ghost predicate HasRoom(slots: seq<Slot>) {
    exists i :: 0 <= i < |slots| && slots[i] == Empty
  }

  /** No probe walk can stop at an empty slot before the entry it is looking for. */
  ghost predicate Reachable(slots: seq<Slot>, hash: string -> nat) {
    forall i, j :: 0 <= i < |slots| && 0 <= j < |slots| && slots[i].Occupied? && Passed(slots, hash, slots[i].key, j, i)
      ==> slots[j] != Empty
  }

  ghost predicate Hashed(slots: seq<Slot>, hash: string -> nat) {
    forall i :: 0 <= i < |slots| && slots[i].Occupied? ==> slots[i].nameHash == hash(slots[i].key.name)
  }

  /** The live slots are exactly the bindings of `m`, each stored once. */
  ghost predicate Represents(slots: seq<Slot>, m: map<Key, nat>) {
    && (forall i :: 0 <= i < |slots| && slots[i].Occupied? ==> slots[i].key in m && m[slots[i].key] == slots[i].pos)
    && (forall i, j :: 0 <= i < |slots| && 0 <= j < |slots| && i != j && slots[i].Occupied? && slots[j].Occupied?
          ==> slots[i].key != slots[j].key)
    && (forall k :: k in m ==> Stored(slots, k))
  }

  /** The table invariant: walks are unbroken, and the live slots are the bindings of `m`. */
  ghost predicate Sound(slots: seq<Slot>, hash: string -> nat, m: map<Key, nat>) {
    Reachable(slots, hash) && Hashed(slots, hash) && Represents(slots, m)
  }

  function Used(slots: seq<Slot>): nat {
    if |slots| == 0 then 0
    else Used(slots[..|slots| - 1]) + if slots[|slots| - 1] == Empty then 0 else 1
  }

  lemma {:induction false} UsedUpdate(slots: seq<Slot>, i: nat, s: Slot)
    requires i < |slots|
    ensures Used(slots[i := s])
         == Used(slots) - (if slots[i] == Empty then 0 else 1) + (if s == Empty then 0 else 1)
  {
    var last := |slots| - 1;
    if i == last {
      assert slots[i := s][..last] == slots[..last];
    } else {
      UsedUpdate(slots[..last], i, s);
      assert slots[i := s][..last] == slots[..last][i := s];
    }
  }

  lemma {:induction false} RoomFromLoad(slots: seq<Slot>)
    requires Used(slots) < |slots|
    ensures HasRoom(slots)
  {
    var last := |slots| - 1;
    if slots[last] != Empty {
      RoomFromLoad(slots[..last]);
      var i :| 0 <= i < last && slots[..last][i] == Empty;
      assert slots[i] == Empty;
    }
  }

  lemma {:induction false} UsedOfEmpty(n: nat)
    ensures Used(seq(n, _ => Empty)) == 0
  {
    if n > 0 {
      UsedOfEmpty(n - 1);
      assert seq(n, _ => Empty)[..n - 1] == seq(n - 1, _ => Empty);
    }
  }

  /** A walk that met no entry for the key before an empty slot has proved its absence. */
  lemma AbsentBeyondEmpty(slots: seq<Slot>, hash: string -> nat, key: Key, i: nat)
    requires Reachable(slots, hash) && i < |slots| && slots[i] == Empty
    requires forall j :: 0 <= j < |slots| && Passed(slots, hash, key, j, i) ==> !Holds(slots[j], key)
    ensures !Stored(slots, key)
  {
  }

  /** Slot `j` comes strictly before slot `i` on the walk for `key`. */
  ghost predicate Passed(slots: seq<Slot>, hash: string -> nat, key: Key, j: nat, i: nat)
    requires i < |slots| && j < |slots|
  {
    var start := hash(key.name) % |slots|;
    Distance(start, j, |slots|) < Distance(start, i, |slots|)
  }

  /** The walk of a lookup: stops at the entry for the key, or at the first empty slot, and in
      the second case the key is nowhere in the table. */
  method ProbeLookup(slots: seq<Slot>, hash: string -> nat, key: Key) returns (idx: nat)
    requires HasRoom(slots) && Reachable(slots, hash) && Hashed(slots, hash)
    ensures idx < |slots|
    ensures Holds(slots[idx], key) || (slots[idx] == Empty && !Stored(slots, key))
  {
    hide Reachable;
    var cap := |slots|;
    var h := hash(key.name);
    idx := h % cap;
    ghost var room :| 0 <= room < cap && slots[room] == Empty;
    while true
      invariant idx < cap
      invariant forall j :: 0 <= j < cap && Passed(slots, hash, key, j, idx) ==> slots[j] != Empty && !Holds(slots[j], key)
      decreases cap - Distance(h % cap, idx, cap)
    {
      var s := slots[idx];
      if s == Empty {
        AbsentBeyondEmpty(slots, hash, key, idx);
        return;
      }
      if s.Occupied? && s.nameHash == h && s.key == key {
        return;
      }
      assert Passed(slots, hash, key, idx, room);
      idx := Next(idx, cap);
    }
  }

  /** The walk of an insertion: remembers the first tombstone, and reports a duplicate. */
  method ProbeInsert(slots: seq<Slot>, hash: string -> nat, key: Key) returns (idx: nat, duplicate: bool)
    requires HasRoom(slots) && Reachable(slots, hash) && Hashed(slots, hash)
    ensures idx < |slots|
    ensures duplicate <==> Stored(slots, key)
    ensures duplicate ==> Holds(slots[idx], key)
    ensures !duplicate ==> !slots[idx].Occupied?
    ensures !duplicate ==> forall j :: 0 <= j < |slots| && Passed(slots, hash, key, j, idx) ==> slots[j] != Empty
  {
    hide Reachable;
    var cap := |slots|;
    var h := hash(key.name);
    var i: nat := h % cap;
    var firstTomb: Option<nat> := None;
    ghost var room :| 0 <= room < cap && slots[room] == Empty;
    while true
      invariant i < cap
      invariant forall j :: 0 <= j < cap && Passed(slots, hash, key, j, i) ==> slots[j] != Empty && !Holds(slots[j], key)
      invariant firstTomb.Some? ==> firstTomb.value < cap && slots[firstTomb.value] == Tombstone
      invariant firstTomb.Some? ==> Passed(slots, hash, key, firstTomb.value, i)
      decreases cap - Distance(h % cap, i, cap)
    {
      var s := slots[i];
      if s == Empty {
        AbsentBeyondEmpty(slots, hash, key, i);
        return if firstTomb.Some? then firstTomb.value else i, false;
      }
      if s == Tombstone {
        if firstTomb.None? {
          firstTomb := Some(i);
        }
      } else if s.nameHash == h && s.key == key {
        return i, true;
      }
      assert Passed(slots, hash, key, i, room);
      i := Next(i, cap);
    }
  }

  lemma StoredIffBound(slots: seq<Slot>, m: map<Key, nat>, key: Key)
    requires Represents(slots, m)
    ensures key in m <==> Stored(slots, key)
  {
  }

  /** Writing a new entry where an insertion walk ended keeps every walk intact. */
  lemma InsertKeeps(slots: seq<Slot>, hash: string -> nat, m: map<Key, nat>, idx: nat, key: Key, pos: nat)
    requires Sound(slots, hash, m)
    requires idx < |slots| && !slots[idx].Occupied? && key !in m
    requires forall j :: 0 <= j < |slots| && Passed(slots, hash, key, j, idx) ==> slots[j] != Empty
    ensures Sound(slots[idx := Occupied(key, hash(key.name), pos)], hash, m[key := pos])
  {
    var slots' := slots[idx := Occupied(key, hash(key.name), pos)];
    forall k | k in m[key := pos]
      ensures Stored(slots', k)
    {
      if k == key {
        assert Holds(slots'[idx], key);
      } else {
        assert Stored(slots, k);
        var i :| 0 <= i < |slots| && Holds(slots[i], k);
        assert Holds(slots'[i], k);
      }
    }
  }

  /** Burying an entry under a tombstone keeps every other walk intact. */
  lemma BuryKeeps(slots: seq<Slot>, hash: string -> nat, m: map<Key, nat>, idx: nat, key: Key)
    requires Sound(slots, hash, m)
    requires idx < |slots| && Holds(slots[idx], key)
    ensures Sound(slots[idx := Tombstone], hash, m - {key})
  {
    var slots' := slots[idx := Tombstone];
    forall k | k in m - {key}
      ensures Stored(slots', k)
    {
      assert Stored(slots, k);
      var i :| 0 <= i < |slots| && Holds(slots[i], k);
      assert Holds(slots'[i], k);
    }
  }

  /** Probes for a key and, unless it is there already, stores it. */
  method Insert(slots: seq<Slot>, hash: string -> nat, key: Key, pos: nat, ghost m: map<Key, nat>)
    returns (slots': seq<Slot>, duplicate: bool, wasTomb: bool)
    requires Sound(slots, hash, m) && Used(slots) < |slots|
    ensures duplicate <==> key in m
    ensures duplicate ==> slots' == slots
    ensures !duplicate ==> |slots'| == |slots| && Sound(slots', hash, m[key := pos])
    ensures !duplicate ==> Used(slots') == Used(slots) + if wasTomb then 0 else 1
    ensures Tombstone !in slots ==> Tombstone !in slots' && !wasTomb
  {
    RoomFromLoad(slots);
    var idx;
    idx, duplicate := ProbeInsert(slots, hash, key);
    StoredIffBound(slots, m, key);
    slots', wasTomb := slots, false;
    if !duplicate {
      var s := Occupied(key, hash(key.name), pos);
      InsertKeeps(slots, hash, m, idx, key, pos);
      UsedUpdate(slots, idx, s);
      wasTomb := slots[idx] == Tombstone;
      slots' := slots[idx := s];
    }
  }

  /** Exactly the entries of the first `i` slots have been moved. */
  ghost predicate Moved(slots: seq<Slot>, m: map<Key, nat>, moved: map<Key, nat>, i: nat) {
    && (forall k :: k in moved ==> k in m && moved[k] == m[k])
    && (forall j :: 0 <= j < |slots| && slots[j].Occupied? ==> (slots[j].key in moved <==> j < i))
  }

  lemma NothingMoved(slots: seq<Slot>, m: map<Key, nat>)
    ensures Moved(slots, m, map[], 0)
  {
  }

  lemma MovedNext(slots: seq<Slot>, hash: string -> nat, m: map<Key, nat>, moved: map<Key, nat>, i: nat)
    requires Sound(slots, hash, m) && Moved(slots, m, moved, i) && i < |slots|
    ensures if slots[i].Occupied? then slots[i].key !in moved && Moved(slots, m, moved[slots[i].key := slots[i].pos], i + 1)
            else Moved(slots, m, moved, i + 1)
  {
  }

  /** Once every live slot has been moved, nothing of the map is left behind. */
  lemma AllMoved(slots: seq<Slot>, hash: string -> nat, m: map<Key, nat>, moved: map<Key, nat>)
    requires Sound(slots, hash, m) && Moved(slots, m, moved, |slots|)
    ensures moved == m
  {
    forall k | k in m
      ensures k in moved
    {
      assert Stored(slots, k);
      var i :| 0 <= i < |slots| && Holds(slots[i], k);
      assert slots[i].key in moved;
    }
  }

  lemma EmptyTable(n: nat, hash: string -> nat)
    ensures Sound(seq(n, _ => Empty), hash, map[]) && Used(seq(n, _ => Empty)) == 0
  {
    UsedOfEmpty(n);
  }

  /** Moves the live entries into a table of `newCap` empty slots; tombstones drop out. */
  method Rehash(src: seq<Slot>, hash: string -> nat, newCap: nat, ghost m: map<Key, nat>) returns (dst: seq<Slot>)
    requires Sound(src, hash, m) && newCap > |src|
    ensures |dst| == newCap && Sound(dst, hash, m) && Used(dst) == |m| <= |src|
  {
    hide Sound, Used, Moved;
    EmptyTable(newCap, hash);
    assert Moved(src, m, map[], 0) by { NothingMoved(src, m); }
    dst := seq(newCap, _ => Empty);
    ghost var moved: map<Key, nat> := map[];
    for i := 0 to |src|
      invariant |dst| == newCap && Tombstone !in dst
      invariant Sound(dst, hash, moved)
      invariant Used(dst) == |moved| <= i
      invariant Moved(src, m, moved, i)
    {
      MovedNext(src, hash, m, moved, i);
      var s := src[i];
      if s.Occupied? {
        var dst', duplicate, wasTomb := Insert(dst, hash, s.key, s.pos, moved);
        dst := dst';
        moved := moved[s.key := s.pos];
      }
    }
    AllMoved(src, hash, m, moved);
  }

  class ReservationTable {
    const hash: string -> nat
    var slots: seq<Slot>
    var used: nat
    var live: nat
    /** The reservations that are open, as a plain map. */
    ghost var Open: map<Key, nat>

    ghost predicate Valid()
      reads this
    {
      && Sound(slots, hash, Open)
      && used == Used(slots)
      && live == |Open|
      && (|slots| == 0 || (|slots| >= INIT_CAP && used < |slots|))
    }

    constructor (hash: string -> nat)
      ensures Valid() && Open == map[]
    {
      this.hash := hash;
      slots := [];
      used, live := 0, 0;
      Open := map[];
    }

    method Grow(newCap: nat)
      requires Valid() && newCap > |slots| && newCap >= INIT_CAP
      modifies this`slots, this`used
      ensures Valid() && |slots| == newCap && used == live <= old(|slots|)
    {
      hide Sound;
      slots := Rehash(slots, hash, newCap, Open);
      used := live;
    }

    /** Opens a reservation; fails exactly when one with the same name and kind is open. */
    method Push(key: Key, pos: nat) returns (r: Result<()>)
      requires Valid()
      modifies this
      ensures Valid()
      ensures r == if key in old(Open) then Err(AlreadyExists) else Ok(())
      ensures Open == if key in old(Open) then old(Open) else old(Open)[key := pos]
    {
      hide Sound;
      if |slots| == 0 {
        Grow(INIT_CAP);
      } else if (used + 1) * 10 > |slots| * 7 {
        Grow(|slots| * 2);
      }
      var slots', duplicate, wasTomb := Insert(slots, hash, key, pos, Open);
      if duplicate {
        return Err(AlreadyExists);
      }
      slots := slots';
      if !wasTomb {
        used := used + 1;
      }
      live := live + 1;
      Open := Open[key := pos];
      return Ok(());
    }

    method Peek(key: Key) returns (r: Result<nat>)
      requires Valid()
      ensures r == if key in Open then Ok(Open[key]) else Err(NotFound)
    {
      if |slots| == 0 {
        StoredIffBound(slots, Open, key);
        return Err(NotFound);
      }
      RoomFromLoad(slots);
      var idx := ProbeLookup(slots, hash, key);
      StoredIffBound(slots, Open, key);
      if slots[idx].Occupied? {
        return Ok(slots[idx].pos);
      }
      return Err(NotFound);
    }

    /** Closes a reservation, leaving a tombstone. */
    method Pop(key: Key) returns (r: Result<nat>)
      requires Valid()
      modifies this`slots, this`live, this`Open
      ensures Valid()
      ensures r == if key in old(Open) then Ok(old(Open)[key]) else Err(NotFound)
      ensures Open == old(Open) - {key}
    {
      StoredIffBound(slots, Open, key);
      if |slots| == 0 {
        return Err(NotFound);
      }
      RoomFromLoad(slots);
      var idx := ProbeLookup(slots, hash, key);
      if !slots[idx].Occupied? {
        return Err(NotFound);
      }
      var pos := slots[idx].pos;
      BuryKeeps(slots, hash, Open, idx, key);
      UsedUpdate(slots, idx, Tombstone);
      slots := slots[idx := Tombstone];
      live := live - 1;
      Open := Open - {key};
      return Ok(pos);
    }
  }
}
