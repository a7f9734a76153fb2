/** The binary reader over a memory stream: what every read returns as a function of the
    buffer, and the cursor-moving class that computes it. */
module Reading {
  import opened Bytes

  // ------------------------------------------------------------------ reads as functions

  function Take(buf: bytes, pos: nat, n: nat): Result<bytes> {
    if pos + n <= |buf| then Ok(buf[pos..pos + n]) else Err(Truncated)
  }

  function GetUInt(buf: bytes, pos: nat, be: bool, n: nat): (r: Result<nat>)
    ensures r.Ok? ==> r.value < Pow256(n)
  {
    if pos + n <= |buf| then Ok(Dec(be, buf[pos..pos + n])) else Err(Truncated)
  }

  function GetSInt(buf: bytes, pos: nat, be: bool, n: nat): Result<int> {
    var u :- GetUInt(buf, pos, be, n);
    Ok(Signed(u, n))
  }

  function GetBool(buf: bytes, pos: nat): Result<bool> {
    var u :- GetUInt(buf, pos, false, 1);
    if u > 1 then Err(BadMagic) else Ok(u == 1)
  }

  /** Reads a byte and demands that it is one of the options. */
  function ExpectByte(buf: bytes, pos: nat, options: set<int>): Result<nat> {
    var u :- GetUInt(buf, pos, false, 1);
    if u in options then Ok(u) else Err(BadMagic)
  }

  function ExpectSInt(buf: bytes, pos: nat, be: bool, n: nat, v: int): Result<()> {
    var i :- GetSInt(buf, pos, be, n);
    if i == v then Ok(()) else Err(BadMagic)
  }

  function ExpectUInt(buf: bytes, pos: nat, be: bool, n: nat, v: nat): Result<()> {
    var u :- GetUInt(buf, pos, be, n);
    if u == v then Ok(()) else Err(BadMagic)
  }

  function ExpectBytes(buf: bytes, pos: nat, s: bytes): Result<()> {
    var t :- Take(buf, pos, |s|);
    if t == s then Ok(()) else Err(BadMagic)
  }

  /** Where a seek to a (possibly hostile) offset ends up. */
  function SeekTo(buf: bytes, p: int): (r: Result<nat>)
    ensures r.Ok? ==> r.value == p <= |buf|
  {
    if p < 0 then Err(InvalidArg) else if p > |buf| then Err(OutOfRange) else Ok(p)
  }

  function GetAt(buf: bytes, off: int, n: nat): Result<bytes> {
    var p :- SeekTo(buf, off);
    Take(buf, p, n)
  }

  /** The first zero byte at or after `pos`, or the end of the buffer. */
  function ZeroFrom(buf: bytes, pos: nat): (i: nat)
    requires pos <= |buf|
    ensures pos <= i <= |buf|
    ensures forall j :: pos <= j < i ==> buf[j] != 0
    ensures i < |buf| ==> buf[i] == 0
    decreases |buf| - pos
  {
    if pos == |buf| || buf[pos] == 0 then pos else ZeroFrom(buf, pos + 1)
  }

  /** The first zero code unit, in steps of two from `pos`, or where fewer than two bytes remain. */
  function ZeroPairFrom(buf: bytes, pos: nat): (i: nat)
    requires pos <= |buf|
    ensures pos <= i <= |buf|
    decreases |buf| - pos
  {
    if pos + 2 > |buf| || (buf[pos] == 0 && buf[pos + 1] == 0) then pos else ZeroPairFrom(buf, pos + 2)
  }

  /** The bytes of a terminated string of one- or two-byte units. */
  function Terminated(buf: bytes, pos: nat, wide: bool): Result<bytes>
    requires pos <= |buf|
  {
    var i := if wide then ZeroPairFrom(buf, pos) else ZeroFrom(buf, pos);
    if i + (if wide then 2 else 1) > |buf| then Err(Truncated) else Ok(buf[pos..i])
  }

  function Terminator(wide: bool): bytes {
    if wide then [0, 0] else [0]
  }

  /** No terminator inside: no zero byte, or an even length and no zero code unit. */
  ghost predicate Unterminated(s: bytes, wide: bool) {
    if wide then
      |s| % 2 == 0 && forall i :: 0 <= i < |s| / 2 ==> s[2 * i] != 0 || s[2 * i + 1] != 0
    else
      forall i :: 0 <= i < |s| ==> s[i] != 0
  }

  // ------------------------------------------------------------------ reading what was placed

  lemma PlacedBound(buf: bytes, pos: nat, s: bytes)
    requires At(buf, pos, s)
    ensures pos + |s| <= |buf| && GetAt(buf, pos, |s|) == Ok(s)
  {
  }

  lemma PlacedUInt(buf: bytes, pos: nat, be: bool, v: nat, n: nat)
    requires At(buf, pos, Enc(be, v, n)) && v < Pow256(n)
    ensures GetUInt(buf, pos, be, n) == Ok(v)
  {
    EncUnsigned(be, v, n);
  }

  lemma PlacedSInt(buf: bytes, pos: nat, be: bool, v: int, n: nat)
    requires At(buf, pos, Enc(be, v, n)) && Fits(v, n)
    ensures GetSInt(buf, pos, be, n) == Ok(v)
  {
    EncSigned(be, v, n);
  }

  lemma PlacedByte(buf: bytes, pos: nat, v: byte)
    requires At(buf, pos, [v])
    ensures GetUInt(buf, pos, false, 1) == Ok(v)
  {
    assert [v][1..] == [];
    assert UnLE([v]) == v + 256 * UnLE([]);
  }

  lemma ByteRead(buf: bytes, pos: nat, s: bytes, k: nat)
    requires At(buf, pos, s) && k < |s|
    ensures GetUInt(buf, pos + k, false, 1) == Ok(s[k])
    ensures forall options: set<int> :: s[k] in options ==> ExpectByte(buf, pos + k, options) == Ok(s[k])
    ensures forall options: set<int> :: s[k] !in options ==> ExpectByte(buf, pos + k, options) == Err(BadMagic)
    ensures forall v :: s[k] == Bool(v) ==> GetBool(buf, pos + k) == Ok(v)
  {
    assert buf[pos..pos + |s|][k] == buf[pos + k];
    assert buf[pos + k..pos + k + 1] == [s[k]];
    PlacedByte(buf, pos + k, s[k]);
  }

  lemma {:induction false} ZeroFromPlaced(buf: bytes, pos: nat, end: nat)
    requires pos <= end < |buf| && buf[end] == 0
    requires forall j :: pos <= j < end ==> buf[j] != 0
    ensures ZeroFrom(buf, pos) == end
    decreases end - pos
  {
    if pos < end {
      ZeroFromPlaced(buf, pos + 1, end);
    }
  }

  lemma {:induction false} ZeroPairFromPlaced(buf: bytes, pos: nat, units: nat)
    requires pos + 2 * units + 2 <= |buf|
    requires buf[pos + 2 * units] == 0 && buf[pos + 2 * units + 1] == 0
    requires forall i :: 0 <= i < units ==> buf[pos + 2 * i] != 0 || buf[pos + 2 * i + 1] != 0
    ensures ZeroPairFrom(buf, pos) == pos + 2 * units
    decreases units
  {
    if units > 0 {
      assert buf[pos + 2 * 0] != 0 || buf[pos + 2 * 0 + 1] != 0;
      forall i | 0 <= i < units - 1
        ensures buf[pos + 2 + 2 * i] != 0 || buf[pos + 2 + 2 * i + 1] != 0
      {
        assert buf[pos + 2 * (i + 1)] != 0 || buf[pos + 2 * (i + 1) + 1] != 0;
      }
      ZeroPairFromPlaced(buf, pos + 2, units - 1);
    }
  }

  /** A terminated string reads back as its unterminated text. */
  lemma PlacedText(buf: bytes, pos: nat, s: bytes, wide: bool)
    requires At(buf, pos, s + Terminator(wide)) && Unterminated(s, wide)
    ensures pos <= |buf| && Terminated(buf, pos, wide) == Ok(s)
  {
    AtSplit(buf, pos, s, Terminator(wide));
    var end := pos + |s|;
    assert forall j :: 0 <= j < |s| ==> buf[pos + j] == s[j];
    if wide {
      assert buf[end..end + 2] == [0, 0];
      assert buf[end] == buf[end..end + 2][0] && buf[end + 1] == buf[end..end + 2][1];
      forall i | 0 <= i < |s| / 2
        ensures buf[pos + 2 * i] != 0 || buf[pos + 2 * i + 1] != 0
      {
        assert s[2 * i] != 0 || s[2 * i + 1] != 0;
      }
      ZeroPairFromPlaced(buf, pos, |s| / 2);
    } else {
      assert buf[end..end + 1][0] == 0;
      forall j | pos <= j < end
        ensures buf[j] != 0
      {
        assert s[j - pos] != 0;
      }
      ZeroFromPlaced(buf, pos, end);
    }
  }

  // ------------------------------------------------------------------ the reader

  class BinaryReader {
    const buf: bytes
    var pos: nat
    var bigEndian: bool

    ghost predicate Valid()
      reads this
    {
      pos <= |buf|
    }

    constructor (buf: bytes)
      ensures Valid() && this.buf == buf && pos == 0 && !bigEndian
    {
      this.buf := buf;
      pos, bigEndian := 0, false;
    }

    method ReadBytes(n: nat) returns (r: Result<bytes>)
      requires Valid()
      modifies this`pos
      ensures Valid()
      ensures r == Take(buf, old(pos), n)
      ensures pos == old(pos) + if r.Ok? then n else 0
    {
      if |buf| - pos < n {
        return Err(Truncated);
      }
      r := Ok(buf[pos..pos + n]);
      pos := pos + n;
    }

    method ReadUInt(n: nat) returns (r: Result<nat>)
      requires Valid()
      modifies this`pos
      ensures Valid()
      ensures r == GetUInt(buf, old(pos), bigEndian, n)
      ensures pos == old(pos) + if r.Ok? then n else 0
    {
      var s :- ReadBytes(n);
      r := Ok(Dec(bigEndian, s));
    }

    method ReadSInt(n: nat) returns (r: Result<int>)
      requires Valid()
      modifies this`pos
      ensures Valid()
      ensures r == GetSInt(buf, old(pos), bigEndian, n)
      ensures r.Ok? ==> pos == old(pos) + n
    {
      var u :- ReadUInt(n);
      r := Ok(Signed(u, n));
    }

    method ReadByte() returns (r: Result<nat>)
      requires Valid()
      modifies this`pos
      ensures Valid()
      ensures r == GetUInt(buf, old(pos), false, 1)
      ensures r.Ok? ==> pos == old(pos) + 1
    {
      var s :- ReadBytes(1);
      r := Ok(Dec(false, s));
    }

    method ReadBool() returns (r: Result<bool>)
      requires Valid()
      modifies this`pos
      ensures Valid()
      ensures r == GetBool(buf, old(pos))
      ensures r.Ok? ==> pos == old(pos) + 1
    {
      var u :- ReadByte();
      if u > 1 {
        return Err(BadMagic);
      }
      r := Ok(u == 1);
    }

    method AssertByte(options: set<int>) returns (r: Result<nat>)
      requires Valid()
      modifies this`pos
      ensures Valid()
      ensures r == ExpectByte(buf, old(pos), options)
      ensures r.Ok? ==> pos == old(pos) + 1
    {
      var u :- ReadByte();
      if u !in options {
        return Err(BadMagic);
      }
      r := Ok(u);
    }

    method AssertSInt(n: nat, v: int) returns (r: Result<()>)
      requires Valid()
      modifies this`pos
      ensures Valid()
      ensures r == ExpectSInt(buf, old(pos), bigEndian, n, v)
      ensures r.Ok? ==> pos == old(pos) + n
    {
      var i :- ReadSInt(n);
      if i != v {
        return Err(BadMagic);
      }
      r := Ok(());
    }

    method AssertUInt(n: nat, v: nat) returns (r: Result<()>)
      requires Valid()
      modifies this`pos
      ensures Valid()
      ensures r == ExpectUInt(buf, old(pos), bigEndian, n, v)
      ensures r.Ok? ==> pos == old(pos) + n
    {
      var u :- ReadUInt(n);
      if u != v {
        return Err(BadMagic);
      }
      r := Ok(());
    }

    method AssertBytes(s: bytes) returns (r: Result<()>)
      requires Valid()
      modifies this`pos
      ensures Valid()
      ensures r == ExpectBytes(buf, old(pos), s)
      ensures r.Ok? ==> pos == old(pos) + |s|
    {
      var t :- ReadBytes(|s|);
      if t != s {
        return Err(BadMagic);
      }
      r := Ok(());
    }

    method Seek(p: int) returns (r: Result<()>)
      requires Valid()
      modifies this`pos
      ensures Valid()
      ensures r.Err? ==> SeekTo(buf, p) == Err(r.error)
      ensures r.Ok? ==> SeekTo(buf, p) == Ok(pos)
    {
      if p < 0 {
        return Err(InvalidArg);
      }
      if p > |buf| {
        return Err(OutOfRange);
      }
      pos := p;
      r := Ok(());
    }

    /** Steps to an absolute offset, reads `n` bytes, and steps back. */
    method GetBytes(off: int, n: nat) returns (r: Result<bytes>)
      requires Valid()
      modifies this`pos
      ensures Valid()
      ensures r == (var p :- SeekTo(buf, off); Take(buf, p, n))
      ensures r.Ok? ==> pos == old(pos)
    {
      var back := pos;
      var _ :- Seek(off);
      var s :- ReadBytes(n);
      pos := back;
      r := Ok(s);
    }

    /** Collects bytes up to a terminator: one zero byte, or one zero code unit. */
    method ReadTerminated(wide: bool) returns (r: Result<bytes>)
      requires Valid()
      modifies this`pos
      ensures Valid()
      ensures r == Terminated(buf, old(pos), wide)
    {
      ghost var start := pos;
      var acc: bytes := [];
      var unit := if wide then 2 else 1;
      while true
        invariant Valid() && start <= pos && acc == buf[start..pos]
        invariant wide ==> ZeroPairFrom(buf, pos) == ZeroPairFrom(buf, start)
        invariant !wide ==> ZeroFrom(buf, pos) == ZeroFrom(buf, start)
        decreases |buf| - pos
      {
        var u :- ReadBytes(unit);
        if u[0] == 0 && (wide ==> u[1] == 0) {
          return Ok(acc);
        }
        acc := acc + u;
      }
    }

    /** Steps to an absolute offset, reads a terminated string there, and steps back. */
    method GetTerminated(off: int, wide: bool) returns (r: Result<bytes>)
      requires Valid()
      modifies this`pos
      ensures Valid()
      ensures r == (var p :- SeekTo(buf, off); Terminated(buf, p, wide))
      ensures r.Ok? ==> pos == old(pos)
    {
      var back := pos;
      var _ :- Seek(off);
      var s :- ReadTerminated(wide);
      pos := back;
      r := Ok(s);
    }
  }
}
