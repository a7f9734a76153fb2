/** Words and texts in a buffer, spelled out byte by byte, and what the reading and writing of
    integers and texts is in these terms. */
module Words {
  import opened Bytes
  import opened Reading

  // ------------------------------------------------------------------ bits and words

  predicate Bit(x: nat, weight: nat)
    requires weight > 0
  {
    x / weight % 2 == 1
  }

  function U16(buf: bytes, pos: nat, be: bool): nat
    requires pos + 2 <= |buf|
  {
    var b0: nat, b1: nat := buf[pos], buf[pos + 1];
    if be then 0x100 * b0 + b1 else b0 + 0x100 * b1
  }

  function U32(buf: bytes, pos: nat, be: bool): nat
    requires pos + 4 <= |buf|
  {
    var b0: nat, b1: nat, b2: nat, b3: nat := buf[pos], buf[pos + 1], buf[pos + 2], buf[pos + 3];
    if be then 0x100_0000 * b0 + 0x1_0000 * b1 + 0x100 * b2 + b3
    else b0 + 0x100 * b1 + 0x1_0000 * b2 + 0x100_0000 * b3
  }

  function U64(buf: bytes, pos: nat, be: bool): nat
    requires pos + 8 <= |buf|
  {
    if be then 0x1_0000_0000 * U32(buf, pos, true) + U32(buf, pos + 4, true)
    else U32(buf, pos, false) + 0x1_0000_0000 * U32(buf, pos + 4, false)
  }

  function I32(buf: bytes, pos: nat, be: bool): int
    requires pos + 4 <= |buf|
  {
    if U32(buf, pos, be) < 0x8000_0000 then U32(buf, pos, be) else U32(buf, pos, be) - 0x1_0000_0000
  }

  function I64(buf: bytes, pos: nat, be: bool): int
    requires pos + 8 <= |buf|
  {
    if U64(buf, pos, be) < 0x8000_0000_0000_0000 then U64(buf, pos, be) else U64(buf, pos, be) - 0x1_0000_0000_0000_0000
  }

  // ------------------------------------------------------------------ loading

  lemma Pairs(s: bytes)
    requires |s| == 2
    ensures Dec(false, s) == U16(s, 0, false) && Dec(true, s) == U16(s, 0, true)
  {
    assert UnLE(s[1..]) == s[1] + 256 * UnLE(s[1..][1..]);
    assert UnBE(s[..1]) == 256 * UnBE(s[..1][..0]) + s[0];
  }

  lemma {:induction false} LowAndHigh(s: bytes, t: bytes)
    ensures UnLE(s + t) == UnLE(s) + Pow256(|s|) * UnLE(t)
  {
    if s == [] {
      assert s + t == t;
    } else {
      LowAndHigh(s[1..], t);
      assert (s + t)[1..] == s[1..] + t;
      Factor(Pow256(|s| - 1), UnLE(t));
    }
  }

  lemma {:induction false} HighAndLow(s: bytes, t: bytes)
    ensures UnBE(s + t) == Pow256(|t|) * UnBE(s) + UnBE(t)
    decreases |t|
  {
    if t == [] {
      assert s + t == s;
    } else {
      HighAndLow(s, t[..|t| - 1]);
      var init, d := t[..|t| - 1], t[|t| - 1];
      assert (s + t)[..|s + t| - 1] == s + init;
      assert UnBE(s + t) == 256 * UnBE(s + init) + d;
      assert UnBE(t) == 256 * UnBE(init) + d;
      Factor(Pow256(|init|), UnBE(s));
    }
  }

  lemma Factor(p: nat, v: nat)
    ensures 256 * (p * v) == (256 * p) * v
  {
  }

  lemma Fours(s: bytes)
    requires |s| == 4
    ensures Dec(false, s) == U32(s, 0, false) && Dec(true, s) == U32(s, 0, true)
  {
    hide UnLE, UnBE;
    assert s == s[..2] + s[2..];
    LowAndHigh(s[..2], s[2..]);
    HighAndLow(s[..2], s[2..]);
    Pairs(s[..2]);
    Pairs(s[2..]);
    Widths();
  }

  lemma SameBytes(buf: bytes, pos: nat, s: bytes)
    requires At(buf, pos, s)
    ensures forall i :: 0 <= i < |s| ==> s[i] == buf[pos + i]
  {
  }

  /** What the reads of integers return. */
  lemma Read16(buf: bytes, pos: nat, be: bool)
    ensures GetUInt(buf, pos, be, 2) == if pos + 2 <= |buf| then Ok(U16(buf, pos, be)) else Err(Truncated)
  {
    hide Dec;
    if pos + 2 <= |buf| {
      SameBytes(buf, pos, buf[pos..pos + 2]);
      Pairs(buf[pos..pos + 2]);
    }
  }

  lemma Read32(buf: bytes, pos: nat, be: bool)
    ensures GetUInt(buf, pos, be, 4) == if pos + 4 <= |buf| then Ok(U32(buf, pos, be)) else Err(Truncated)
    ensures GetSInt(buf, pos, be, 4) == if pos + 4 <= |buf| then Ok(I32(buf, pos, be)) else Err(Truncated)
  {
    hide Dec;
    Widths();
    if pos + 4 <= |buf| {
      SameBytes(buf, pos, buf[pos..pos + 4]);
      Fours(buf[pos..pos + 4]);
    }
  }

  lemma Read64(buf: bytes, pos: nat, be: bool)
    ensures GetUInt(buf, pos, be, 8) == if pos + 8 <= |buf| then Ok(U64(buf, pos, be)) else Err(Truncated)
    ensures GetSInt(buf, pos, be, 8) == if pos + 8 <= |buf| then Ok(I64(buf, pos, be)) else Err(Truncated)
  {
    hide U32, UnLE, UnBE;
    Widths();
    if pos + 8 <= |buf| {
      var s := buf[pos..pos + 8];
      assert s == buf[pos..pos + 4] + buf[pos + 4..pos + 8];
      Read32(buf, pos, be);
      Read32(buf, pos + 4, be);
      LowAndHigh(buf[pos..pos + 4], buf[pos + 4..pos + 8]);
      HighAndLow(buf[pos..pos + 4], buf[pos + 4..pos + 8]);
    }
  }

  lemma ReadByte(buf: bytes, pos: nat)
    ensures GetUInt(buf, pos, false, 1) == if pos < |buf| then Ok(buf[pos]) else Err(Truncated)
  {
    if pos < |buf| {
      assert buf[pos..pos + 1] == [buf[pos]];
      PlacedByte(buf, pos, buf[pos]);
    }
  }

  lemma ReadFlag(buf: bytes, pos: nat)
    ensures GetBool(buf, pos) == if pos >= |buf| then Err(Truncated) else if buf[pos] > 1 then Err(BadMagic) else Ok(buf[pos] == 1)
  {
    ReadByte(buf, pos);
  }

  lemma ReadOption(buf: bytes, pos: nat, options: set<int>)
    ensures ExpectByte(buf, pos, options)
         == if pos >= |buf| then Err(Truncated) else if buf[pos] in options then Ok(buf[pos]) else Err(BadMagic)
  {
    ReadByte(buf, pos);
  }

  // ------------------------------------------------------------------ storing

  lemma Quotients(v: int)
    ensures v / 256 / 256 == v / 0x1_0000 && v / 0x1_0000 / 256 == v / 0x100_0000
  {
  }

  lemma TwoBytes(v: int)
    ensures LE(v, 2) == [v % 256, v / 256 % 256] && BE(v, 2) == [v / 256 % 256, v % 256]
  {
    var w := v / 256;
    assert LE(w, 1) == [w % 256] + LE(w / 256, 0);
    assert BE(w, 1) == BE(w / 256, 0) + [w % 256];
  }

  lemma ThreeBytes(v: int)
    ensures LE(v, 3) == [v % 256] + LE(v / 256, 2) && BE(v, 3) == BE(v / 256, 2) + [v % 256]
  {
  }

  /** The bytes of a stored integer, one by one. */
  lemma Bytes4(v: int)
    ensures Enc(false, v, 4) == [v % 0x100, v / 0x100 % 0x100, v / 0x1_0000 % 0x100, v / 0x100_0000 % 0x100]
    ensures Enc(true, v, 4) == [v / 0x100_0000 % 0x100, v / 0x1_0000 % 0x100, v / 0x100 % 0x100, v % 0x100]
  {
    Quotients(v);
    ThreeBytes(v / 256);
    TwoBytes(v / 0x1_0000);
    assert LE(v, 4) == [v % 256] + LE(v / 256, 3) && BE(v, 4) == BE(v / 256, 3) + [v % 256];
  }

  lemma Bytes8(v: nat)
    requires v < 0x8000_0000
    ensures Enc(false, v, 8) == Enc(false, v, 4) + [0, 0, 0, 0] && Enc(true, v, 8) == [0, 0, 0, 0] + Enc(true, v, 4)
  {
    hide Enc;
    Widths();
    WordHalves(false, v);
    WordHalves(true, v);
    Bytes4(0);
  }

  lemma Stored16(buf: bytes, pos: nat, be: bool, v: nat)
    requires At(buf, pos, Enc(be, v, 2)) && v < 0x1_0000
    ensures pos + 2 <= |buf| && U16(buf, pos, be) == v
  {
    hide Enc;
    Widths();
    PlacedUInt(buf, pos, be, v, 2);
    Read16(buf, pos, be);
  }

  /** A stored integer, signed or not, is the one that its bytes spell. */
  lemma Stored32(buf: bytes, pos: nat, be: bool, v: int)
    requires At(buf, pos, Enc(be, v, 4))
    ensures pos + 4 <= |buf|
    ensures 0 <= v < 0x1_0000_0000 ==> U32(buf, pos, be) == v
    ensures -0x8000_0000 <= v < 0x8000_0000 ==> I32(buf, pos, be) == v
  {
    hide Enc, U32, GetUInt, GetSInt;
    Widths();
    Read32(buf, pos, be);
    if 0 <= v < 0x1_0000_0000 {
      PlacedUInt(buf, pos, be, v, 4);
    }
    if -0x8000_0000 <= v < 0x8000_0000 {
      PlacedSInt(buf, pos, be, v, 4);
    }
  }

  lemma Stored64(buf: bytes, pos: nat, be: bool, v: int)
    requires At(buf, pos, Enc(be, v, 8))
    ensures pos + 8 <= |buf|
    ensures 0 <= v < 0x1_0000_0000_0000_0000 ==> U64(buf, pos, be) == v
    ensures -0x8000_0000_0000_0000 <= v < 0x8000_0000_0000_0000 ==> I64(buf, pos, be) == v
  {
    hide Enc, U64, GetUInt, GetSInt;
    Widths();
    Read64(buf, pos, be);
    if 0 <= v < 0x1_0000_0000_0000_0000 {
      PlacedUInt(buf, pos, be, v, 8);
    }
    if -0x8000_0000_0000_0000 <= v < 0x8000_0000_0000_0000 {
      PlacedSInt(buf, pos, be, v, 8);
    }
  }

  // ------------------------------------------------------------------ bounds

  lemma InsideBuffer(buf: bytes, pos: nat, s: bytes)
    requires At(buf, pos, s)
    ensures pos + |s| <= |buf|
  {
  }

  lemma IdInRange(id: int)
    requires Fits(id, 4)
    ensures -0x8000_0000 <= id < 0x8000_0000
  {
    Widths();
  }

  lemma ZerosAt(buf: bytes, pos: nat, n: nat)
    requires At(buf, pos, Fill(n, 0))
    ensures pos + n <= |buf| && forall k :: pos <= k < pos + n ==> buf[k] == 0
  {
    var s := Fill(n, 0);
    SameBytes(buf, pos, s);
    forall k | pos <= k < pos + n
      ensures buf[k] == 0
    {
      assert s[k - pos] == buf[pos + (k - pos)];
    }
  }

  // ------------------------------------------------------------------ texts

  /** A text of bytes other than zero, with a zero byte behind it. */
  ghost predicate NarrowText(buf: bytes, pos: nat, s: bytes) {
    && pos + |s| < |buf| && buf[pos..pos + |s|] == s && buf[pos + |s|] == 0
    && forall i :: 0 <= i < |s| ==> s[i] != 0
  }

  /** A text of pairs of bytes that are not both zero, with two zero bytes behind it. */
  ghost predicate WideText(buf: bytes, pos: nat, s: bytes) {
    && pos + |s| + 1 < |buf| && buf[pos..pos + |s|] == s && buf[pos + |s|] == 0 && buf[pos + |s| + 1] == 0
    && |s| % 2 == 0 && forall i :: 0 <= i < |s| / 2 ==> s[2 * i] != 0 || s[2 * i + 1] != 0
  }

  lemma ReadNarrow(buf: bytes, pos: nat, s: bytes)
    requires pos <= |buf|
    ensures Terminated(buf, pos, false) == Ok(s) <==> NarrowText(buf, pos, s)
  {
    if NarrowText(buf, pos, s) {
      assert forall j :: 0 <= j < |s| ==> buf[pos + j] == s[j];
      ZeroFromPlaced(buf, pos, pos + |s|);
    }
  }

  lemma {:induction false} PairsBefore(buf: bytes, pos: nat)
    requires pos <= |buf|
    ensures var n := ZeroPairFrom(buf, pos) - pos;
      n % 2 == 0 && forall i :: 0 <= i < n / 2 ==> buf[pos + 2 * i] != 0 || buf[pos + 2 * i + 1] != 0
    decreases |buf| - pos
  {
    if !(pos + 2 > |buf| || (buf[pos] == 0 && buf[pos + 1] == 0)) {
      PairsBefore(buf, pos + 2);
      var n := ZeroPairFrom(buf, pos) - pos;
      forall i | 0 <= i < n / 2
        ensures buf[pos + 2 * i] != 0 || buf[pos + 2 * i + 1] != 0
      {
        if i > 0 {
          assert buf[pos + 2 + 2 * (i - 1)] != 0 || buf[pos + 2 + 2 * (i - 1) + 1] != 0;
        }
      }
    }
  }

  lemma {:induction false} PairEnds(buf: bytes, pos: nat)
    requires pos <= |buf|
    ensures var e := ZeroPairFrom(buf, pos); e + 2 <= |buf| ==> buf[e] == 0 && buf[e + 1] == 0
    decreases |buf| - pos
  {
    if !(pos + 2 > |buf| || (buf[pos] == 0 && buf[pos + 1] == 0)) {
      PairEnds(buf, pos + 2);
    }
  }

  lemma ReadWide(buf: bytes, pos: nat, s: bytes)
    requires pos <= |buf|
    ensures Terminated(buf, pos, true) == Ok(s) <==> WideText(buf, pos, s)
  {
    if WideText(buf, pos, s) {
      assert forall j :: 0 <= j < |s| ==> buf[pos + j] == s[j];
      ZeroPairFromPlaced(buf, pos, |s| / 2);
    } else {
      PairsBefore(buf, pos);
      PairEnds(buf, pos);
      var e := ZeroPairFrom(buf, pos);
      assert forall j :: 0 <= j < e - pos ==> buf[pos..e][j] == buf[pos + j];
    }
  }

  /** What stands in a field of `size` bytes in front of its first zero. */
  ghost predicate FieldText(buf: bytes, pos: nat, size: nat, s: bytes) {
    && pos + size <= |buf| && |s| <= size && buf[pos..pos + |s|] == s && (|s| < size ==> buf[pos + |s|] == 0)
    && forall i :: 0 <= i < |s| ==> s[i] != 0
  }

  lemma ReadField(buf: bytes, pos: nat, size: nat, s: bytes)
    requires pos + size <= |buf|
    ensures var t := buf[pos..pos + size]; t[..ZeroFrom(t, 0)] == s <==> FieldText(buf, pos, size, s)
  {
    var t := buf[pos..pos + size];
    SameBytes(buf, pos, t);
    var n := ZeroFrom(t, 0);
    assert t[..n] == buf[pos..pos + n];
    if FieldText(buf, pos, size, s) {
      assert s == t[..|s|];
      assert forall i :: 0 <= i < |s| ==> t[i] == s[i];
      assert n == |s|;
    }
  }

  // ------------------------------------------------------------------ rounding

  /** Rounding up in the usual way. */
  lemma RoundsUp(pos: nat, align: nat)
    requires align > 0
    ensures AlignUp(pos, align) == (pos + align - 1) / align * align
  {
    hide AlignUp;
    var q := (pos + align - 1) / align;
    DivMod(pos + align - 1, align);
    MultipleMod(q, align);
    AlignUnique(pos, align, q * align);
  }
}
