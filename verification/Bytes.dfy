/** Result codes, byte strings, fixed-width integers in either byte order, and the
    "this text stands at that offset" vocabulary shared by every container format. */
module Bytes {

  datatype Error =
    | InvalidArg | BadMagic | Truncated | OutOfRange | Decompress | Crypto
    | NotFound | AlreadyExists | UnsupportedVersion | Internal | OutOfMemory

  datatype Option<+T> = None | Some(value: T)

  datatype Result<+T> = Ok(value: T) | Err(error: Error) {
    predicate IsFailure() {
      Err?
    }

    function PropagateFailure<U>(): Result<U>
      requires Err?
    {
      Err(error)
    }

    function Extract(): T
      requires Ok?
    {
      value
    }
  }

  type byte = x: int | 0 <= x < 256
  type bytes = seq<byte>

  function Bool(v: bool): byte {
    if v then 1 else 0
  }

  function Fill(n: nat, v: byte): (s: bytes)
    ensures |s| == n
    ensures forall i :: 0 <= i < n ==> s[i] == v
  {
    seq(n, _ => v)
  }

  // ------------------------------------------------------------------ integers

  function Pow256(n: nat): (p: nat)
    ensures p > 0
  {
    if n == 0 then 1 else 256 * Pow256(n - 1)
  }

  /** The low `n` bytes of `v`, least significant first. Dafny's division floors for a
      positive divisor, so this is two's complement for negative values and truncation for
      values that are too wide, as a C cast followed by a store is. */
  function LE(v: int, n: nat): (s: bytes)
    ensures |s| == n
    decreases n
  {
    if n == 0 then [] else [v % 256] + LE(v / 256, n - 1)
  }

  function UnLE(s: bytes): (v: nat)
    ensures v < Pow256(|s|)
  {
    if |s| == 0 then 0 else s[0] + 256 * UnLE(s[1..])
  }

  function BE(v: int, n: nat): (s: bytes)
    ensures |s| == n
    decreases n
  {
    if n == 0 then [] else BE(v / 256, n - 1) + [v % 256]
  }

  function UnBE(s: bytes): (v: nat)
    ensures v < Pow256(|s|)
  {
    if |s| == 0 then 0 else 256 * UnBE(s[..|s| - 1]) + s[|s| - 1]
  }

  /** Fixed-width store and load under a byte-order flag. */
  function Enc(be: bool, v: int, n: nat): (s: bytes)
    ensures |s| == n
  {
    if be then BE(v, n) else LE(v, n)
  }

  function Dec(be: bool, s: bytes): (v: nat)
    ensures v < Pow256(|s|)
  {
    if be then UnBE(s) else UnLE(s)
  }

  /** Reinterprets an unsigned value of `n` bytes as signed. */
  function Signed(u: nat, n: nat): int {
    if 2 * u < Pow256(n) then u else u - Pow256(n)
  }

  ghost predicate Fits(v: int, n: nat) {
    0 <= 2 * v + Pow256(n) && 2 * v < Pow256(n)
  }

  lemma {:induction false} LERoundTrip(v: nat, n: nat)
    requires v < Pow256(n)
    ensures UnLE(LE(v, n)) == v
  {
    if n > 0 {
      LERoundTrip(v / 256, n - 1);
      assert LE(v, n)[1..] == LE(v / 256, n - 1);
    }
  }

  lemma {:induction false} BERoundTrip(v: nat, n: nat)
    requires v < Pow256(n)
    ensures UnBE(BE(v, n)) == v
  {
    if n > 0 {
      BERoundTrip(v / 256, n - 1);
      assert BE(v, n)[..n - 1] == BE(v / 256, n - 1);
    }
  }

  lemma {:induction false} LEWraps(v: int, n: nat)
    ensures LE(v + Pow256(n), n) == LE(v, n)
    decreases n
  {
    if n > 0 {
      assert (v + Pow256(n)) / 256 == v / 256 + Pow256(n - 1);
      LEWraps(v / 256, n - 1);
    }
  }

  lemma {:induction false} BEWraps(v: int, n: nat)
    ensures BE(v + Pow256(n), n) == BE(v, n)
    decreases n
  {
    if n > 0 {
      assert (v + Pow256(n)) / 256 == v / 256 + Pow256(n - 1);
      BEWraps(v / 256, n - 1);
    }
  }

  /** A stored unsigned value loads back unchanged in either byte order. */
  lemma EncUnsigned(be: bool, v: nat, n: nat)
    requires v < Pow256(n)
    ensures Dec(be, Enc(be, v, n)) == v
  {
    LERoundTrip(v, n);
    BERoundTrip(v, n);
  }

  /** A stored signed value loads back unchanged in either byte order. */
  lemma EncSigned(be: bool, v: int, n: nat)
    requires Fits(v, n)
    ensures Signed(Dec(be, Enc(be, v, n)), n) == v
  {
    if v >= 0 {
      EncUnsigned(be, v, n);
    } else {
      LEWraps(v, n);
      BEWraps(v, n);
      EncUnsigned(be, v + Pow256(n), n);
    }
  }

  lemma Widths()
    ensures Pow256(1) == 0x100
    ensures Pow256(2) == 0x1_0000
    ensures Pow256(4) == 0x1_0000_0000
    ensures Pow256(8) == 0x1_0000_0000_0000_0000
  {
    assert Pow256(2) == 256 * Pow256(1);
    assert Pow256(3) == 256 * Pow256(2);
    assert Pow256(4) == 256 * Pow256(3);
    assert Pow256(5) == 256 * Pow256(4);
    assert Pow256(6) == 256 * Pow256(5);
    assert Pow256(7) == 256 * Pow256(6);
    assert Pow256(8) == 256 * Pow256(7);
  }

  /** Sizes below this survive every cast to a signed 32-bit integer. */
  const MAX_SIZE: nat := 0x8000_0000

  lemma SmallFits(v: nat)
    requires v < MAX_SIZE
    ensures v < Pow256(4) && v < Pow256(8) && Fits(v, 4) && Fits(v, 8)
  {
    Widths();
  }

  // ------------------------------------------------------------------ placement

  /** `s` stands in `buf` at offset `pos`. */
  ghost predicate At(buf: bytes, pos: int, s: bytes) {
    0 <= pos && pos + |s| <= |buf| && buf[pos..pos + |s|] == s
  }

  lemma AtWhole(s: bytes)
    ensures At(s, 0, s)
  {
    assert s[0..|s|] == s;
  }

  lemma AtSplit(buf: bytes, pos: int, s: bytes, t: bytes)
    ensures At(buf, pos, s + t) <==> At(buf, pos, s) && At(buf, pos + |s|, t)
  {
    if At(buf, pos, s + t) {
      assert buf[pos..pos + |s|] == (s + t)[..|s|];
      assert buf[pos + |s|..pos + |s| + |t|] == (s + t)[|s|..];
    }
    if At(buf, pos, s) && At(buf, pos + |s|, t) {
      assert buf[pos..pos + |s| + |t|] == buf[pos..pos + |s|] + buf[pos + |s|..pos + |s| + |t|];
    }
  }

  lemma AtSplit3(buf: bytes, pos: int, a: bytes, b: bytes, c: bytes)
    ensures At(buf, pos, a + b + c)
       <==> At(buf, pos, a) && At(buf, pos + |a|, b) && At(buf, pos + |a| + |b|, c)
  {
    AtSplit(buf, pos, a + b, c);
    AtSplit(buf, pos, a, b);
  }

  lemma AtSplit4(buf: bytes, pos: int, a: bytes, b: bytes, c: bytes, d: bytes)
    ensures At(buf, pos, a + b + c + d)
       <==> At(buf, pos, a) && At(buf, pos + |a|, b) && At(buf, pos + |a| + |b|, c)
            && At(buf, pos + |a| + |b| + |c|, d)
  {
    AtSplit(buf, pos, a + b + c, d);
    AtSplit3(buf, pos, a, b, c);
  }

  /** Placement composes: what stands inside a text stands inside any buffer holding it. */
  lemma AtTrans(buf: bytes, pos: int, s: bytes, off: int, t: bytes)
    requires At(buf, pos, s) && At(s, off, t)
    ensures At(buf, pos + off, t)
  {
    forall i | 0 <= i < |t|
      ensures buf[pos + off + i] == t[i]
    {
      assert t[i] == s[off..off + |t|][i] == s[off + i];
      assert s[off + i] == buf[pos..pos + |s|][off + i];
    }
  }

  // ------------------------------------------------------------------ concatenation

  function Flatten(parts: seq<bytes>): bytes {
    if |parts| == 0 then [] else Flatten(parts[..|parts| - 1]) + parts[|parts| - 1]
  }

  lemma {:induction false} FlattenPrefix(parts: seq<bytes>, k: nat)
    requires k <= |parts|
    ensures |Flatten(parts[..k])| <= |Flatten(parts)|
    ensures At(Flatten(parts), 0, Flatten(parts[..k]))
  {
    if k == |parts| {
      assert parts[..k] == parts;
    } else {
      var init := parts[..|parts| - 1];
      FlattenPrefix(init, k);
      assert init[..k] == parts[..k];
      AtSplit(Flatten(parts), 0, Flatten(init), parts[|parts| - 1]);
      AtTrans(Flatten(parts), 0, Flatten(init), 0, Flatten(parts[..k]));
    }
  }

  /** Part `i` of a concatenation stands right behind the parts before it. */
  lemma FlattenAt(parts: seq<bytes>, i: nat)
    requires i < |parts|
    ensures At(Flatten(parts), |Flatten(parts[..i])|, parts[i])
  {
    FlattenPrefix(parts, i + 1);
    assert parts[..i + 1][..i] == parts[..i];
    var t := Flatten(parts[..i + 1]);
    AtSplit(t, 0, Flatten(parts[..i]), parts[i]);
    AtTrans(Flatten(parts), 0, t, |Flatten(parts[..i])|, parts[i]);
  }

  /** Part `i` of a concatenation that stands in a buffer. */
  lemma PartStands(buf: bytes, pos: int, parts: seq<bytes>, i: nat)
    requires At(buf, pos, Flatten(parts)) && i < |parts|
    ensures At(buf, pos + |Flatten(parts[..i])|, parts[i])
    ensures |Flatten(parts[..i + 1])| == |Flatten(parts[..i])| + |parts[i]|
  {
    hide At;
    FlattenAt(parts, i);
    AtTrans(buf, pos, Flatten(parts), |Flatten(parts[..i])|, parts[i]);
    assert parts[..i + 1][..i] == parts[..i];
  }

  ghost predicate AllSized(parts: seq<bytes>, size: nat) {
    forall i :: 0 <= i < |parts| ==> |parts[i]| == size
  }

  /** Parts of equal size: the offset of part `i` is a multiple. */
  lemma {:induction false} FlattenUniform(parts: seq<bytes>, size: nat)
    requires AllSized(parts, size)
    ensures |Flatten(parts)| == size * |parts|
  {
    if parts != [] {
      FlattenUniform(parts[..|parts| - 1], size);
    }
  }

  lemma RowStands(buf: bytes, pos: int, parts: seq<bytes>, size: nat, i: nat)
    requires At(buf, pos, Flatten(parts)) && AllSized(parts, size) && i < |parts|
    ensures At(buf, pos + size * i, parts[i])
  {
    hide At;
    PartStands(buf, pos, parts, i);
    FlattenUniform(parts[..i], size);
  }

  // ------------------------------------------------------------------ halves of a wide integer

  lemma {:induction false} LEHighZero(v: nat, m: nat, n: nat)
    requires v < Pow256(m)
    ensures LE(v, m + n) == LE(v, m) + LE(0, n)
  {
    if m > 0 {
      LEHighZero(v / 256, m - 1, n);
    }
  }

  lemma {:induction false} BEHighZero(v: nat, m: nat, n: nat)
    requires v < Pow256(m)
    ensures BE(v, m + n) == BE(0, n) + BE(v, m)
  {
    if m > 0 {
      BEHighZero(v / 256, m - 1, n);
    }
  }

  /** A value below 2^32 stored in eight bytes is itself next to a zero word. */
  lemma WordHalves(be: bool, v: nat)
    requires v < Pow256(4)
    ensures Enc(be, v, 8) == if be then Enc(be, 0, 4) + Enc(be, v, 4) else Enc(be, v, 4) + Enc(be, 0, 4)
  {
    LEHighZero(v, 4, 4);
    BEHighZero(v, 4, 4);
  }

  // ------------------------------------------------------------------ alignment

  /** The least multiple of `align` that is not below `pos`. */
  function AlignUp(pos: nat, align: nat): (r: nat)
    requires align > 0
    ensures pos <= r < pos + align
    ensures r % align == 0
  {
    var rem := pos % align;
    if rem == 0 then pos
    else
      assert (pos + (align - rem)) % align == 0 by {
        DivMod(pos, align);
        MultipleMod(pos / align + 1, align);
      }
      pos + (align - rem)
  }

  lemma DivMod(x: nat, d: nat)
    requires d > 0
    ensures x == (x / d) * d + x % d
  {
  }

  lemma {:induction false} MultipleMod(k: nat, d: nat)
    requires d > 0
    ensures (k * d) % d == 0
  {
    if k > 0 {
      MultipleMod(k - 1, d);
      assert k * d == (k - 1) * d + d;
      assert ((k - 1) * d + d) % d == ((k - 1) * d) % d by { AddMod((k - 1) * d, d); }
    }
  }

  lemma AddMod(x: nat, d: nat)
    requires d > 0
    ensures (x + d) % d == x % d
  {
    var q, r := x / d, x % d;
    assert x + d == (q + 1) * d + r;
    UniqueDiv(x + d, d, q + 1, r);
  }

  lemma UniqueDiv(x: nat, d: nat, q: int, r: int)
    requires d > 0 && 0 <= r < d && x == q * d + r
    ensures x / d == q && x % d == r
  {
    var q', r' := x / d, x % d;
    assert x == q' * d + r';
    assert (q - q') * d == r' - r;
    SmallMultiple(q - q', d);
  }

  lemma SmallMultiple(k: int, d: nat)
    ensures k >= 1 ==> k * d >= d
    ensures k <= -1 ==> k * d + d <= 0
  {
  }

  /** Two multiples less than one step apart are the same. */
  lemma SameMultiple(x: nat, y: nat, d: nat)
    requires d > 0 && x % d == 0 && y % d == 0 && x < y + d && y < x + d
    ensures x == y
  {
    DivMod(x, d);
    DivMod(y, d);
    var k := x / d - y / d;
    assert k * d == x - y;
    SmallMultiple(k, d);
  }

  lemma AlignUnique(pos: nat, align: nat, r: nat)
    requires align > 0 && r % align == 0 && pos <= r < pos + align
    ensures AlignUp(pos, align) == r
  {
    SameMultiple(AlignUp(pos, align), r, align);
  }

  /** Aligning to a multiple of an alignment already met makes no difference. */
  lemma AlignNested(pos: nat, small: nat, k: nat)
    requires small > 0 && k > 0
    ensures k * small > 0 && AlignUp(pos, small) <= AlignUp(pos, k * small)
    ensures AlignUp(AlignUp(pos, small), k * small) == AlignUp(pos, k * small)
  {
    hide AlignUp;
    SmallMultiple(k, small);
    var s, t, q := AlignUp(pos, small), AlignUp(pos, k * small), AlignUp(pos, k * small) / (k * small);
    DivMod(t, k * small);
    assert q * (k * small) == (q * k) * small;
    MultipleMod(q * k, small);
    if s > t {
      SameMultiple(s, t, small);
    }
    AlignUnique(s, k * small, t);
  }
}
