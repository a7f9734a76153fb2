/** Unwrapping an RSA-sealed BHD5: 256-byte chunks whose plaintext was taken for an integer, lost its
    leading zeros, and gets them back. */
module Bhd5Unwrapping {
  import opened Bytes
  import opened Bhd5

  /** The modular exponentiation on one chunk, as the platform provides it. */
  type Rsa = bytes -> Result<bytes>

  const CHUNK: nat := 256
  const BLOCK: nat := 255
  const FIRST_CAPACITY: nat := 512
  const SIZE_MAX: nat := 0xFFFF_FFFF_FFFF_FFFF

  /** A number without its leading zero bytes. */
  function Strip(s: bytes): (t: bytes)
    ensures |t| <= |s|
  {
    if s != [] && s[0] == 0 then Strip(s[1..]) else s
  }

  /** What the RSA layer hands over: a result of nothing but zeros counts as a failure. */
  function DecryptChunk(rsa: Rsa, s: bytes): Result<bytes> {
    var raw :- rsa(s);
    if Strip(raw) == [] then Err(Crypto) else Ok(Strip(raw))
  }

  function LeftPad(s: bytes, n: nat): (t: bytes)
    requires |s| <= n
    ensures |t| == n
  {
    Fill(n - |s|, 0) + s
  }

  function ChunkAt(input: bytes, i: nat): bytes
    requires CHUNK * (i + 1) <= |input|
  {
    input[CHUNK * i..CHUNK * (i + 1)]
  }

  function BlockAt(rsa: Rsa, input: bytes, i: nat): (r: Result<bytes>)
    requires CHUNK * (i + 1) <= |input|
    ensures r.Ok? ==> |r.value| == BLOCK
  {
    var chunk :- DecryptChunk(rsa, ChunkAt(input, i));
    if |chunk| > BLOCK then Err(OutOfRange) else Ok(LeftPad(chunk, BLOCK))
  }

  function Blocks(rsa: Rsa, input: bytes, k: nat): (r: Result<bytes>)
    requires CHUNK * k <= |input|
    ensures r.Ok? ==> |r.value| == BLOCK * k
  {
    if k == 0 then Ok([])
    else
      var init :- Blocks(rsa, input, k - 1);
      var b :- BlockAt(rsa, input, k - 1);
      Ok(init + b)
  }

  function HasMagic(s: bytes): bool {
    |s| >= 4 && s[..4] == MAGIC
  }

  function Unwrap(rsa: Rsa, input: bytes): Result<bytes> {
    if |input| == 0 || |input| % CHUNK != 0 then Err(Crypto)
    else
      var plain :- Blocks(rsa, input, |input| / CHUNK);
      if HasMagic(plain) then Ok(plain) else Err(BadMagic)
  }

  // ------------------------------------------------------------------ the growing buffer

  /** Doubles from the current capacity until there is room, or gives up doubling and takes exactly
      what is needed. */
  method NextCapacity(cap: nat, need: nat) returns (next: nat)
    ensures next >= need && next >= cap
  {
    next := if cap > 0 then cap else FIRST_CAPACITY;
    while next < need
      invariant next > 0 && next >= cap
      decreases need - next
    {
      if next > SIZE_MAX / 2 {
        next := need;
        break;
      }
      next := next * 2;
    }
  }

  /** A buffer that holds `s` and has room for `need` bytes. */
  method Grow(plain: array<byte>, size: nat, need: nat) returns (grown: array<byte>)
    requires size <= plain.Length && size <= need
    ensures need <= grown.Length && grown[..size] == plain[..size]
    ensures grown == plain || fresh(grown)
  {
    if need <= plain.Length {
      return plain;
    }
    var next := NextCapacity(plain.Length, need);
    grown := new byte[next](_ => 0);
    for i := 0 to size
      invariant forall j :: 0 <= j < i ==> grown[j] == plain[j]
    {
      grown[i] := plain[i];
    }
  }

  /** Appends a block: zeros first, then the number. */
  method AppendBlock(plain: array<byte>, size: nat, chunk: bytes)
    requires size + BLOCK <= plain.Length && |chunk| <= BLOCK
    modifies plain
    ensures plain[..size + BLOCK] == old(plain[..size]) + LeftPad(chunk, BLOCK)
  {
    var zeros := BLOCK - |chunk|;
    for i := 0 to zeros
      invariant plain[..size] == old(plain[..size])
      invariant forall j :: size <= j < size + i ==> plain[j] == 0
    {
      plain[size + i] := 0;
    }
    for i := 0 to |chunk|
      invariant plain[..size] == old(plain[..size])
      invariant forall j :: size <= j < size + zeros ==> plain[j] == 0
      invariant forall j :: size + zeros <= j < size + zeros + i ==> plain[j] == chunk[j - size - zeros]
    {
      plain[size + zeros + i] := chunk[i];
    }
    assert plain[size..size + BLOCK] == LeftPad(chunk, BLOCK);
    assert plain[..size + BLOCK] == plain[..size] + plain[size..size + BLOCK];
  }

  lemma {:induction false} BlocksFailEarly(rsa: Rsa, input: bytes, k: nat, n: nat)
    requires k <= n && CHUNK * n <= |input| && Blocks(rsa, input, k).Err?
    ensures Blocks(rsa, input, n) == Blocks(rsa, input, k)
    decreases n - k
  {
    hide BlockAt;
    if k < n {
      BlocksFailEarly(rsa, input, k + 1, n);
    }
  }

  lemma NextBlock(rsa: Rsa, input: bytes, k: nat, n: nat)
    requires k < n && CHUNK * n <= |input| && Blocks(rsa, input, k).Ok?
    ensures var chunk := DecryptChunk(rsa, ChunkAt(input, k));
      && (chunk.Err? ==> Blocks(rsa, input, n) == Err(chunk.error))
      && (chunk.Ok? && |chunk.value| > BLOCK ==> Blocks(rsa, input, n) == Err(OutOfRange))
      && (chunk.Ok? && |chunk.value| <= BLOCK ==> Blocks(rsa, input, k + 1) == Ok(Blocks(rsa, input, k).value + LeftPad(chunk.value, BLOCK)))
  {
    hide DecryptChunk, ChunkAt, LeftPad;
    if Blocks(rsa, input, k + 1).Err? {
      BlocksFailEarly(rsa, input, k + 1, n);
    }
  }

  lemma NoBlocks(rsa: Rsa, input: bytes)
    ensures Blocks(rsa, input, 0) == Ok([])
  {
  }

  /** The chunk loop, over a buffer that doubles as it fills up. */
  method UnwrapBlocks(rsa: Rsa, input: bytes, n: nat) returns (r: Result<bytes>)
    requires |input| == CHUNK * n
    ensures r == Blocks(rsa, input, n)
  {
    hide DecryptChunk, LeftPad, Blocks;
    var plain: array<byte> := new byte[0];
    var size: nat := 0;
    NoBlocks(rsa, input);
    for i := 0 to n
      invariant fresh(plain) && size == BLOCK * i <= plain.Length
      invariant Blocks(rsa, input, i) == Ok(plain[..size])
    {
      NextBlock(rsa, input, i, n);
      var chunk :- DecryptChunk(rsa, ChunkAt(input, i));
      if |chunk| > BLOCK {
        return Err(OutOfRange);
      }
      plain := Grow(plain, size, size + BLOCK);
      AppendBlock(plain, size, chunk);
      size := size + BLOCK;
    }
    return Ok(plain[..size]);
  }

  method UnwrapSealed(rsa: Rsa, input: bytes) returns (r: Result<bytes>)
    ensures r == Unwrap(rsa, input)
    ensures forall plain :: r == Ok(plain) <==> Opens(rsa, input, plain)
  {
    hide Blocks, HasMagic, Opens;
    forall plain
      ensures Unwrap(rsa, input) == Ok(plain) <==> Opens(rsa, input, plain)
    {
      UnwrapExactly(rsa, input, plain);
    }
    if |input| == 0 || |input| % CHUNK != 0 {
      return Err(Crypto);
    }
    var plain :- UnwrapBlocks(rsa, input, |input| / CHUNK);
    if !HasMagic(plain) {
      return Err(BadMagic);
    }
    return Ok(plain);
  }

  // ------------------------------------------------------------------ what comes back

  lemma {:induction false} StripZeros(s: bytes)
    ensures UnBE(Strip(s)) == UnBE(s)
    ensures Strip(s) == [] <==> UnBE(s) == 0
    ensures Strip(s) != [] ==> Strip(s)[0] != 0
    decreases |s|
  {
    if s != [] && s[0] == 0 {
      StripZeros(s[1..]);
      UnBEFirst(s);
    } else if s != [] {
      UnBEFirst(s);
    }
  }

  /** The first byte of a number is its most significant one. */
  lemma {:induction false} UnBEFirst(s: bytes)
    requires s != []
    ensures UnBE(s) == s[0] * Pow256(|s| - 1) + UnBE(s[1..])
    decreases |s|
  {
    if |s| == 1 {
      assert s[..0] == [] && s[1..] == [];
    } else {
      var init := s[..|s| - 1];
      UnBEFirst(init);
      assert init[1..] == s[1..][..|s| - 2];
      assert UnBE(s) == 256 * UnBE(init) + s[|s| - 1];
      assert UnBE(s[1..]) == 256 * UnBE(init[1..]) + s[|s| - 1];
      Scale(s[0], Pow256(|s| - 2));
    }
  }

  lemma Scale(d: nat, p: nat)
    ensures 256 * (d * p) == d * (256 * p)
  {
  }

  lemma {:induction false} BEOfUnBE(s: bytes, n: nat)
    requires |s| <= n
    ensures BE(UnBE(s), n) == LeftPad(s, n)
    decreases n
  {
    if n > 0 {
      if s == [] {
        BEOfUnBE([], n - 1);
        assert Fill(n, 0) == Fill(n - 1, 0) + [0];
      } else {
        var init := s[..|s| - 1];
        BEOfUnBE(init, n - 1);
        assert UnBE(s) / 256 == UnBE(init) && UnBE(s) % 256 == s[|s| - 1];
        assert LeftPad(s, n) == LeftPad(init, n - 1) + [s[|s| - 1]];
      }
    }
  }

  /** A number without leading zeros needs its full length. */
  lemma FirstDigit(s: bytes, n: nat)
    requires s != [] && s[0] != 0
    ensures UnBE(s) < Pow256(n) <==> |s| <= n
  {
    UnBEFirst(s);
    if |s| <= n {
      PowMonotone(|s|, n);
    } else {
      PowMonotone(n, |s| - 1);
      AtLeast(s[0], Pow256(|s| - 1));
    }
  }

  lemma AtLeast(d: nat, p: nat)
    requires d >= 1
    ensures d * p >= p
  {
  }

  lemma {:induction false} PowMonotone(m: nat, n: nat)
    requires m <= n
    ensures Pow256(m) <= Pow256(n)
    decreases n
  {
    if m < n {
      PowMonotone(m, n - 1);
    }
  }

  /** The number behind a chunk. */
  function ChunkValue(rsa: Rsa, input: bytes, i: nat): nat
    requires CHUNK * (i + 1) <= |input| && rsa(ChunkAt(input, i)).Ok?
  {
    UnBE(rsa(ChunkAt(input, i)).value)
  }

  /** A block comes back exactly when its number is not zero and fits; and then it is the fixed-length
      encoding of that number (I2OSP, section 4.1 of RFC 8017). */
  lemma BlockRestored(rsa: Rsa, input: bytes, i: nat)
    requires CHUNK * (i + 1) <= |input|
    ensures BlockAt(rsa, input, i).Ok? <==> rsa(ChunkAt(input, i)).Ok? && 0 < ChunkValue(rsa, input, i) < Pow256(BLOCK)
    ensures BlockAt(rsa, input, i).Ok? ==> BlockAt(rsa, input, i).value == BE(ChunkValue(rsa, input, i), BLOCK)
  {
    hide BE, UnBE, LeftPad, Strip;
    var raw := rsa(ChunkAt(input, i));
    if raw.Ok? {
      StripZeros(raw.value);
      if Strip(raw.value) != [] {
        FirstDigit(Strip(raw.value), BLOCK);
        if |Strip(raw.value)| <= BLOCK {
          BEOfUnBE(Strip(raw.value), BLOCK);
        }
      }
    }
  }

  ghost predicate AllFit(rsa: Rsa, input: bytes, k: nat)
    requires CHUNK * k <= |input|
  {
    forall i :: 0 <= i < k ==> rsa(ChunkAt(input, i)).Ok? && 0 < ChunkValue(rsa, input, i) < Pow256(BLOCK)
  }

  /** The blocks of the first `k` chunks, each a fixed-length encoding. */
  function Encodings(rsa: Rsa, input: bytes, k: nat): (s: bytes)
    requires CHUNK * k <= |input| && forall i :: 0 <= i < k ==> rsa(ChunkAt(input, i)).Ok?
  {
    if k == 0 then [] else Encodings(rsa, input, k - 1) + BE(ChunkValue(rsa, input, k - 1), BLOCK)
  }

  /** The buffer in front of the magic check: the concatenated encodings, exactly when all chunks
      decrypt to numbers from 1 up to what 255 bytes hold. */
  lemma {:induction false} BlocksRestored(rsa: Rsa, input: bytes, k: nat)
    requires CHUNK * k <= |input|
    ensures Blocks(rsa, input, k).Ok? <==> AllFit(rsa, input, k)
    ensures AllFit(rsa, input, k) ==> Blocks(rsa, input, k) == Ok(Encodings(rsa, input, k))
  {
    hide BlockAt, ChunkValue, ChunkAt, BE, BLOCK, Pow256;
    if k > 0 {
      BlocksRestored(rsa, input, k - 1);
      BlockRestored(rsa, input, k - 1);
    }
  }

  /** A sealed text: chunk `i` is the seal of block `i`. */
  ghost predicate Seals(rsa: Rsa, input: bytes, plain: bytes, k: nat)
    requires CHUNK * k <= |input| && BLOCK * k <= |plain|
  {
    forall i :: 0 <= i < k ==> rsa(ChunkAt(input, i)) == Ok([0] + PlainBlock(plain, i))
  }

  function PlainBlock(plain: bytes, i: nat): (s: bytes)
    requires BLOCK * (i + 1) <= |plain|
    ensures |s| == BLOCK
  {
    plain[BLOCK * i..BLOCK * (i + 1)]
  }

  lemma SealedValue(s: bytes)
    ensures UnBE([0] + s) == UnBE(s)
  {
    UnBEFirst([0] + s);
    assert ([0] + s)[1..] == s;
  }

  lemma {:induction false} EncodingsArePlain(rsa: Rsa, input: bytes, plain: bytes, k: nat)
    requires CHUNK * k <= |input| && BLOCK * k <= |plain| && Seals(rsa, input, plain, k)
    ensures forall i :: 0 <= i < k ==> ChunkValue(rsa, input, i) == UnBE(PlainBlock(plain, i)) < Pow256(BLOCK)
    ensures Encodings(rsa, input, k) == plain[..BLOCK * k]
  {
    hide BE, UnBE, ChunkAt, PlainBlock, LeftPad, ChunkValue, Pow256;
    if k > 0 {
      EncodingsArePlain(rsa, input, plain, k - 1);
      var b := PlainBlock(plain, k - 1);
      BlockValue(rsa, input, plain, k - 1);
      BEOfUnBE(b, BLOCK);
      NoPadding(b);
      Appended(plain, k - 1);
    }
  }

  lemma BlockValue(rsa: Rsa, input: bytes, plain: bytes, i: nat)
    requires CHUNK * (i + 1) <= |input| && BLOCK * (i + 1) <= |plain| && rsa(ChunkAt(input, i)) == Ok([0] + PlainBlock(plain, i))
    ensures ChunkValue(rsa, input, i) == UnBE(PlainBlock(plain, i))
  {
    hide UnBE, ChunkAt, PlainBlock;
    SealedValue(PlainBlock(plain, i));
  }

  lemma NoPadding(b: bytes)
    ensures LeftPad(b, |b|) == b
  {
  }

  lemma Appended(plain: bytes, k: nat)
    requires BLOCK * (k + 1) <= |plain|
    ensures plain[..BLOCK * (k + 1)] == plain[..BLOCK * k] + PlainBlock(plain, k)
  {
  }

  /** Unwrapping gives back a sealed text exactly when it begins with the magic and none of its blocks
      is all zeros; such a block is lost with the zeros the RSA layer strips. */
  lemma UnwrapRestores(rsa: Rsa, input: bytes, plain: bytes, k: nat)
    requires k > 0 && |input| == CHUNK * k && |plain| == BLOCK * k && Seals(rsa, input, plain, k)
    ensures Unwrap(rsa, input) == Ok(plain)
       <==> HasMagic(plain) && forall i :: 0 <= i < k ==> UnBE(PlainBlock(plain, i)) != 0
    ensures Unwrap(rsa, input).Ok? ==> Unwrap(rsa, input) == Ok(plain)
  {
    hide BE, UnBE, ChunkAt, PlainBlock, ChunkValue, Encodings, Blocks, HasMagic;
    EncodingsArePlain(rsa, input, plain, k);
    BlocksRestored(rsa, input, k);
    assert plain[..BLOCK * k] == plain;
    assert |input| / CHUNK == k && |input| % CHUNK == 0;
  }

  /** RSA with exponent one. */
  function ExponentOne(s: bytes): Result<bytes> {
    Ok(s)
  }

  lemma {:induction false} ZerosStripped(n: nat)
    ensures Strip(Fill(n, 0)) == []
  {
    if n > 0 {
      assert Fill(n, 0)[1..] == Fill(n - 1, 0);
      ZerosStripped(n - 1);
    }
  }

  /** A sealed text of two blocks, with the magic, whose second block is all zeros, is refused. */
  lemma ZeroBlockLost(plain: bytes, input: bytes)
    requires plain == MAGIC + Fill(2 * BLOCK - |MAGIC|, 0)
    requires input == [0] + plain[..BLOCK] + [0] + plain[BLOCK..]
    ensures Seals(ExponentOne, input, plain, 2) && HasMagic(plain) && Unwrap(ExponentOne, input) == Err(Crypto)
  {
    hide UnBE, LeftPad, Strip;
    assert PlainBlock(plain, 0) == plain[..BLOCK] && PlainBlock(plain, 1) == plain[BLOCK..];
    assert ChunkAt(input, 0) == [0] + PlainBlock(plain, 0);
    assert ChunkAt(input, 1) == [0] + PlainBlock(plain, 1) == Fill(CHUNK, 0);
    ZerosStripped(CHUNK);
    MagicKept(ChunkAt(input, 0));
    assert BlockAt(ExponentOne, input, 1) == Err(Crypto);
    NoBlocks(ExponentOne, input);
    assert Blocks(ExponentOne, input, 1).Ok?;
  }

  lemma MagicKept(s: bytes)
    requires |s| > 1 && s[0] == 0 && s[1] != 0
    ensures Strip(s) == s[1..]
  {
  }

  // ------------------------------------------------------------------ to the byte

  /** A number without leading zeros, with zeros in front. */
  ghost predicate EndsIn(s: bytes, t: bytes) {
    && |t| <= |s| && s[|s| - |t|..] == t
    && forall i :: 0 <= i < |s| - |t| ==> s[i] == 0
  }

  /** A block of 255 bytes holds the same number, not zero, as what RSA made of a chunk. */
  ghost predicate SameNumber(raw: bytes, block: bytes) {
    |block| == 255 && exists t :: t != [] && t[0] != 0 && EndsIn(raw, t) && EndsIn(block, t)
  }

  ghost predicate ChunkOpened(rsa: Rsa, input: bytes, plain: bytes, i: nat) {
    && 256 * i + 256 <= |input| && 255 * i + 255 <= |plain|
    && var raw := rsa(input[256 * i..256 * i + 256]);
       raw.Ok? && SameNumber(raw.value, plain[255 * i..255 * i + 255])
  }

  /** What is opened: whole chunks of 256 bytes, each of which gives a block of 255, and "BHD5" in front. */
  ghost predicate Opens(rsa: Rsa, input: bytes, plain: bytes) {
    && |input| > 0 && |input| % 256 == 0 && |plain| == |input| / 256 * 255
    && (forall i :: 0 <= i < |input| / 256 ==> ChunkOpened(rsa, input, plain, i))
    && plain[..4] == [0x42, 0x48, 0x44, 0x35]
  }

  lemma {:induction false} StripIs(s: bytes)
    ensures EndsIn(s, Strip(s)) && (Strip(s) != [] ==> Strip(s)[0] != 0)
    decreases |s|
  {
    if s != [] && s[0] == 0 {
      StripIs(s[1..]);
      var t := Strip(s[1..]);
      assert s[|s| - |t|..] == s[1..][|s| - 1 - |t|..];
      forall i | 0 <= i < |s| - |t|
        ensures s[i] == 0
      {
        assert i > 0 ==> s[1..][i - 1] == s[i];
      }
    }
  }

  lemma StripUnique(s: bytes, t: bytes)
    requires EndsIn(s, t) && t != [] && t[0] != 0
    ensures Strip(s) == t
  {
    StripIs(s);
    var u := Strip(s);
    var i, j := |s| - |t|, |s| - |u|;
    assert s[i] == t[0];
    if u != [] {
      assert s[j] == u[0];
    }
  }

  lemma PaddedIs(t: bytes, block: bytes)
    requires |t| <= 255 == |block|
    ensures LeftPad(t, 255) == block <==> EndsIn(block, t)
  {
    if EndsIn(block, t) {
      assert block == block[..255 - |t|] + block[255 - |t|..];
      assert block[..255 - |t|] == Fill(255 - |t|, 0);
    }
  }

  lemma OneOpened(rsa: Rsa, input: bytes, i: nat, block: bytes)
    requires 256 * i + 256 <= |input| && |block| == 255
    ensures BlockAt(rsa, input, i) == Ok(block) <==>
      var raw := rsa(input[256 * i..256 * i + 256]); raw.Ok? && SameNumber(raw.value, block)
  {
    hide Strip, LeftPad, EndsIn;
    assert ChunkAt(input, i) == input[256 * i..256 * i + 256];
    var raw := rsa(ChunkAt(input, i));
    if raw.Ok? {
      var t := Strip(raw.value);
      StripIs(raw.value);
      if |t| <= 255 {
        PaddedIs(t, block);
      }
      if SameNumber(raw.value, block) {
        var u :| u != [] && u[0] != 0 && EndsIn(raw.value, u) && EndsIn(block, u);
        StripUnique(raw.value, u);
        Shorter(block, u);
      }
    }
  }

  lemma Shorter(s: bytes, t: bytes)
    requires EndsIn(s, t)
    ensures |t| <= |s|
  {
  }

  lemma SamePart(init: bytes, plain: bytes, i: nat)
    requires |init| <= |plain| && init == plain[..|init|] && 255 * i + 255 <= |init|
    ensures init[255 * i..255 * i + 255] == plain[255 * i..255 * i + 255]
  {
  }

  lemma {:induction false} AllOpened(rsa: Rsa, input: bytes, plain: bytes, k: nat)
    requires 256 * k <= |input| && |plain| == 255 * k
    ensures Blocks(rsa, input, k) == Ok(plain) <==> forall i :: 0 <= i < k ==> ChunkOpened(rsa, input, plain, i)
    decreases k
  {
    hide BlockAt, SameNumber;
    if k > 0 {
      var init, last := plain[..255 * (k - 1)], plain[255 * (k - 1)..];
      AllOpened(rsa, input, init, k - 1);
      OneOpened(rsa, input, k - 1, last);
      forall i | 0 <= i < k - 1
        ensures ChunkOpened(rsa, input, init, i) <==> ChunkOpened(rsa, input, plain, i)
      {
        SamePart(init, plain, i);
      }
      assert ChunkOpened(rsa, input, plain, k - 1) <==> BlockAt(rsa, input, k - 1) == Ok(last) by {
        assert plain[255 * (k - 1)..255 * (k - 1) + 255] == last;
      }
      assert plain == init + last;
      var r, b := Blocks(rsa, input, k - 1), BlockAt(rsa, input, k - 1);
      if r.Ok? && b.Ok? && r.value + b.value == plain {
        assert r.value == init && b.value == last;
      }
    } else {
      assert plain == [];
    }
  }

  /** What is unwrapped, to the byte. */
  lemma UnwrapExactly(rsa: Rsa, input: bytes, plain: bytes)
    ensures Unwrap(rsa, input) == Ok(plain) <==> Opens(rsa, input, plain)
  {
    hide Blocks, ChunkOpened;
    if |input| % 256 == 0 && |plain| == |input| / 256 * 255 {
      AllOpened(rsa, input, plain, |input| / 256);
    }
  }
}
