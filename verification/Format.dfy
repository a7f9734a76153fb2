/** The format and file-flag bytes of the BND3/BND4 headers: which bits select which header
    fields, and when a format byte survives being written and read back. */
module Format {
  import opened Bytes

  predicate ForcesBigEndian(f: byte) { f % 2 == 1 }
  predicate HasIds(f: byte) { f / 2 % 2 == 1 }
  predicate HasNames1(f: byte) { f / 4 % 2 == 1 }
  predicate HasNames2(f: byte) { f / 8 % 2 == 1 }
  predicate HasLongOffsets(f: byte) { f / 16 % 2 == 1 }
  predicate HasCompression(f: byte) { f / 32 % 2 == 1 }
  predicate HasFlag6(f: byte) { f / 64 % 2 == 1 }
  predicate HasFlag7(f: byte) { f / 128 == 1 }

  predicate HasNames(f: byte) { HasNames1(f) || HasNames2(f) }

  /** The format that consists of the Names1 bit alone. */
  const NAMES1_ONLY: byte := 4

  /** The file flag that marks a compressed payload. */
  predicate IsCompressed(flags: byte) { flags % 2 == 1 }

  function ReverseBits(b: byte): byte {
    b % 2 * 128 + b / 2 % 2 * 64 + b / 4 % 2 * 32 + b / 8 % 2 * 16
    + b / 16 % 2 * 8 + b / 32 % 2 * 4 + b / 64 % 2 * 2 + b / 128
  }

  lemma Halves(x: nat, low: int, high: nat)
    requires 0 <= low <= 1 && x == low + 2 * high
    ensures x % 2 == low && x / 2 == high
  {
  }

  lemma LowBit(x: nat)
    ensures x == x % 2 + 2 * (x / 2)
  {
  }

  lemma Shifts(b: byte)
    ensures b / 4 == b / 2 / 2 && b / 8 == b / 4 / 2 && b / 16 == b / 8 / 2
    ensures b / 32 == b / 16 / 2 && b / 64 == b / 32 / 2 && b / 128 == b / 64 / 2
  {
  }

  predicate IsBit(x: int) { 0 <= x <= 1 }

  /** The bits of a byte put together from eight of them. */
  lemma Compose(b0: int, b1: int, b2: int, b3: int, b4: int, b5: int, b6: int, b7: int)
    requires IsBit(b0) && IsBit(b1) && IsBit(b2) && IsBit(b3) && IsBit(b4) && IsBit(b5) && IsBit(b6) && IsBit(b7)
    ensures var b := b0 + 2 * b1 + 4 * b2 + 8 * b3 + 16 * b4 + 32 * b5 + 64 * b6 + 128 * b7;
      && b % 2 == b0 && b / 2 % 2 == b1 && b / 4 % 2 == b2 && b / 8 % 2 == b3
      && b / 16 % 2 == b4 && b / 32 % 2 == b5 && b / 64 % 2 == b6 && b / 128 == b7
  {
    Shifts(b0 + 2 * b1 + 4 * b2 + 8 * b3 + 16 * b4 + 32 * b5 + 64 * b6 + 128 * b7);
    var r6 := b6 + 2 * b7;
    var r5 := b5 + 2 * r6;
    var r4 := b4 + 2 * r5;
    var r3 := b3 + 2 * r4;
    var r2 := b2 + 2 * r3;
    var r1 := b1 + 2 * r2;
    Halves(b0 + 2 * r1, b0, r1);
    Halves(r1, b1, r2);
    Halves(r2, b2, r3);
    Halves(r3, b3, r4);
    Halves(r4, b4, r5);
    Halves(r5, b5, r6);
    Halves(r6, b6, b7);
  }

  lemma Decompose(b: byte)
    ensures b == b % 2 + 2 * (b / 2 % 2) + 4 * (b / 4 % 2) + 8 * (b / 8 % 2)
              + 16 * (b / 16 % 2) + 32 * (b / 32 % 2) + 64 * (b / 64 % 2) + 128 * (b / 128)
  {
    Shifts(b);
    LowBit(b);
    LowBit(b / 2);
    LowBit(b / 4);
    LowBit(b / 8);
    LowBit(b / 16);
    LowBit(b / 32);
    LowBit(b / 64);
  }

  lemma ReversedBits(b: byte)
    ensures var r := ReverseBits(b);
      && r % 2 == b / 128 && r / 2 % 2 == b / 64 % 2 && r / 4 % 2 == b / 32 % 2 && r / 8 % 2 == b / 16 % 2
      && r / 16 % 2 == b / 8 % 2 && r / 32 % 2 == b / 4 % 2 && r / 64 % 2 == b / 2 % 2 && r / 128 == b % 2
  {
    Compose(b / 128, b / 64 % 2, b / 32 % 2, b / 16 % 2, b / 8 % 2, b / 4 % 2, b / 2 % 2, b % 2);
  }

  lemma ReverseBitsInvolutive(b: byte)
    ensures ReverseBits(ReverseBits(b)) == b
  {
    ReversedBits(b);
    Decompose(b);
  }

  function WriteFormat(f: byte, bitBig: bool): byte {
    if bitBig || (ForcesBigEndian(f) && HasFlag6(f)) then f else ReverseBits(f)
  }

  function ReadFormat(raw: byte, bitBig: bool): byte {
    if bitBig || (raw % 2 == 1 && raw / 128 == 0) then raw else ReverseBits(raw)
  }

  function WriteFlags(flags: byte, bitBig: bool): byte {
    if bitBig then flags else ReverseBits(flags)
  }

  function ReadFlags(raw: byte, bitBig: bool): byte {
    if bitBig then raw else ReverseBits(raw)
  }

  /** What a caller can check before writing: with reversed bits, Flag7 needs the big-endian bit
      beside it, and together with Flag6 as well the byte must read the same both ways. */
  predicate FormatStable(f: byte, bitBig: bool) {
    bitBig || !HasFlag7(f) || (ForcesBigEndian(f) && (HasFlag6(f) ==> ReverseBits(f) == f))
  }

  lemma FormatSurvives(f: byte, bitBig: bool)
    ensures ReadFormat(WriteFormat(f, bitBig), bitBig) == f <==> FormatStable(f, bitBig)
  {
    hide ReverseBits;
    ReversedBits(f);
    ReverseBitsInvolutive(f);
  }

  /** Not every byte a reader accepts is stable: 0x83 with reversed bits is read as 0xC1, which is
      written as it is, and then read as 0x83. */
  lemma UnstableFormatRead()
    ensures ReadFormat(0x83, false) == 0xC1 && WriteFormat(0xC1, false) == 0xC1 && ReadFormat(0xC1, false) == 0x83
    ensures !FormatStable(0xC1, false)
  {
    hide ReverseBits;
    Compose(1, 1, 0, 0, 0, 0, 0, 1);
    ReversedBits(0x83);
    Decompose(ReverseBits(0x83));
    assert ReverseBits(0x83) == 0xC1;
    ReverseBitsInvolutive(0x83);
    Compose(1, 0, 0, 0, 0, 0, 1, 1);
  }

  lemma FlagsSurvive(flags: byte, bitBig: bool)
    ensures ReadFlags(WriteFlags(flags, bitBig), bitBig) == flags
  {
    ReverseBitsInvolutive(flags);
  }
}
