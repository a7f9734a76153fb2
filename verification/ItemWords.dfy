/** What the two oldest containers are made of, spelled out: decimal names, texts, payloads, and how the
    pieces of a written archive are packed. */
module ItemWords {
  import opened Bytes
  import opened Reading
  import opened Words
  import opened Labels
  import opened Texts
  import opened Items

  // ------------------------------------------------------------------ numbers in decimal

  function DigitsValue(s: bytes): int {
    if s == [] then 0
    else
      var last: int := s[|s| - 1];
      10 * DigitsValue(s[..|s| - 1]) + last - 0x30
  }

  /** Digits without a leading zero that add up to the number. */
  ghost predicate Digits(s: bytes, n: nat) {
    && s != [] && (forall i :: 0 <= i < |s| ==> 0x30 <= s[i] <= 0x39)
    && (|s| > 1 ==> s[0] != 0x30) && DigitsValue(s) == n
  }

  /** A minus sign in front of a negative number. */
  ghost predicate Number(s: bytes, v: int) {
    if v < 0 then s != [] && s[0] == 0x2D && Digits(s[1..], -v) else Digits(s, v)
  }

  lemma {:induction false} DecimalIsDigits(n: nat)
    ensures Digits(Ascii(Decimal(n)), n)
    ensures |Decimal(n)| == 1 <==> n < 10
    ensures n > 0 ==> Ascii(Decimal(n))[0] != 0x30
  {
    var s := Ascii(Decimal(n));
    if n < 10 {
      assert s[..0] == [];
      assert DigitsValue(s) == 10 * DigitsValue(s[..0]) + (s[0] - 0x30);
    } else {
      DecimalIsDigits(n / 10);
      var t := Ascii(Decimal(n / 10));
      assert s[..|s| - 1] == t;
      assert s[|s| - 1] - 0x30 == n % 10;
      assert forall i :: 0 <= i < |s| - 1 ==> s[i] == t[i];
    }
  }

  lemma {:induction false} DigitsPositive(s: bytes)
    requires s != [] && s[0] != 0x30 && forall i :: 0 <= i < |s| ==> 0x30 <= s[i] <= 0x39
    ensures DigitsValue(s) > 0
  {
    if |s| > 1 {
      DigitsPositive(s[..|s| - 1]);
    } else {
      assert s[..0] == [];
    }
  }

  lemma {:induction false} DigitsUnique(s: bytes, n: nat)
    requires Digits(s, n)
    ensures s == Ascii(Decimal(n))
    decreases |s|
  {
    var k := |s| - 1;
    var init, d := s[..k], s[k] - 0x30;
    if k == 0 {
      assert init == [];
      assert n == d;
      assert s == Ascii(Decimal(n));
    } else {
      DigitsPositive(init);
      assert n == 10 * DigitsValue(init) + d;
      assert n / 10 == DigitsValue(init) && n % 10 == d;
      DigitsUnique(init, n / 10);
      assert Ascii(Decimal(n)) == Ascii(Decimal(n / 10)) + [s[k]];
      assert s == init + [s[k]];
    }
  }

  /** The decimal form of a number is its only one. */
  lemma NumberIs(v: int, s: bytes)
    ensures DecimalText(v) == s <==> Number(s, v)
  {
    hide Decimal, Ascii, DigitsValue;
    if v < 0 {
      DecimalIsDigits(-v);
      assert DecimalText(v)[1..] == Ascii(Decimal(-v));
      if Number(s, v) {
        DigitsUnique(s[1..], -v);
        assert s == [s[0]] + s[1..];
      }
    } else {
      DecimalIsDigits(v);
      if Number(s, v) {
        DigitsUnique(s, v);
      }
    }
  }

  // ------------------------------------------------------------------ what is found

  /** A terminated text, decoded. */
  ghost predicate TextFound(c: Codec, buf: bytes, at: int, text: bytes) {
    0 <= at <= |buf| && exists s :: NarrowText(buf, at, s) && c.decode(s) == Ok(text)
  }

  lemma TextIs(c: Codec, buf: bytes, at: int, text: bytes)
    ensures GetText(c, false, buf, at) == Ok(text) <==> TextFound(c, buf, at, text)
  {
    hide Terminated, NarrowText;
    if 0 <= at <= |buf| {
      forall s: bytes
        ensures Terminated(buf, at, false) == Ok(s) <==> NarrowText(buf, at, s)
      {
        ReadNarrow(buf, at, s);
      }
    }
  }

  /** A payload, or nothing for size zero, wherever that points. */
  ghost predicate DataFound(buf: bytes, at: int, size: nat, data: bytes) {
    if size == 0 then data == [] else 0 <= at && at + size <= |buf| && data == buf[at..at + size]
  }

  // ------------------------------------------------------------------ how a written archive is packed

  /** The next multiple of the alignment, if there is one. */
  function Rounded(pos: nat, align: nat): nat {
    if align == 0 then pos else (pos + align - 1) / align * align
  }

  /** A text with its terminator. */
  ghost predicate TextStored(c: Codec, buf: bytes, at: nat, text: bytes) {
    c.encode(text).Ok? && At(buf, at, c.encode(text).value + [0])
  }

  lemma PadIsRounded(pos: nat, align: nat)
    ensures PadUp(pos, align) == Rounded(pos, align)
  {
    if align > 0 {
      RoundsUp(pos, align);
    }
  }

  /** The words of entry `i`. */
  ghost predicate EntryWords(buf: bytes, pos: nat, wide: bool, id: int, at: nat, size: nat, name: nat) {
    && pos + (if wide then 16 else 12) <= |buf|
    && I32(buf, pos, false) == id && I32(buf, pos + 4, false) == at && I32(buf, pos + 8, false) == size
    && (wide ==> I32(buf, pos + 12, false) == name)
  }

  lemma EntrySpelled(buf: bytes, p: Plan, closing: nat, i: nat)
    requires ImageStands(buf, p, closing) && |buf| < 0x8000_0000 && i < |p.items| && Fits(p.items[i].id, 4)
    ensures EntryWords(buf, EntryPos(p, i), p.wide, p.items[i].id, PayloadAt(p, i), |p.items[i].data|, NameField(p, i))
    ensures At(buf, PayloadAt(p, i), p.items[i].data) && At(buf, NamePos(p, i), p.items[i].name)
  {
    hide *;
    ItemStands(buf, p, closing, i);
    EntryPieces(buf, p, i);
    InsideBuffer(buf, PayloadAt(p, i), p.items[i].data);
    InsideBuffer(buf, NamePos(p, i), p.items[i].name);
    NameFieldIs(p, i);
    IdInRange(p.items[i].id);
    EntryStored(buf, EntryPos(p, i), p.wide, p.items[i].id, PayloadAt(p, i), |p.items[i].data|, NameField(p, i), EntrySize(p));
    EntryWidth(p);
  }

  lemma NameFieldIs(p: Plan, i: nat)
    requires i < |p.items|
    ensures NameField(p, i) == if p.named then NamePos(p, i) else 0
  {
    hide NamePos;
  }

  lemma EntryWidth(p: Plan)
    ensures EntrySize(p) == if p.wide then 16 else 12
  {
  }

  lemma EntryStored(buf: bytes, pos: nat, wide: bool, id: int, at: nat, size: nat, name: nat, length: nat)
    requires At(buf, pos, Enc(false, id, 4)) && At(buf, pos + 4, Enc(false, at, 4)) && At(buf, pos + 8, Enc(false, size, 4))
    requires wide ==> At(buf, pos + 12, Enc(false, name, 4))
    requires -0x8000_0000 <= id < 0x8000_0000 && at < 0x8000_0000 && size < 0x8000_0000 && name < 0x8000_0000
    ensures pos + length <= |buf| && length == (if wide then 16 else 12) ==> EntryWords(buf, pos, wide, id, at, size, name)
  {
    hide At, Enc, I32, U32;
    Stored32(buf, pos, false, id);
    Stored32(buf, pos + 4, false, at);
    Stored32(buf, pos + 8, false, size);
    if wide {
      Stored32(buf, pos + 12, false, name);
    }
  }

  /** Payload `i` begins on the next multiple behind what is in front of it, with zeros between. */
  lemma PayloadPacked(buf: bytes, p: Plan, closing: nat, i: nat)
    requires ImageStands(buf, p, closing) && i < |p.items|
    ensures var before := if i == 0 then NamesEnd(p) else PayloadAt(p, i - 1) + |p.items[i - 1].data|;
      && PayloadAt(p, i) == Rounded(before, p.align) && PayloadAt(p, i) <= |buf|
      && forall k :: before <= k < PayloadAt(p, i) ==> buf[k] == 0
  {
    hide At, HeadStands, EntryRows, NameRows, DataRows, Flatten, NamesEnd, DataPos, DataEnd, Rounded, PayloadsEnd;
    ItemStands(buf, p, closing, i);
    NoData(p.items, p.align, NamesEnd(p));
    if i > 0 {
      DataStep(p.items, p.align, NamesEnd(p), i - 1);
    }
    var e := DataEnd(p.items, p.align, NamesEnd(p), i);
    DataIsPadded(p.items, p.align, NamesEnd(p), i);
    PadIsRounded(e, p.align);
    ZerosAt(buf, e, PayloadAt(p, i) - e);
  }

  lemma DataIsPadded(items: seq<Piece>, align: nat, base: nat, k: nat)
    requires k < |items|
    ensures DataPos(items, align, base, k) == PadUp(DataEnd(items, align, base, k), align)
  {
    hide DataEnd, PadUp;
  }
}
