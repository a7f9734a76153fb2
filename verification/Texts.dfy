/** Texts in foreign encodings: terminated or of fixed size, written and read back. */
module Texts {
  import opened Bytes
  import opened Reading
  import opened Labels

  /** A text encoding. Both directions may fail; nothing else is assumed about it. */
  datatype Codec = Codec(encode: bytes -> Result<bytes>, decode: bytes -> Result<bytes>)

  function TextOf(name: Option<bytes>): bytes {
    if name.Some? then name.value else []
  }

  function OrEmpty(r: Result<bytes>): bytes {
    if r.Ok? then r.value else []
  }

  function StoreText(c: Codec, wide: bool, text: bytes): Result<bytes> {
    var e :- c.encode(text);
    Ok(e + Terminator(wide))
  }

  /** A fixed-size text field: cut off or filled up with zero bytes. */
  function FixedText(s: bytes, size: nat): (t: bytes)
    ensures |t| == size
  {
    if |s| >= size then s[..size] else s + Fill(size - |s|, 0)
  }

  /** A fixed-size text field ends at its first zero byte. */
  function GetFixedText(c: Codec, buf: bytes, pos: nat, size: nat): Result<bytes> {
    var s :- Take(buf, pos, size);
    c.decode(s[..ZeroFrom(s, 0)])
  }

  /** A text comes back from the encoder: it can be encoded, the code contains no terminator,
      and decoding it gives the text again. */
  ghost predicate Encodable(c: Codec, wide: bool, text: bytes) {
    c.encode(text).Ok? && Unterminated(c.encode(text).value, wide) && c.decode(c.encode(text).value) == Ok(text)
  }

  lemma StoredOk(c: Codec, text: bytes)
    ensures StoreText(c, false, text).Ok? <==> c.encode(text).Ok?
    ensures c.encode(text).Err? ==> StoreText(c, false, text) == Err(c.encode(text).error)
  {
  }

  lemma StoredText(c: Codec, text: bytes)
    requires Encodable(c, false, text)
    ensures StoreText(c, false, text).Ok? && OrEmpty(StoreText(c, false, text)) == StoreText(c, false, text).value != []
  {
  }

  /** The encoding that leaves bytes as they are. */
  const PLAIN := Codec(s => Ok(s), s => Ok(s))

  /** Under it, exactly the texts without a terminator come back. */
  lemma PlainTexts(text: bytes, wide: bool)
    ensures Encodable(PLAIN, wide, text) <==> Unterminated(text, wide)
  {
  }

  /** A terminated text at an offset. */
  function GetText(c: Codec, wide: bool, buf: bytes, off: int): Result<bytes> {
    var p :- SeekTo(buf, off);
    var t :- Terminated(buf, p, wide);
    c.decode(t)
  }

  /** A text that stands where it was stored reads back. */
  lemma TextRead(c: Codec, wide: bool, buf: bytes, pos: nat, text: bytes)
    requires Encodable(c, wide, text) && At(buf, pos, StoreText(c, wide, text).value)
    ensures GetText(c, wide, buf, pos) == Ok(text)
  {
    hide At, Terminated;
    PlacedText(buf, pos, c.encode(text).value, wide);
  }

  /** ASCII bytes of a number, as printf's %d gives them. */
  function DecimalText(v: int): (s: bytes)
    ensures s != []
  {
    if v < 0 then [0x2D] + Ascii(Decimal(-v)) else Ascii(Decimal(v))
  }

  function Ascii(s: string): (t: bytes)
    ensures |t| == |s|
  {
    seq(|s|, i requires 0 <= i < |s| => s[i] as int % 256)
  }

  lemma FixedTextRead(c: Codec, buf: bytes, pos: nat, size: nat, text: bytes)
    requires Encodable(c, false, text) && |c.encode(text).value| <= size
    requires At(buf, pos, FixedText(c.encode(text).value, size))
    ensures GetFixedText(c, buf, pos, size) == Ok(text)
  {
    var e, s := c.encode(text).value, FixedText(c.encode(text).value, size);
    assert forall i :: 0 <= i < |e| ==> s[i] == e[i];
    var i := ZeroFrom(s, 0);
    assert i >= |e|;
    assert |e| < size ==> s[|e|] == 0;
    assert i == |e|;
    assert s[..|e|] == e;
  }

  method ReadText(rd: BinaryReader, c: Codec, wide: bool, off: int) returns (r: Result<bytes>)
    requires rd.Valid()
    modifies rd`pos
    ensures rd.Valid()
    ensures r == GetText(c, wide, rd.buf, off)
    ensures r.Ok? ==> rd.pos == old(rd.pos)
  {
    var t :- rd.GetTerminated(off, wide);
    r := c.decode(t);
  }

  method ReadFixedText(rd: BinaryReader, c: Codec, size: nat) returns (r: Result<bytes>)
    requires rd.Valid()
    modifies rd`pos
    ensures rd.Valid()
    ensures r == GetFixedText(c, rd.buf, old(rd.pos), size)
    ensures r.Ok? ==> rd.pos == old(rd.pos) + size
  {
    var s :- rd.ReadBytes(size);
    var term := 0;
    while term < size && s[term] != 0
      invariant term <= size && ZeroFrom(s, term) == ZeroFrom(s, 0)
    {
      term := term + 1;
    }
    r := c.decode(s[..term]);
  }
}
