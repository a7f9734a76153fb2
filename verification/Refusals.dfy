/** Which error a reader comes to: the first of several, and the errors of texts at an offset. */
module Refusals {
  import opened Bytes
  import opened Reading
  import opened Words
  import opened Texts

  function ErrorOf<T>(r: Result<T>): Option<Error> {
    if r.Err? then Some(r.error) else None
  }

  // ------------------------------------------------------------------ the first error

  ghost predicate Earliest(errors: seq<Option<Error>>, i: nat) {
    i < |errors| && errors[i].Some? && forall j :: 0 <= j < i ==> errors[j].None?
  }

  /** Of the errors of several steps, the first. */
  ghost function FirstOf(errors: seq<Option<Error>>): Option<Error> {
    if exists i: nat :: Earliest(errors, i) then
      var i: nat :| Earliest(errors, i);
      errors[i]
    else None
  }

  lemma FirstIs(errors: seq<Option<Error>>, i: nat)
    requires Earliest(errors, i)
    ensures FirstOf(errors) == errors[i]
  {
    var k: nat :| Earliest(errors, k) && FirstOf(errors) == errors[k];
    OnlyEarliest(errors, i, k);
  }

  lemma OnlyEarliest(errors: seq<Option<Error>>, i: nat, k: nat)
    requires Earliest(errors, i) && Earliest(errors, k)
    ensures i == k
  {
  }

  lemma {:induction false} SomeEarliest(errors: seq<Option<Error>>, n: nat)
    requires n <= |errors|
    ensures (forall i :: 0 <= i < n ==> errors[i].None?) || exists i: nat :: i < n && Earliest(errors, i)
  {
    if n > 0 {
      SomeEarliest(errors, n - 1);
      if forall i :: 0 <= i < n - 1 ==> errors[i].None? {
        assert errors[n - 1].Some? ==> Earliest(errors, n - 1);
      }
    }
  }

  /** There is none exactly if no step has one. */
  lemma FirstNone(errors: seq<Option<Error>>)
    ensures FirstOf(errors).None? <==> forall i :: 0 <= i < |errors| ==> errors[i].None?
  {
    SomeEarliest(errors, |errors|);
  }

  lemma FirstStep(errors: seq<Option<Error>>, last: Option<Error>)
    ensures FirstOf(errors + [last]) == if FirstOf(errors).Some? then FirstOf(errors) else last
  {
    hide FirstOf;
    var all := errors + [last];
    FirstNone(errors);
    FirstNone(all);
    SomeEarliest(errors, |errors|);
    if i: nat :| Earliest(errors, i) {
      FirstIs(errors, i);
      assert Earliest(all, i);
      FirstIs(all, i);
    } else if last.Some? {
      assert Earliest(all, |errors|);
      FirstIs(all, |errors|);
    }
  }

  /** First come all entries, then all payloads. */
  ghost function BodyError(entries: seq<Option<Error>>, payloads: seq<Option<Error>>): Option<Error> {
    if FirstOf(entries).Some? then FirstOf(entries) else FirstOf(payloads)
  }

  // ------------------------------------------------------------------ texts

  ghost predicate TextStands(buf: bytes, at: nat, wide: bool, s: bytes) {
    if wide then WideText(buf, at, s) else NarrowText(buf, at, s)
  }

  /** A text at an offset that lies in front of the buffer or behind it, has no end, or cannot be decoded. */
  ghost function TextError(decode: bytes -> Result<bytes>, wide: bool, buf: bytes, at: int): Option<Error> {
    if at < 0 then Some(InvalidArg)
    else if at > |buf| then Some(OutOfRange)
    else if exists s :: TextStands(buf, at, wide, s) then
      var s :| TextStands(buf, at, wide, s);
      ErrorOf(decode(s))
    else Some(Truncated)
  }

  lemma TextRefused(c: Codec, wide: bool, buf: bytes, at: int)
    ensures ErrorOf(GetText(c, wide, buf, at)) == TextError(c.decode, wide, buf, at)
  {
    hide Terminated, NarrowText, WideText;
    if 0 <= at <= |buf| {
      forall s: bytes
        ensures Terminated(buf, at, wide) == Ok(s) <==> TextStands(buf, at, wide, s)
      {
        ReadNarrow(buf, at, s);
        ReadWide(buf, at, s);
      }
      NotTerminated(buf, at, wide);
    }
  }

  lemma NotTerminated(buf: bytes, at: nat, wide: bool)
    requires at <= |buf|
    ensures var r := Terminated(buf, at, wide); r.Err? ==> r.error == Truncated
  {
  }

  /** A text in a field that the buffer does not hold, or that cannot be decoded. */
  ghost function FieldError(decode: bytes -> Result<bytes>, buf: bytes, pos: nat, size: nat): Option<Error> {
    if exists s :: FieldText(buf, pos, size, s) then
      var s :| FieldText(buf, pos, size, s);
      ErrorOf(decode(s))
    else Some(Truncated)
  }

  lemma FieldRefused(c: Codec, buf: bytes, pos: nat, size: nat)
    ensures ErrorOf(GetFixedText(c, buf, pos, size)) == FieldError(c.decode, buf, pos, size)
  {
    if pos + size <= |buf| {
      var t := buf[pos..pos + size];
      forall s: bytes
        ensures t[..ZeroFrom(t, 0)] == s <==> FieldText(buf, pos, size, s)
      {
        ReadField(buf, pos, size, s);
      }
      assert FieldText(buf, pos, size, t[..ZeroFrom(t, 0)]);
    }
  }

  // ------------------------------------------------------------------ payloads

  /** A payload in front of the buffer, behind it, or longer than it; one without a byte may be anywhere. */
  function DataError(buf: bytes, at: int, size: nat): Option<Error> {
    if size == 0 then None
    else if at < 0 then Some(InvalidArg)
    else if at > |buf| then Some(OutOfRange)
    else if at + size > |buf| then Some(Truncated)
    else None
  }
}
