/** The size estimate used to pre-grow the output buffer: an exact account of how it differs
    from the size that is written. */
module Bnd4Estimate {
  import opened Bytes
  import opened Format
  import opened Reading
  import opened Texts
  import opened Binder
  import opened PathHashing
  import opened HashTableCodec
  import opened Bnd4
  import opened Bnd4Writing
  import Bnd4RoundTrip
  import HashIndex
  import Words
  import Bnd4Words

  const SIZE_MAX: nat := 0xFFFF_FFFF_FFFF_FFFF

  function CharWidth(unicode: bool): nat { if unicode then 2 else 1 }

  /** What the estimate grants a name; a missing name gets nothing. */
  function NameAllowance(unicode: bool, f: BinderFile): nat {
    if f.name.None? then 0 else |f.name.value| * CharWidth(unicode) + CharWidth(unicode)
  }

  function NameAllowances(unicode: bool, files: seq<BinderFile>, k: nat): nat
    requires k <= |files|
  {
    if k == 0 then 0 else NameAllowances(unicode, files, k - 1) + NameAllowance(unicode, files[k - 1])
  }

  function PaddedSizes(files: seq<BinderFile>, k: nat): (n: nat)
    requires k <= |files|
    ensures n % 16 == 0
  {
    if k == 0 then 0
    else
      BothMultiples(PaddedSizes(files, k - 1), AlignUp(|files[k - 1].data|, 16));
      PaddedSizes(files, k - 1) + AlignUp(|files[k - 1].data|, 16)
  }

  lemma BothMultiples(m: nat, n: nat)
    requires m % 16 == 0 && n % 16 == 0
    ensures (m + n) % 16 == 0
  {
  }

  function TableAllowance(b: Archive, groups: nat): nat {
    if b.extended == HASHED then 24 + 8 * groups + 8 * |b.files| else 0
  }

  function FixedPart(b: Archive): nat {
    HEAD_SIZE + |b.files| * EntrySize(Geo(b))
  }

  /** The estimate, before it is capped. */
  function Estimate(b: Archive, groups: nat): nat {
    FixedPart(b) + NameAllowances(b.unicode, b.files, |b.files|) + TableAllowance(b, groups) + PaddedSizes(b.files, |b.files|)
  }

  function Capped(n: nat): nat { if n > SIZE_MAX then SIZE_MAX else n }

  /** The group count the index of an archive will have, where it has one. */
  ghost predicate GroupsFor(b: Archive, groups: nat) {
    b.extended == HASHED ==> LeastPrimeFrom(groups, SearchStart(|b.files|))
  }

  // ------------------------------------------------------------------ the estimate in machine words

  /** What is left of a size in 64 bits. */
  function Word(n: nat): (w: nat)
    ensures w <= SIZE_MAX && (n <= SIZE_MAX ==> w == n)
  {
    n % (SIZE_MAX + 1)
  }

  /** Entries are checked to fit by themselves; the header is added unchecked. */
  function FixedWord(b: Archive): nat {
    if |b.files| * EntrySize(Geo(b)) > SIZE_MAX then FixedPart(b) else Word(FixedPart(b))
  }

  /** Characters are checked to fit; the terminator is added unchecked. */
  function NameWord(unicode: bool, f: BinderFile): nat {
    if f.name.None? then 0
    else if |f.name.value| * CharWidth(unicode) > SIZE_MAX then NameAllowance(unicode, f)
    else Word(NameAllowance(unicode, f))
  }

  function NameWords(unicode: bool, files: seq<BinderFile>, k: nat): nat
    requires k <= |files|
  {
    if k == 0 then 0 else NameWords(unicode, files, k - 1) + NameWord(unicode, files[k - 1])
  }

  /** Rounding up adds unchecked. */
  function PaddedWord(size: nat): nat { Word(size + 15) / 16 * 16 }

  function PaddedWords(files: seq<BinderFile>, k: nat): nat
    requires k <= |files|
  {
    if k == 0 then 0 else PaddedWords(files, k - 1) + PaddedWord(|files[k - 1].data|)
  }

  function WordEstimate(b: Archive, groups: nat): nat {
    FixedWord(b) + NameWords(b.unicode, b.files, |b.files|) + Word(TableAllowance(b, groups)) + PaddedWords(b.files, |b.files|)
  }

  lemma SameEstimate(b: Archive, g: nat)
    requires GroupsFor(b, g)
    ensures forall groups :: GroupsFor(b, groups) ==> WordEstimate(b, groups) == WordEstimate(b, g)
  {
    hide LeastPrimeFrom, FixedWord, NameWords, PaddedWords;
    forall groups | GroupsFor(b, groups)
      ensures WordEstimate(b, groups) == WordEstimate(b, g)
    {
      if b.extended == HASHED {
        GroupCountUnique(groups, g, SearchStart(|b.files|));
      }
    }
  }

  /** Every quantity is taken in 64 bits, wrapped where the code does not look; their sum is capped. */
  method EstimateSize(b: Archive) returns (est: nat)
    ensures forall groups :: GroupsFor(b, groups) ==> est == Capped(WordEstimate(b, groups))
  {
    hide FixedPart, FixedWord, Word, LeastPrimeFrom, SearchStart, NameWords, PaddedWords, EntrySize;
    var g := 0;
    if b.extended == HASHED {
      g := GroupCount(|b.files|);
    }
    SameEstimate(b, g);
    SomeEntry(b);
    if |b.files| > SIZE_MAX / EntrySize(Geo(b)) {
      return SIZE_MAX;
    }
    var named := AddNames(b.unicode, b.files, Word(HEAD_SIZE + |b.files| * EntrySize(Geo(b))));
    if named.None? {
      return SIZE_MAX;
    }
    est := named.value;
    if b.extended == HASHED {
      var hashBlock := Word(24 + g * 8 + |b.files| * 8);
      if est > SIZE_MAX - hashBlock {
        return SIZE_MAX;
      }
      est := est + hashBlock;
    }
    var padded := AddPayloads(b.files, est);
    return if padded.None? then SIZE_MAX else padded.value;
  }

  /** Adds the names; nothing if that is too much. */
  method AddNames(unicode: bool, files: seq<BinderFile>, start: nat) returns (sum: Option<nat>)
    requires start <= SIZE_MAX
    ensures var all := start + NameWords(unicode, files, |files|); sum == if all > SIZE_MAX then None else Some(all)
  {
    hide Word, NameWords, NameWord;
    var est := start;
    WordsBegin(unicode, files);
    for i := 0 to |files|
      invariant est == start + NameWords(unicode, files, i) <= SIZE_MAX
    {
      WordsStep(unicode, files, i);
      NameWordsGrow(unicode, files, i + 1, |files|);
      NameWordIs(unicode, files[i]);
      if files[i].name.Some? {
        var length, width := |files[i].name.value|, CharWidth(unicode);
        if length > SIZE_MAX / width {
          return None;
        }
        var nameBytes := Word(length * width + width);
        if est > SIZE_MAX - nameBytes {
          return None;
        }
        est := est + nameBytes;
      }
    }
    return Some(est);
  }

  method AddPayloads(files: seq<BinderFile>, start: nat) returns (sum: Option<nat>)
    requires start <= SIZE_MAX
    ensures var all := start + PaddedWords(files, |files|); sum == if all > SIZE_MAX then None else Some(all)
  {
    hide PaddedWords, PaddedWord;
    var est := start;
    WordsBegin(false, files);
    for i := 0 to |files|
      invariant est == start + PaddedWords(files, i) <= SIZE_MAX
    {
      WordsStep(false, files, i);
      PaddedWordsGrow(files, i + 1, |files|);
      var padded := PaddedWord(|files[i].data|);
      PaddedWordFits(|files[i].data|);
      if est > SIZE_MAX - padded {
        return None;
      }
      est := est + padded;
    }
    return Some(est);
  }

  /** Checking before multiplying is checking the product. */
  lemma Guard(count: nat, size: nat)
    requires size > 0
    ensures count > SIZE_MAX / size <==> count * size > SIZE_MAX
  {
    var q := SIZE_MAX / size;
    assert q * size <= SIZE_MAX < (q + 1) * size;
    if count > q {
      Times(q + 1, count, size);
    } else {
      Times(count, q, size);
    }
  }

  lemma Times(m: nat, n: nat, size: nat)
    requires m <= n
    ensures m * size <= n * size
  {
  }

  lemma SomeEntry(b: Archive)
    ensures EntrySize(Geo(b)) > 0
    ensures FixedWord(b) == if |b.files| > SIZE_MAX / EntrySize(Geo(b)) then FixedPart(b) else Word(HEAD_SIZE + |b.files| * EntrySize(Geo(b)))
    ensures |b.files| > SIZE_MAX / EntrySize(Geo(b)) ==> FixedPart(b) > SIZE_MAX
  {
    hide Word;
    Guard(|b.files|, EntrySize(Geo(b)));
  }

  lemma NameWordIs(unicode: bool, f: BinderFile)
    ensures f.name.None? ==> NameWord(unicode, f) == 0
    ensures f.name.Some? ==>
      var length, width := |f.name.value|, CharWidth(unicode);
      if length > SIZE_MAX / width then NameWord(unicode, f) > SIZE_MAX
      else NameWord(unicode, f) == Word(length * width + width)
  {
    if f.name.Some? {
      Guard(|f.name.value|, CharWidth(unicode));
    }
  }

  lemma PaddedWordFits(size: nat)
    ensures PaddedWord(size) <= SIZE_MAX
  {
  }

  lemma WordsBegin(unicode: bool, files: seq<BinderFile>)
    ensures NameWords(unicode, files, 0) == 0 && PaddedWords(files, 0) == 0
  {
  }

  lemma WordsStep(unicode: bool, files: seq<BinderFile>, i: nat)
    requires i < |files|
    ensures NameWords(unicode, files, i + 1) == NameWords(unicode, files, i) + NameWord(unicode, files[i])
    ensures PaddedWords(files, i + 1) == PaddedWords(files, i) + PaddedWord(|files[i].data|)
  {
  }

  lemma {:induction false} NameWordsGrow(unicode: bool, files: seq<BinderFile>, i: nat, j: nat)
    requires i <= j <= |files|
    ensures NameWords(unicode, files, i) <= NameWords(unicode, files, j)
    decreases j
  {
    if i < j {
      NameWordsGrow(unicode, files, i, j - 1);
    }
  }

  lemma {:induction false} PaddedWordsGrow(files: seq<BinderFile>, i: nat, j: nat)
    requires i <= j <= |files|
    ensures PaddedWords(files, i) <= PaddedWords(files, j)
    decreases j
  {
    if i < j {
      PaddedWordsGrow(files, i, j - 1);
    }
  }

  // ------------------------------------------------------------------ wrapping

  /** No sum that the code leaves unchecked exceeds 64 bits. */
  ghost predicate NothingWraps(b: Archive, groups: nat) {
    && (FixedPart(b) <= SIZE_MAX || |b.files| * EntrySize(Geo(b)) > SIZE_MAX)
    && TableAllowance(b, groups) <= SIZE_MAX
    && forall i :: 0 <= i < |b.files| ==> NameFitsWord(b.unicode, b.files[i]) && |b.files[i].data| + 15 <= SIZE_MAX
  }

  ghost predicate NameFitsWord(unicode: bool, f: BinderFile) {
    f.name.Some? ==> NameAllowance(unicode, f) <= SIZE_MAX || |f.name.value| * CharWidth(unicode) > SIZE_MAX
  }

  lemma WordBelow(n: nat)
    ensures Word(n) <= n && (Word(n) == n <==> n <= SIZE_MAX)
  {
  }

  lemma NameWordBelow(unicode: bool, f: BinderFile)
    ensures NameWord(unicode, f) <= NameAllowance(unicode, f)
    ensures NameWord(unicode, f) == NameAllowance(unicode, f) <==> NameFitsWord(unicode, f)
    ensures !NameFitsWord(unicode, f) ==> NameAllowance(unicode, f) > SIZE_MAX
  {
    hide Word;
    WordBelow(NameAllowance(unicode, f));
  }

  lemma PaddedWordBelow(size: nat)
    ensures PaddedWord(size) <= AlignUp(size, 16)
    ensures PaddedWord(size) == AlignUp(size, 16) <==> size + 15 <= SIZE_MAX
    ensures size + 15 > SIZE_MAX ==> AlignUp(size, 16) > SIZE_MAX
  {
    assert AlignUp(size, 16) == (size + 15) / 16 * 16;
  }

  lemma {:induction false} WordSums(b: Archive, k: nat)
    requires k <= |b.files|
    ensures var wraps := exists i :: 0 <= i < k && !(NameFitsWord(b.unicode, b.files[i]) && |b.files[i].data| + 15 <= SIZE_MAX);
      var words := NameWords(b.unicode, b.files, k) + PaddedWords(b.files, k);
      var sizes := NameAllowances(b.unicode, b.files, k) + PaddedSizes(b.files, k);
      if wraps then words < sizes && sizes > SIZE_MAX else words == sizes
  {
    hide NameWord, NameAllowance, NameFitsWord, PaddedWord, AlignUp;
    if k > 0 {
      WordSums(b, k - 1);
      NameWordBelow(b.unicode, b.files[k - 1]);
      PaddedWordBelow(|b.files[k - 1].data|);
    }
  }

  /** The words add up to the capped estimate exactly when nothing wraps or there is too much anyway. */
  lemma WordsExact(b: Archive, groups: nat)
    ensures Capped(WordEstimate(b, groups)) == Capped(Estimate(b, groups))
       <==> NothingWraps(b, groups) || WordEstimate(b, groups) >= SIZE_MAX
  {
    hide NameFitsWord, NameWords, PaddedWords, NameAllowances, PaddedSizes, EntrySize, Word;
    WordSums(b, |b.files|);
    WordBelow(FixedPart(b));
    WordBelow(TableAllowance(b, groups));
  }

  /** A file with as many bytes as there are addresses is estimated at nothing. */
  lemma EstimateWraps(data: bytes)
    requires |data| == SIZE_MAX
    ensures var b := OneFile(data); Capped(WordEstimate(b, 0)) == 97 && Capped(Estimate(b, 0)) == SIZE_MAX
  {
    hide AlignUp;
    var b := OneFile(data);
    assert EntrySize(Geo(b)) == 32;
    PaddedWordBelow(|data|);
    WordsBegin(b.unicode, b.files);
    WordsStep(b.unicode, b.files, 0);
    SumsBegin(b);
    SumsStep(b, 0);
  }

  // ------------------------------------------------------------------ sums

  lemma SumsBegin(b: Archive)
    ensures NameAllowances(b.unicode, b.files, 0) == 0 && PaddedSizes(b.files, 0) == 0
  {
  }

  lemma SumsStep(b: Archive, i: nat)
    requires i < |b.files|
    ensures NameAllowances(b.unicode, b.files, i + 1) == NameAllowances(b.unicode, b.files, i) + NameAllowance(b.unicode, b.files[i])
    ensures PaddedSizes(b.files, i + 1) == PaddedSizes(b.files, i) + AlignUp(|b.files[i].data|, 16)
  {
  }

  // ------------------------------------------------------------------ the written size

  /** Zero bytes saved behind the last payload that is not empty; None when all are empty. */
  function TailPad(files: seq<BinderFile>, k: nat): (r: Option<nat>)
    requires k <= |files|
    ensures r.Some? ==> r.value < 16
  {
    if k == 0 then None
    else if |files[k - 1].data| > 0 then Some(AlignUp(|files[k - 1].data|, 16) - |files[k - 1].data|)
    else TailPad(files, k - 1)
  }

  lemma MultipleAlignUp(m: nat, n: nat)
    requires m % 16 == 0
    ensures AlignUp(m, 16) == m
    ensures n <= m && m < n + 16 ==> AlignUp(n, 16) == m
  {
  }

  /** Where the payloads end: the padded sizes behind the aligned start, less the last tail. */
  lemma {:induction false} DataEndExact(files: seq<BinderFile>, stored: seq<StoredFile>, base: nat, k: nat)
    requires k <= |files| == |stored|
    requires forall i :: 0 <= i < |files| ==> stored[i].size == |stored[i].payload| == |files[i].data|
    ensures DataEnd(stored, base, k)
         == match TailPad(files, k)
            case None => base
            case Some(t) => AlignUp(base, 16) + PaddedSizes(files, k) - t
    ensures TailPad(files, k).None? ==> PaddedSizes(files, k) == 0
  {
    hide AlignUp, DataEnd, DataPos, PaddedSizes, TailPad;
    if k == 0 {
      DataEndBegins(files, stored, base);
    } else {
      DataEndExact(files, stored, base, k - 1);
      DataEndNext(files, stored, base, k - 1);
      var size := |files[k - 1].data|;
      if size > 0 && TailPad(files, k - 1).Some? {
        MultipleAlignUp(AlignUp(base, 16) + PaddedSizes(files, k - 1), DataEnd(stored, base, k - 1));
      }
    }
  }

  lemma DataEndBegins(files: seq<BinderFile>, stored: seq<StoredFile>, base: nat)
    ensures DataEnd(stored, base, 0) == base && TailPad(files, 0) == None && PaddedSizes(files, 0) == 0
  {
  }

  lemma DataEndNext(files: seq<BinderFile>, stored: seq<StoredFile>, base: nat, k: nat)
    requires k < |files| == |stored|
    requires stored[k].size == |stored[k].payload| == |files[k].data|
    ensures var size, e := |files[k].data|, DataEnd(stored, base, k);
      && DataEnd(stored, base, k + 1) == (if size > 0 then AlignUp(e, 16) else e) + size
      && PaddedSizes(files, k + 1) == PaddedSizes(files, k) + (if size > 0 then AlignUp(size, 16) else 0)
      && TailPad(files, k + 1) == if size > 0 then Some(AlignUp(size, 16) - size) else TailPad(files, k)
  {
    MultipleAlignUp(0, 0);
  }

  /** Zero bytes in front of the first payload that is not empty. */
  function LeadPad(p: Plan, files: seq<BinderFile>): (n: nat)
    ensures n < 16
  {
    if TailPad(files, |files|).None? then 0 else AlignUp(HeadersEnd(p), 16) - HeadersEnd(p)
  }

  function TailSaved(files: seq<BinderFile>): (n: nat)
    ensures n < 16
  {
    if TailPad(files, |files|).None? then 0 else TailPad(files, |files|).value
  }

  /** What the estimate grants the names beyond what they take up. */
  function NameSlack(p: Plan, b: Archive): int
    requires |p.files| == |b.files|
  {
    NameAllowances(b.unicode, b.files, |b.files|) - |NameTable(p.files, |p.files|)|
  }

  /** The table's allowance exceeds the table and the padding in front of it by 1 to 8 bytes. */
  function TableSlack(p: Plan): (n: int)
    ensures if p.extended == HASHED then 1 <= n <= 8 else n == 0
  {
    if p.extended == HASHED then 8 - (TableAt(p) - NamesEnd(p)) else 0
  }

  ghost predicate Uncompressed(b: Archive) {
    forall i :: 0 <= i < |b.files| ==> !IsCompressed(b.files[i].flags)
  }

  /** The written size, to the byte. */
  lemma WrittenSize(env: Env, b: Archive, p: Plan)
    requires p == PlanOf(env, b, p.groups, p.order) && |p.order| == |b.files| && Uncompressed(b)
    ensures |Image(p)| == Estimate(b, p.groups) + LeadPad(p, b.files) - NameSlack(p, b) - TableSlack(p) - TailSaved(b.files)
  {
    hide Image, EntrySize, StoreAll, Hashes, FixedText, NameTable, EntryTable, DataTable, AlignUp, EntryPos, NamePos, DataEnd, DataPos,
      NameAllowances, PaddedSizes, TailPad, At, TableBytes, HeadFlags, HeadSizes, HeadOffsets;
    Bnd4RoundTrip.VersionSize(env, b, p);
    ImagePieces(p);
    EntriesMultiply(p.geo, HEAD_SIZE, |b.files|);
    TableSizes(p.geo, p.files, NameBase(p), HeadersEnd(p), HEAD_SIZE, |b.files|);
    PlainFiles(env, b, p);
    DataEndExact(b.files, p.files, HeadersEnd(p), |b.files|);
  }

  lemma PlainFiles(env: Env, b: Archive, p: Plan)
    requires p == PlanOf(env, b, p.groups, p.order) && Uncompressed(b)
    ensures |p.files| == |b.files|
    ensures forall i :: 0 <= i < |b.files| ==> p.files[i].size == |p.files[i].payload| == |b.files[i].data|
  {
    hide Hashes, FixedText, StoreName;
  }

  /** The estimate is an upper bound exactly when the padding in front of the first payload is made
      up for by what it grants names and table too much and by the padding not written at the end. */
  lemma EstimateSuffices(env: Env, b: Archive, p: Plan)
    requires p == PlanOf(env, b, p.groups, p.order) && |p.order| == |b.files| && Uncompressed(b)
    ensures |Image(p)| <= Estimate(b, p.groups) <==> LeadPad(p, b.files) <= NameSlack(p, b) + TableSlack(p) + TailSaved(b.files)
    ensures NothingWraps(b, p.groups) && |Image(p)| <= SIZE_MAX ==>
      (|Image(p)| <= Capped(WordEstimate(b, p.groups)) <==> |Image(p)| <= Estimate(b, p.groups))
  {
    hide Image, Estimate, LeadPad, NameSlack, TableSlack, TailSaved, NothingWraps, WordEstimate;
    WrittenSize(env, b, p);
    WordsExact(b, p.groups);
  }

  /** The assumption behind the name allowance: no missing names, and no more bytes per character. */
  ghost predicate NamesWithinAllowance(env: Env, b: Archive) {
    forall i :: 0 <= i < |b.files| ==>
      && b.files[i].name.Some?
      && |OrEmpty(CodecOf(env, b).encode(b.files[i].name.value))| <= |b.files[i].name.value| * CharWidth(b.unicode)
  }

  lemma {:induction false} NamesFit(env: Env, b: Archive, p: Plan, k: nat)
    requires p == PlanOf(env, b, p.groups, p.order) && NamesWithinAllowance(env, b) && k <= |b.files| == |p.files|
    ensures |NameTable(p.files, k)| <= NameAllowances(b.unicode, b.files, k)
  {
    hide Hashes, FixedText, CodecOf, StoreName, NameAllowance, StoreAll, PlanOf, NamesWithinAllowance;
    if k > 0 {
      NamesFit(env, b, p, k - 1);
      NameFits(env, b, p, k - 1);
    }
  }

  lemma NameFits(env: Env, b: Archive, p: Plan, i: nat)
    requires p == PlanOf(env, b, p.groups, p.order) && NamesWithinAllowance(env, b) && i < |b.files| == |p.files|
    ensures |p.files[i].name| <= NameAllowance(b.unicode, b.files[i])
  {
    hide Hashes, FixedText, CodecOf;
    assert p.files[i].name == OrEmpty(StoreName(CodecOf(env, b), b.unicode, b.format, b.files[i]));
  }

  /** Under that assumption the estimate is never more than 15 bytes short. */
  lemma EstimateNearlySuffices(env: Env, b: Archive, p: Plan)
    requires p == PlanOf(env, b, p.groups, p.order) && |p.order| == |b.files| && Uncompressed(b) && NamesWithinAllowance(env, b)
    ensures |Image(p)| <= Estimate(b, p.groups) + 15
  {
    hide Image, Estimate, NamesWithinAllowance, StoreAll, Hashes, FixedText, NameTable, NameAllowances, TailPad;
    PlainFiles(env, b, p);
    WrittenSize(env, b, p);
    NamesFit(env, b, p, |b.files|);
  }

  /** One named file of 16 bytes is already written larger than estimated, with any encoder that
      renders the empty name as nothing. */
  lemma EstimateTooSmall(env: Env, data: bytes)
    requires env.sjis.encode([]) == Ok([]) && |data| == 16
    ensures var b := OneFile(data);
            var p := PlanOf(env, b, 0, [HashIndex.Entry(0, 0)]);
            |Image(p)| == 128 && Estimate(b, 0) == 113
  {
    var b := OneFile(data);
    var p := PlanOf(env, b, 0, [HashIndex.Entry(0, 0)]);
    assert EntrySize(Geo(b)) == 32;
    assert Estimate(b, 0) == 113 by {
      SumsBegin(b);
      SumsStep(b, 0);
    }
    OneFileSlacks(env, b, p, data);
    WrittenSize(env, b, p);
  }

  function OneFile(data: bytes): Archive {
    Archive(None, NAMES1_ONLY, false, false, false, false, false, 0, [BinderFile(0, Some([]), data, 0, ZLIB)])
  }

  lemma OneFileSlacks(env: Env, b: Archive, p: Plan, data: bytes)
    requires env.sjis.encode([]) == Ok([]) && |data| == 16
    requires b == OneFile(data) && p == PlanOf(env, b, 0, [HashIndex.Entry(0, 0)])
    ensures NameSlack(p, b) == 0 && TableSlack(p) == 0 && TailSaved(b.files) == 0 && LeadPad(p, b.files) == 15
  {
    assert TailPad(b.files, 1) == Some(0);
    var f := p.files[0];
    assert f.name == [0];
    assert NameTable(p.files, 0) == [] && NameTable(p.files, 1) == [0];
    SumsBegin(b);
    SumsStep(b, 0);
    assert EntryPos(p.geo, HEAD_SIZE, 0) == HEAD_SIZE && EntryPos(p.geo, HEAD_SIZE, 1) == HEAD_SIZE + 32;
    assert NamePos(p.files, 96, 0) == 96 && NamePos(p.files, 96, 1) == 97;
  }

  // ------------------------------------------------------------------ spelled out

  function Total(s: seq<nat>): nat {
    if s == [] then 0 else Total(s[..|s| - 1]) + s[|s| - 1]
  }

  /** What a name is granted: two bytes per character and two more in Unicode archives, otherwise one. */
  function NameRoom(b: Archive, f: BinderFile): nat {
    if f.name.None? then 0 else if b.unicode then 2 * |f.name.value| + 2 else |f.name.value| + 1
  }

  lemma {:induction false} SumsSpelled(b: Archive, names: seq<nat>, payloads: seq<nat>, k: nat)
    requires |names| == |payloads| == |b.files| && k <= |b.files|
    requires forall i :: 0 <= i < |b.files| ==> names[i] == NameRoom(b, b.files[i]) && payloads[i] == (|b.files[i].data| + 15) / 16 * 16
    ensures NameAllowances(b.unicode, b.files, k) == Total(names[..k]) && PaddedSizes(b.files, k) == Total(payloads[..k])
  {
    hide AlignUp;
    if k > 0 {
      SumsSpelled(b, names, payloads, k - 1);
      assert names[..k][..k - 1] == names[..k - 1] && payloads[..k][..k - 1] == payloads[..k - 1];
      Words.RoundsUp(|b.files[k - 1].data|, 16);
    }
  }

  /** The estimate: 64 bytes of head, the entries, the names, with an index 24 bytes and eight for every
      group and every file, and the payloads rounded up to 16. */
  lemma EstimateSpelled(b: Archive, groups: nat, names: seq<nat>, payloads: seq<nat>)
    requires |names| == |payloads| == |b.files|
    requires forall i :: 0 <= i < |b.files| ==> names[i] == NameRoom(b, b.files[i]) && payloads[i] == (|b.files[i].data| + 15) / 16 * 16
    ensures Estimate(b, groups)
         == 64 + |b.files| * Bnd4Words.EntryLength(b.format) + Total(names) + Total(payloads)
            + if b.extended == 4 then 24 + 8 * groups + 8 * |b.files| else 0
  {
    hide Bnd4Words.EntryLength, EntrySize, NameAllowances, PaddedSizes, Total, NameRoom;
    SumsSpelled(b, names, payloads, |b.files|);
    assert names[..|names|] == names && payloads[..|payloads|] == payloads;
    Bnd4Words.LengthIs(Geo(b));
  }
}
