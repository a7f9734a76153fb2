/** The textual names under which the archive writers reserve header fields, and the fact that
    no two different reservations of one archive can ever share a name. */
module Labels {

  /** The prefixes used by the BND, BND2, BND3 and BND4 writers. */
  datatype Field =
    | FileCompressedSize | FileUncompressedSize | FileDataOffset | FileNameOffset
    | HeadersEnd | HashTableOffset | HashesOffset | FileHeadersEnd
    | ItemOffset | ItemSize | ItemName | ItemData
    | TotalSize | BaseDirOffset | RootFilePath

  /** A reservation that occurs once per archive, or once per file entry. */
  datatype Label = Whole(field: Field) | Item(field: Field, index: nat)

  function Prefix(f: Field): (s: string)
    ensures s != [] && !IsDigit(s[|s| - 1])
  {
    match f
    case FileCompressedSize => "FileCompressedSize"
    case FileUncompressedSize => "FileUncompressedSize"
    case FileDataOffset => "FileDataOffset"
    case FileNameOffset => "FileNameOffset"
    case HeadersEnd => "HeadersEnd"
    case HashTableOffset => "HashTableOffset"
    case HashesOffset => "HashesOffset"
    case FileHeadersEnd => "FileHeadersEnd"
    case ItemOffset => "fileOffset_"
    case ItemSize => "fileSize_"
    case ItemName => "nameOffset_"
    case ItemData => "dataOffset_"
    case TotalSize => "fileSize"
    case BaseDirOffset => "baseDirOffset"
    case RootFilePath => "rootFilePath"
  }

  predicate IsDigit(c: char) {
    '0' <= c <= '9'
  }

  function Digit(d: nat): (c: char)
    requires d < 10
    ensures IsDigit(c) && c as int - '0' as int == d
  {
    '0' + d as char
  }

  /** Decimal rendering, as printf's %zu and %d give it for a non-negative number. */
  function Decimal(n: nat): (s: string)
    ensures s != [] && forall i :: 0 <= i < |s| ==> IsDigit(s[i])
  {
    if n < 10 then [Digit(n)] else Decimal(n / 10) + [Digit(n % 10)]
  }

  function LabelName(l: Label): string {
    match l
    case Whole(f) => Prefix(f)
    case Item(f, i) => Prefix(f) + Decimal(i)
  }

  lemma {:induction false} DecimalInjective(m: nat, n: nat)
    requires Decimal(m) == Decimal(n)
    ensures m == n
  {
    var s, t := Decimal(m), Decimal(n);
    assert s[|s| - 1] == Digit(m % 10) && t[|t| - 1] == Digit(n % 10);
    if m >= 10 && n >= 10 {
      assert s[..|s| - 1] == Decimal(m / 10) && t[..|t| - 1] == Decimal(n / 10);
      DecimalInjective(m / 10, n / 10);
    }
  }

  lemma PrefixInjective(f: Field, g: Field)
    requires Prefix(f) == Prefix(g)
    ensures f == g
  {
    assert |Prefix(f)| == |Prefix(g)| && Prefix(f)[0] == Prefix(g)[0] && Prefix(f)[4] == Prefix(g)[4];
  }

  /** Stripping the trailing digits recovers both halves of a name. */
  lemma SplitUnique(p: string, d: string, q: string, e: string)
    requires p + d == q + e
    requires p != [] && !IsDigit(p[|p| - 1]) && q != [] && !IsDigit(q[|q| - 1])
    requires forall i :: 0 <= i < |d| ==> IsDigit(d[i])
    requires forall i :: 0 <= i < |e| ==> IsDigit(e[i])
    ensures p == q && d == e
  {
    var s := p + d;
    assert q[|q| - 1] == s[|q| - 1] && p[|p| - 1] == (q + e)[|p| - 1];
    assert p == s[..|p|] && q == s[..|q|];
    assert d == s[|p|..] && e == s[|q|..];
  }

  /** Two reservations with the same name are the same reservation. */
  lemma LabelNameInjective(l: Label, m: Label)
    requires LabelName(l) == LabelName(m)
    ensures l == m
  {
    var d := if l.Whole? then "" else Decimal(l.index);
    var e := if m.Whole? then "" else Decimal(m.index);
    assert LabelName(l) == Prefix(l.field) + d && LabelName(m) == Prefix(m.field) + e;
    SplitUnique(Prefix(l.field), d, Prefix(m.field), e);
    PrefixInjective(l.field, m.field);
    if l.Item? && m.Item? {
      DecimalInjective(l.index, m.index);
    }
  }
}
