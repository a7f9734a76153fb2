/** The path hash of the lookup tables, the prime test, and the choice of the group count. */
module PathHashing {
  import opened Bytes

  // ------------------------------------------------------------------ path hash

  const SLASH: byte := 0x2F
  const BACKSLASH: byte := 0x5C

  /** ASCII lower case, then backslash to slash. */
  function Fold(c: byte): byte {
    var l := if 0x41 <= c <= 0x5A then c + 0x20 else c;
    if l == BACKSLASH then SLASH else l
  }

  /** The path in the form that is hashed: folded, with a leading slash. */
  function Canonical(path: bytes): (s: bytes)
    ensures s != [] && s[0] == SLASH
  {
    var folded := seq(|path|, i requires 0 <= i < |path| => Fold(path[i]));
    if |path| > 0 && (path[0] == SLASH || path[0] == BACKSLASH) then folded else [SLASH] + folded
  }

  function Mix(h: nat, c: byte): (h': nat)
    ensures h' < 0x1_0000_0000
  {
    (h * 37 + c) % 0x1_0000_0000
  }

  /** Base-37 polynomial in 32-bit arithmetic. */
  function Poly37(s: bytes): (h: nat)
    ensures h < 0x1_0000_0000
  {
    if |s| == 0 then 0 else Mix(Poly37(s[..|s| - 1]), s[|s| - 1])
  }

  function PathHash(path: bytes): (h: nat)
    ensures h < 0x1_0000_0000
  {
    Poly37(Canonical(path))
  }

  lemma Poly37Step(s: bytes, k: nat)
    requires k < |s|
    ensures Poly37(s[..k + 1]) == Mix(Poly37(s[..k]), s[k])
  {
    assert s[..k + 1][..k] == s[..k];
  }

  lemma CanonicalShape(path: bytes)
    ensures var c, lead := Canonical(path), |Canonical(path)| - |path|;
      && lead == (if |path| > 0 && (path[0] == SLASH || path[0] == BACKSLASH) then 0 else 1)
      && (forall i :: 0 <= i < |path| ==> c[lead + i] == Fold(path[i]))
      && Poly37(c[..0]) == 0
  {
    hide Fold;
    var folded := seq(|path|, i requires 0 <= i < |path| => Fold(path[i]));
    if |path| > 0 && (path[0] == SLASH || path[0] == BACKSLASH) {
      assert Canonical(path) == folded;
    } else {
      assert Canonical(path) == [SLASH] + folded;
    }
  }

  // What the hash is, apart from how it is computed.

  function Power37(n: nat): nat {
    if n == 0 then 1 else 37 * Power37(n - 1)
  }

  /** The first byte times the highest power of 37, and so on down to the last byte by itself. */
  function Sum37(s: bytes): nat {
    if s == [] then 0 else Power37(|s| - 1) * s[0] + Sum37(s[1..])
  }

  /** The bytes that are hashed: capitals as small letters, 0x5C as 0x2F, and 0x2F in front unless the path
      begins with one of the two. */
  ghost predicate Spelling(path: bytes, s: bytes) {
    var lead := if path != [] && (path[0] == 0x2F || path[0] == 0x5C) then 0 else 1;
    && |s| == lead + |path| && (lead == 1 ==> s[0] == 0x2F)
    && forall i :: 0 <= i < |path| ==>
         s[lead + i] == if 0x41 <= path[i] <= 0x5A then path[i] + 0x20 else if path[i] == 0x5C then 0x2F else path[i]
  }

  lemma {:induction false} SumSnoc(s: bytes, c: byte)
    ensures Sum37(s + [c]) == 37 * Sum37(s) + c
  {
    if s == [] {
      assert Power37(0) == 1;
      assert ([] + [c])[1..] == [];
    } else {
      SumSnoc(s[1..], c);
      assert (s + [c])[1..] == s[1..] + [c];
      Scaled(Power37(|s| - 1), s[0]);
    }
  }

  lemma Scaled(p: nat, c: nat)
    ensures (37 * p) * c == 37 * (p * c)
  {
  }

  lemma Reduced(h: nat, c: nat)
    ensures (h % 0x1_0000_0000 * 37 + c) % 0x1_0000_0000 == (h * 37 + c) % 0x1_0000_0000
  {
  }

  lemma {:induction false} PolyIsSum(s: bytes)
    ensures Poly37(s) == Sum37(s) % 0x1_0000_0000
  {
    if s != [] {
      var init, c := s[..|s| - 1], s[|s| - 1];
      PolyIsSum(init);
      assert s == init + [c];
      SumSnoc(init, c);
      Reduced(Sum37(init), c);
    }
  }

  /** The hash is the sum over the spelling of the path, in 32 bits. */
  lemma PathHashIs(path: bytes)
    ensures Spelling(path, Canonical(path)) && PathHash(path) == Sum37(Canonical(path)) % 0x1_0000_0000
  {
    hide Canonical;
    CanonicalShape(path);
    PolyIsSum(Canonical(path));
  }

  /** There is one spelling. */
  lemma OneSpelling(path: bytes, s: bytes, t: bytes)
    requires Spelling(path, s) && Spelling(path, t)
    ensures s == t
  {
    var lead := |s| - |path|;
    forall k | 0 <= k < |s|
      ensures s[k] == t[k]
    {
      if k >= lead {
        var c := path[k - lead];
        assert s[lead + (k - lead)] == t[lead + (k - lead)];
      }
    }
  }

  /** The path "a", with or without its slash, in small letters or capitals. */
  lemma HashOfA()
    ensures PathHash([0x61]) == PathHash([0x2F, 0x61]) == PathHash([0x5C, 0x41]) == 47 * 37 + 97
  {
    hide PathHash, Canonical;
    var s: bytes := [0x2F, 0x61];
    PathHashIs([0x61]);
    OneSpelling([0x61], s, Canonical([0x61]));
    PathHashIs([0x2F, 0x61]);
    OneSpelling([0x2F, 0x61], s, Canonical([0x2F, 0x61]));
    PathHashIs([0x5C, 0x41]);
    OneSpelling([0x5C, 0x41], s, Canonical([0x5C, 0x41]));
    assert s[1..] == [0x61];
    assert Power37(1) == 37 * Power37(0);
    assert Sum37([0x61]) == 97;
  }

  /** The one-pass loop over the raw path computes the sum over its spelling. */
  method ComputePathHash(path: bytes) returns (acc: nat)
    ensures acc == PathHash(path)
    ensures exists s :: Spelling(path, s) && acc == Sum37(s) % 0x1_0000_0000
  {
    hide Mix, Poly37, Canonical, Spelling;
    CanonicalShape(path);
    PathHashIs(path);
    ghost var c := Canonical(path);
    ghost var lead := |c| - |path|;
    acc := 0;
    if !(|path| > 0 && (path[0] == SLASH || path[0] == BACKSLASH)) {
      Poly37Step(c, 0);
      acc := Mix(acc, SLASH);
    }
    for i := 0 to |path|
      invariant acc == Poly37(c[..lead + i])
    {
      var b := path[i];
      if 0x41 <= b <= 0x5A {
        b := b - 0x41 + 0x61;
      }
      if b == BACKSLASH {
        b := SLASH;
      }
      Poly37Step(c, lead + i);
      acc := Mix(acc, b);
    }
    assert c[..lead + |path|] == c;
  }

  // ------------------------------------------------------------------ primes

  ghost predicate Divides(d: int, n: int)
    requires d > 0
  {
    n % d == 0
  }

  ghost predicate Prime(n: int) {
    n >= 2 && forall d :: 2 <= d < n ==> !Divides(d, n)
  }

  lemma DividesByFactor(d: nat, k: nat, n: nat)
    requires d > 0 && n == k * d
    ensures Divides(d, n)
  {
    MultipleMod(k, d);
  }

  lemma EvenDivisor(d: nat, n: nat)
    requires d > 0 && d % 2 == 0 && Divides(d, n)
    ensures n % 2 == 0
  {
    DivMod(n, d);
    var k, e := n / d, d / 2;
    assert n == k * d;
    assert k * (2 * e) == 2 * (k * e);
  }

  lemma MulMono(a: nat, b: nat, c: nat)
    requires a <= b
    ensures a * c <= b * c
  {
  }

  /** A divisor above the square root has a cofactor below it. */
  lemma SmallCofactor(n: nat, d: nat, i: nat)
    requires 2 <= i <= d < n < i * i && Divides(d, n)
    ensures exists e :: 2 <= e < i && Divides(e, n)
  {
    DivMod(n, d);
    var e := n / d;
    assert n == e * d;
    assert e <= 1 ==> e * d <= d;
    assert e >= i ==> e * d >= i * i by {
      if e >= i {
        MulMono(i, e, d);
        MulMono(i, d, i);
      }
    }
    DividesByFactor(e, d, n);
  }

  /** Without a divisor up to its square root a number is prime. */
  lemma NoSmallDivisor(n: nat, i: nat)
    requires 2 <= i <= n < i * i
    requires forall d :: 2 <= d < i ==> !Divides(d, n)
    ensures Prime(n)
  {
    forall d | i <= d < n
      ensures !Divides(d, n)
    {
      if Divides(d, n) {
        SmallCofactor(n, d, i);
      }
    }
  }

  /** Odd trial division up to the square root decides primality. */
  method IsPrime(candidate: nat) returns (r: bool)
    ensures r <==> Prime(candidate)
  {
    if candidate < 2 {
      return false;
    }
    if candidate == 2 {
      return true;
    }
    if candidate % 2 == 0 {
      assert Divides(2, candidate);
      return false;
    }
    var i := 3;
    while i * i <= candidate
      invariant 3 <= i <= candidate && i % 2 == 1
      invariant forall d :: 2 <= d < i ==> !Divides(d, candidate)
      decreases candidate - i
    {
      MulMono(3, i, i);
      if candidate % i == 0 {
        assert Divides(i, candidate);
        return false;
      }
      if Divides(i + 1, candidate) {
        EvenDivisor(i + 1, candidate);
      }
      i := i + 2;
    }
    NoSmallDivisor(candidate, i);
    return true;
  }

  // ------------------------------------------------------------------ group count

  const MAX_GROUPS: nat := 100000

  /** `g` is the answer of the group-count search started at `start`. */
  ghost predicate LeastPrimeFrom(g: nat, start: nat) {
    if g == 0 then forall p :: start <= p <= MAX_GROUPS ==> !Prime(p)
    else Prime(g) && start <= g <= MAX_GROUPS && forall p :: start <= p < g ==> !Prime(p)
  }

  function SearchStart(fileCount: nat): nat {
    (fileCount / 7) % 0x1_0000_0000
  }

  method GroupCount(fileCount: nat) returns (g: nat)
    ensures LeastPrimeFrom(g, SearchStart(fileCount))
    ensures g != 1
  {
    var start := SearchStart(fileCount);
    var p := start;
    while p <= MAX_GROUPS
      invariant start <= p
      invariant forall q :: start <= q < p ==> !Prime(q)
    {
      var prime := IsPrime(p);
      if prime {
        return p;
      }
      p := p + 1;
    }
    return 0;
  }

  const LAST_PRIME: nat := 99991

  lemma LastPrimeIndivisible(d: nat)
    requires 2 <= d < 317
    ensures LAST_PRIME % d != 0
  {
  }

  lemma LastPrime()
    ensures Prime(LAST_PRIME)
    ensures forall p :: LAST_PRIME < p <= MAX_GROUPS ==> !Prime(p)
  {
    forall d | 2 <= d < 317
      ensures !Divides(d, LAST_PRIME)
    {
      LastPrimeIndivisible(d);
    }
    NoSmallDivisor(LAST_PRIME, 317);
    assert Divides(2, 99992) && Divides(3, 99993) && Divides(2, 99994) && Divides(5, 99995) && Divides(2, 99996);
    assert Divides(19, 99997) && Divides(2, 99998) && Divides(3, 99999) && Divides(2, 100000);
  }

  /** The search fails exactly for 699944 files or more. */
  lemma GroupCountZero(g: nat, fileCount: nat)
    requires LeastPrimeFrom(g, SearchStart(fileCount)) && fileCount < 0x8000_0000
    ensures g == 0 <==> fileCount >= 7 * (LAST_PRIME + 1)
    ensures g != 0 ==> 2 <= g <= MAX_GROUPS
  {
    LastPrime();
    var start := fileCount / 7;
    assert start <= LAST_PRIME ==> Prime(LAST_PRIME) && start <= LAST_PRIME <= MAX_GROUPS;
  }

  /** The search has one answer. */
  lemma GroupCountUnique(g: nat, g': nat, start: nat)
    requires LeastPrimeFrom(g, start) && LeastPrimeFrom(g', start)
    ensures g == g'
  {
  }
}
