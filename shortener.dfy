/**
  The short-id generator `short`: a polynomial rolling hash with base 31 and
  modulus 1 000 000 009 over the input with every `/` removed. Character `c`
  at position `i` of the cleaned input contributes
  `(ord(c) - ord('a') + 1) * 31^i`, and the sum is reduced modulo the modulus.

  `short` in app.py writes the modulus as the float `1e9 + 9` and so computes in
  floating point; `IntermediatesAreExact` shows that every value the loop
  forms is an integer below 2^53, so exact integer arithmetic gives the same
  numbers.
*/
module Shortener {

  const Base: int := 31
  const Modulus: int := 1_000_000_009

  /** `s.replace("/", "")`: the input with every `/` removed, order kept. */
  function Clean(s: string): (r: string)
    ensures forall i :: 0 <= i < |r| ==> r[i] != '/'
    ensures |r| <= |s|
  {
    if s == [] then []
    else (if s[0] == '/' then [] else [s[0]]) + Clean(s[1..])
  }

  lemma {:induction false} CleanAppend(s: string, t: string)
    ensures Clean(s + t) == Clean(s) + Clean(t)
  {
    if s != [] {
      assert (s + t)[1..] == s[1..] + t;
      CleanAppend(s[1..], t);
    } else {
      assert s + t == t;
    }
  }

  /** Input without `/` is left as it is. */
  lemma {:induction false} CleanKeepsSlashFree(s: string)
    requires forall i :: 0 <= i < |s| ==> s[i] != '/'
    ensures Clean(s) == s
  {
    if s != [] {
      CleanKeepsSlashFree(s[1..]);
    }
  }

  /** Input made only of `/` (or empty) cleans to nothing. */
  lemma {:induction false} CleanAllSlashes(s: string)
    requires forall i :: 0 <= i < |s| ==> s[i] == '/'
    ensures Clean(s) == []
  {
    if s != [] {
      CleanAllSlashes(s[1..]);
    }
  }

  /** `ord(c) - ord("a") + 1`: 1 for 'a', 26 for 'z', zero or negative below 'a'. */
  function Offset(c: char): (r: int)
    ensures 'a' <= c <= 'z' ==> 1 <= r <= 26
    ensures c < 'a' ==> r <= 0
    ensures c > 'z' ==> r > 26
  {
    c as int - 'a' as int + 1
  }

  function Pow(b: int, n: nat): int {
    if n == 0 then 1 else Pow(b, n - 1) * b
  }

  /** The sum of the first `n` terms `Offset(t[i]) * 31^i`, before any reduction. */
  function Sum(t: string, n: nat): int
    requires n <= |t|
  {
    if n == 0 then 0 else Sum(t, n - 1) + Offset(t[n - 1]) * Pow(Base, n - 1)
  }

  /** The closed form of `short(s)`. */
  function PolynomialHash(s: string): (h: int)
    ensures 0 <= h < Modulus
  {
    var t := Clean(s);
    Sum(t, |t|) % Modulus
  }

  lemma ModShift(x: int, k: int)
    ensures (x + Modulus * k) % Modulus == x % Modulus
  {
    var q := x / Modulus;
    assert x + Modulus * k == Modulus * (q + k) + x % Modulus;
  }

  /** One loop step on reduced values agrees with the same step on the unreduced ones. */
  lemma ReducedStep(a: int, c: int, p: int)
    ensures (a % Modulus + c * (p % Modulus)) % Modulus == (a + c * p) % Modulus
    ensures (p % Modulus * Base) % Modulus == (p * Base) % Modulus
  {
    var qa, qp := a / Modulus, p / Modulus;
    assert a == Modulus * qa + a % Modulus;
    assert p == Modulus * qp + p % Modulus;
    assert a + c * p == a % Modulus + c * (p % Modulus) + Modulus * (qa + c * qp);
    ModShift(a % Modulus + c * (p % Modulus), qa + c * qp);
    assert p * Base == p % Modulus * Base + Modulus * (qp * Base);
    ModShift(p % Modulus * Base, qp * Base);
  }

  const TwoTo53: int := 0x20_0000_0000_0000

  /**
    The values the loop forms from a reduced accumulator and a reduced power
    stay strictly between -2^53 and 2^53, where every integer is a float.
  */
  lemma IntermediatesAreExact(hash: int, c: char, pPow: int)
    requires 0 <= hash < Modulus && 0 <= pPow < Modulus
    ensures -TwoTo53 < hash + Offset(c) * pPow < TwoTo53
    ensures 0 <= pPow * Base < TwoTo53
  {
    var o := Offset(c);
    assert -96 <= o <= 0x10FFFF - 96;
    MulMonotone(o + 96, 0x10FFFF, pPow, Modulus);
    assert o * pPow == (o + 96) * pPow - 96 * pPow;
  }

  lemma MulMonotone(x: int, xMax: int, y: int, yMax: int)
    requires 0 <= x <= xMax && 0 <= y <= yMax
    ensures 0 <= x * y <= xMax * yMax
  {
    assert (xMax - x) * y >= 0;
    assert xMax * (yMax - y) >= 0;
  }

  /**
    `short(s)`: the rolling hash of `s` with `/` removed, always in
    `[0, 1000000009)`.
  */
  method Short(s: string) returns (hashValue: int)
    ensures hashValue == PolynomialHash(s)
    ensures 0 <= hashValue < Modulus
  {
    var t := Clean(s);
    hashValue := 0;
    var pPow := 1;
    for i := 0 to |t|
      invariant hashValue == Sum(t, i) % Modulus
      invariant pPow == Pow(Base, i) % Modulus
    {
      IntermediatesAreExact(hashValue, t[i], pPow);
      ReducedStep(Sum(t, i), Offset(t[i]), Pow(Base, i));
      hashValue := (hashValue + Offset(t[i]) * pPow) % Modulus;
      pPow := (pPow * Base) % Modulus;
    }
  }

  /** Removing every `/` first does not change the hash. */
  lemma HashOfCleaned(s: string)
    ensures PolynomialHash(Clean(s)) == PolynomialHash(s)
  {
    CleanKeepsSlashFree(Clean(s));
  }

  /** A `/` anywhere in the input is ignored. */
  lemma SlashIgnored(u: string, v: string)
    ensures PolynomialHash(u + "/" + v) == PolynomialHash(u + v)
  {
    CleanAppend(u + "/", v);
    CleanAppend(u, "/");
    CleanAppend(u, v);
    assert Clean("/") == [];
    assert Clean(u) + [] == Clean(u);
  }

  /** The empty input, and input made only of `/`, hash to 0. */
  lemma SlashesOnlyHashToZero(s: string)
    requires forall i :: 0 <= i < |s| ==> s[i] == '/'
    ensures PolynomialHash(s) == 0
  {
    CleanAllSlashes(s);
  }

  /** `short("a") == 1` and `short("ab") == 1 + 2 * 31`. */
  lemma WorkedValues()
    ensures PolynomialHash("a") == 1
    ensures PolynomialHash("ab") == 63
  {
    CleanKeepsSlashFree("a");
    CleanKeepsSlashFree("ab");
    assert Sum("ab", 2) == Sum("ab", 1) + Offset('b') * Pow(Base, 1);
  }

  /**
    A digit lies below 'a', so its term is negative, yet the hash is the
    non-negative residue: `short("0") == 1000000009 - 48`.
  */
  lemma DigitHashesToNegativeResidue()
    ensures Offset('0') == -48
    ensures PolynomialHash("0") == Modulus - 48
  {
    CleanKeepsSlashFree("0");
  }

  /** Distinct inputs may share a short id: '`' lies just below 'a' and contributes 0. */
  lemma Collision()
    ensures PolynomialHash("a") == PolynomialHash("a`")
  {
    CleanKeepsSlashFree("a");
    CleanKeepsSlashFree("a`");
    assert Sum("a`", 2) == Sum("a`", 1) + Offset('`') * Pow(Base, 1);
  }
}
