/** The polynomial string hash shared by every table class of hashtables.py. */
module Hashing {

  /** Python's `ord`: the code point of a character. */
  function Ord(c: char): nat {
    c as nat
  }

  /** The base-31 polynomial of the code points of `s`, first character most
      significant, with no reduction. */
  function Poly(s: string): nat
    decreases |s|
  {
    if |s| == 0 then 0 else Poly(s[..|s| - 1]) * 31 + Ord(s[|s| - 1])
  }

  /** `hash_string`: the loop `hash = (hash * 31 + ord(c)) % m` over the
      characters of `s`, starting from 0. The value of the loop after the
      first k characters is `HashString(s[..k], m)`. */
  function HashString(s: string, m: nat): (h: nat)
    requires m >= 1
    ensures h < m
    decreases |s|
  {
    if |s| == 0 then 0 else (HashString(s[..|s| - 1], m) * 31 + Ord(s[|s| - 1])) % m
  }

  lemma MulAtLeast(t: int, m: int)
    requires t >= 1 && m >= 1
    ensures t * m >= m
  {
  }

  /** Euclidean division is unique: a quotient and a remainder in [0, m)
      that rebuild `a` are the ones `/` and `%` return. */
  lemma DivModUnique(a: int, m: int, k: int, r: int)
    requires m >= 1 && 0 <= r < m && a == k * m + r
    ensures a % m == r && a / m == k
  {
    var d := a / m;
    assert (k - d) * m == a % m - r;
    if k - d >= 1 {
      MulAtLeast(k - d, m);
      assert false;
    } else if d - k >= 1 {
      MulAtLeast(d - k, m);
      assert false;
    }
  }

  lemma ModOfMultiplePlus(q: nat, m: nat, r: nat)
    requires m >= 1
    ensures (q * m + r) % m == r % m
  {
    var j := r / m;
    assert r == j * m + r % m;
    assert q * m + r == (q + j) * m + r % m;
    DivModUnique(q * m + r, m, q + j, r % m);
  }

  /** One step of Horner's rule may reduce its accumulator first. */
  lemma HornerStepMod(a: nat, c: nat, m: nat)
    requires m >= 1
    ensures ((a % m) * 31 + c) % m == (a * 31 + c) % m
  {
    var q := a / m;
    var r := a % m;
    assert a == q * m + r;
    assert a * 31 == (q * 31) * m + r * 31;
    ModOfMultiplePlus(q * 31, m, r * 31 + c);
  }

  /** Reducing after every step of Horner's rule gives the same value as
      reducing the whole polynomial once: the hash is `Poly(s) mod m`. */
  lemma {:induction false} HashIsReducedPoly(s: string, m: nat)
    requires m >= 1
    ensures HashString(s, m) == Poly(s) % m
    decreases |s|
  {
    if |s| > 0 {
      var p := s[..|s| - 1];
      var c := Ord(s[|s| - 1]);
      HashIsReducedPoly(p, m);
      assert HashString(s, m) == ((Poly(p) % m) * 31 + c) % m;
      HornerStepMod(Poly(p), c, m);
    }
  }

  /** With modulus 1 every string hashes to slot 0. */
  lemma HashModOne(s: string)
    ensures HashString(s, 1) == 0
  {
  }
}
