/** The directory index of a key: its low `globalDepth` bits, taken with a bitwise AND
    against the mask `(1 << globalDepth) - 1`. */
module HashFunc {
  import opened Layout

  function Pow2(n: nat): (p: nat)
    ensures p >= 1
  {
    if n == 0 then 1 else 2 * Pow2(n - 1)
  }

  /** Bitwise AND of two naturals, one bit at a time from the least significant. */
  function BitAnd(a: nat, b: nat): (r: nat)
    ensures r <= a && r <= b
    decreases a
  {
    if a == 0 || b == 0 then 0
    else 2 * BitAnd(a / 2, b / 2) + (if a % 2 == 1 && b % 2 == 1 then 1 else 0)
  }

  /** A multiple of `d` strictly between `-d` and `d` is zero. */
  lemma SmallMultiple(x: int, d: int)
    requires d >= 1 && -d < x * d < d
    ensures x == 0
  {
  }

  /** Division with remainder is unique. */
  lemma ModUnique(a: nat, d: nat, q: int, s: int)
    requires d >= 1 && a == q * d + s && 0 <= s < d
    ensures a % d == s
  {
    var q', s' := a / d, a % d;
    assert (q - q') * d == s' - s;
    SmallMultiple(q - q', d);
  }

  /** Taking `a` modulo `2 * p` keeps its lowest bit and `a / 2` modulo `p`. */
  lemma ModDouble(a: nat, p: nat)
    requires p >= 1
    ensures a % (2 * p) == 2 * ((a / 2) % p) + a % 2
  {
    var q, r := (a / 2) / p, (a / 2) % p;
    assert a / 2 == q * p + r;
    assert a == q * (2 * p) + (2 * r + a % 2);
    ModUnique(a, 2 * p, q, 2 * r + a % 2);
  }

  /** ANDing with an odd mask keeps the lowest bit and ANDs the rest with the mask's
      upper bits. */
  lemma BitAndOdd(a: nat, m: nat)
    requires m % 2 == 1
    ensures BitAnd(a, m) == 2 * BitAnd(a / 2, m / 2) + a % 2
  {
  }

  /** Masking with `2^n - 1` keeps the remainder modulo `2^n`. */
  lemma {:induction false} MaskIsModulus(a: nat, n: nat)
    ensures BitAnd(a, Pow2(n) - 1) == a % Pow2(n)
  {
    if n > 0 {
      var p := Pow2(n - 1);
      var m := Pow2(n) - 1;
      assert m == 2 * (p - 1) + 1;
      assert m % 2 == 1 && m / 2 == p - 1;
      BitAndOdd(a, m);
      MaskIsModulus(a / 2, n - 1);
      ModDouble(a, p);
    }
  }

  /** The mask `(1 << globalDepth) - 1`. The shift is done on a 32-bit signed int,
      which is exact only while `globalDepth <= 30`. */
  function Mask(globalDepth: nat): (m: nat)
    requires globalDepth <= 30
    ensures m + 1 == Pow2(globalDepth)
  {
    Pow2(globalDepth) - 1
  }

  /** The catalog index of `key`: its low `globalDepth` bits. */
  function Hash(key: u64, globalDepth: nat): (h: nat)
    requires globalDepth <= 30
    ensures h < Pow2(globalDepth)
    ensures h == key % Pow2(globalDepth)
  {
    MaskIsModulus(key, globalDepth);
    BitAnd(key, Mask(globalDepth))
  }
}
