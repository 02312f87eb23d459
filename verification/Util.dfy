/** Sequences, powers and machine words shared by the models. */
module Util {

  datatype Option<+T> = None | Some(value: T)

  // ---------- sequences ----------

  function Min(a: int, b: int): int { if a < b then a else b }

  function Max(a: int, b: int): int { if a < b then b else a }

  /** `n` copies of `c`. */
  function Repeat(c: char, n: nat): string { seq(n, _ => c) }

  lemma RepeatSplit(c: char, m: nat, n: nat)
    ensures Repeat(c, m) + Repeat(c, n) == Repeat(c, m + n)
  {}

  function Reverse<T>(s: seq<T>): seq<T> { seq(|s|, i requires 0 <= i < |s| => s[|s| - 1 - i]) }

  lemma ReverseLength<T>(s: seq<T>)
    ensures |Reverse(s)| == |s|
  {}

  lemma ReverseAt<T>(s: seq<T>, k: nat)
    requires k < |s|
    ensures |Reverse(s)| == |s| && Reverse(s)[k] == s[|s| - 1 - k]
  {}

  lemma ReverseConcat<T>(a: seq<T>, b: seq<T>)
    ensures Reverse(a + b) == Reverse(b) + Reverse(a)
  {}

  lemma ReverseRepeat(c: char, n: nat)
    ensures Reverse(Repeat(c, n)) == Repeat(c, n)
  {}

  // ---------- powers and division ----------

  function Pow(b: nat, e: nat): (r: nat)
    ensures b > 0 ==> r > 0
  {
    if e == 0 then 1 else b * Pow(b, e - 1)
  }

  lemma {:induction false} PowAdd(b: nat, m: nat, n: nat)
    ensures Pow(b, m + n) == Pow(b, m) * Pow(b, n)
  {
    if m == 0 {
    } else {
      PowAdd(b, m - 1, n);
      assert b * (Pow(b, m - 1) * Pow(b, n)) == (b * Pow(b, m - 1)) * Pow(b, n)
        by { MulAssoc(b, Pow(b, m - 1), Pow(b, n)); }
    }
  }

  lemma {:induction false} PowMonotone(b: nat, m: nat, n: nat)
    requires b >= 1 && m <= n
    ensures Pow(b, m) <= Pow(b, n)
  {
    if m < n {
      PowMonotone(b, m, n - 1);
      MulGrows(b, Pow(b, n - 1));
    }
  }

  lemma MulAssoc(x: int, y: int, z: int)
    ensures x * (y * z) == (x * y) * z
  {}

  lemma MulGrows(b: nat, x: nat)
    requires b >= 1
    ensures x <= b * x
  {
    assert b * x == x + (b - 1) * x;
  }

  lemma QuotientNat(v: nat, d: nat)
    requires d > 0
    ensures v / d >= 0 && 0 <= v % d < d
  {}

  /** Quotient and remainder are determined by their defining equation. */
  lemma DivModUnique(v: int, d: int, q: int, r: int)
    requires d > 0 && 0 <= r < d && v == q * d + r
    ensures v / d == q && v % d == r
  {
    var q', r' := v / d, v % d;
    assert v == q' * d + r';
    if q < q' {
      assert (q' - q) * d >= d by { MulGrows(q' - q, d); }
      assert false;
    } else if q > q' {
      assert (q - q') * d >= d by { MulGrows(q - q', d); }
      assert false;
    }
  }

  /** Taking the last base-`b` digit off a number commutes with truncation to `e + 1` digits. */
  lemma ModStep(v: nat, b: nat, e: nat)
    requires b >= 1
    ensures v % Pow(b, e + 1) == (v / b % Pow(b, e)) * b + v % b
    ensures v / Pow(b, e + 1) == v / b / Pow(b, e)
  {
    var p := Pow(b, e);
    var q, r := v / b, v % b;
    var q1, q2 := q / p, q % p;
    assert v == q * b + r;
    assert q == q1 * p + q2;
    assert v == q1 * (b * p) + (q2 * b + r) by {
      assert (q1 * p + q2) * b == (q1 * p) * b + q2 * b;
      assert (q1 * p) * b == q1 * (p * b) by { MulAssoc(q1, p, b); }
      assert p * b == b * p;
    }
    assert q2 * b + r < b * p by {
      assert (q2 + 1) * b <= p * b by { MulLe(q2 + 1, p, b); }
    }
    DivModUnique(v, b * p, q1, q2 * b + r);
  }

  lemma MulLe(x: int, y: int, z: nat)
    requires x <= y
    ensures x * z <= y * z
  {}

  // ---------- machine words ----------

  const TWO_8: int := 0x100
  const TWO_16: int := 0x1_0000
  const TWO_31: int := 0x8000_0000
  const TWO_32: int := 0x1_0000_0000
  const TWO_63: int := 0x8000_0000_0000_0000
  const TWO_64: int := 0x1_0000_0000_0000_0000

  type u8 = x: int | 0 <= x < TWO_8
  type u32 = x: int | 0 <= x < TWO_32
  type u64 = x: int | 0 <= x < TWO_64

  /** The two's complement reading of a word of which only the low part below `modulus` is kept. */
  function Signed(x: int, modulus: int): (r: int)
    requires modulus > 0 && modulus % 2 == 0
    ensures -(modulus / 2) <= r < modulus / 2
  {
    var m := x % modulus;
    if m < modulus / 2 then m else m - modulus
  }

  /** It is the only number of its range congruent to the word. */
  lemma SignedUnique(x: int, modulus: int, r: int)
    requires modulus > 0 && modulus % 2 == 0
    ensures r == Signed(x, modulus) <==> -(modulus / 2) <= r < modulus / 2 && r % modulus == x % modulus
  {
    var m := x % modulus;
    DivModUnique(m, modulus, 0, m);
    DivModUnique(m - modulus, modulus, -1, m);
    if 0 <= r < modulus / 2 {
      DivModUnique(r, modulus, 0, r);
    } else if -(modulus / 2) <= r < 0 {
      DivModUnique(r, modulus, -1, r + modulus);
    }
  }
}
