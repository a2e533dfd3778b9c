/** Big-endian positional numerals in any base: Python's `int.from_bytes`, `int(s, 2)`,
    `to_bytes`, `bin(n)[2:]`, `zfill`, fixed-width formats and repeated `divmod`. */
module Radix {
  import opened Prelude

  function Pow(b: nat, n: nat): (p: nat)
    ensures b > 0 ==> p > 0
  {
    if n == 0 then 1 else Pow(b, n - 1) * b
  }

  /** The number a big-endian digit sequence denotes. */
  function Value(b: nat, ds: seq<nat>): nat {
    if ds == [] then 0 else Value(b, ds[..|ds| - 1]) * b + ds[|ds| - 1]
  }

  ghost predicate IsNumeral(b: nat, ds: seq<nat>) {
    forall i :: 0 <= i < |ds| ==> ds[i] < b
  }

  /** The `len` low-order digits of `n`. */
  function Digits(b: nat, n: nat, len: nat): (ds: seq<nat>)
    requires b >= 2
    ensures |ds| == len
    ensures IsNumeral(b, ds)
    decreases len, b, n
  {
    if len == 0 then [] else Digits(b, n / b, len - 1) + [n % b]
  }

  lemma DivShrinks(b: nat, n: nat)
    requires b >= 2 && n > 0
    ensures n / b < n
  {
    assert n == (n / b) * b + n % b;
    if n / b >= n {
      assert (n / b) * b >= n * 2 by { MulMono(n, n / b, 2, b); }
    }
  }

  lemma MulMono(x: nat, x': nat, y: nat, y': nat)
    requires x <= x' && y <= y'
    ensures x * y <= x' * y'
  {
    assert x * y <= x' * y by { assert (x' - x) * y >= 0; }
    assert x' * y <= x' * y' by { assert x' * (y' - y) >= 0; }
  }

  /** Digits of `n` without leading zeros; empty for zero. */
  function Minimal(b: nat, n: nat): (ds: seq<nat>)
    requires b >= 2
    ensures IsNumeral(b, ds)
    ensures n == 0 <==> ds == []
    decreases n
  {
    if n == 0 then [] else DivShrinks(b, n); Minimal(b, n / b) + [n % b]
  }

  lemma {:induction false} PowAdd(b: nat, m: nat, n: nat)
    ensures Pow(b, m + n) == Pow(b, m) * Pow(b, n)
    decreases n
  {
    if n > 0 {
      PowAdd(b, m, n - 1);
      MulAssoc(Pow(b, m), Pow(b, n - 1), b);
    }
  }

  lemma PowMonotone(b: nat, m: nat, n: nat)
    requires b > 0 && m <= n
    ensures Pow(b, m) <= Pow(b, n)
  {
    PowAdd(b, m, n - m);
    MulMono(Pow(b, m), Pow(b, m), 1, Pow(b, n - m));
  }

  lemma {:induction false} PowMul(b: nat, m: nat, n: nat)
    ensures Pow(Pow(b, m), n) == Pow(b, m * n)
    decreases n
  {
    if n > 0 {
      PowMul(b, m, n - 1);
      assert m * n == m * (n - 1) + m;
      PowAdd(b, m * (n - 1), m);
    }
  }

  lemma ValueSnoc(b: nat, ds: seq<nat>, d: nat)
    ensures Value(b, ds + [d]) == Value(b, ds) * b + d
  {
    assert (ds + [d])[..|ds + [d]| - 1] == ds;
  }

  lemma {:induction false} ValueConcat(b: nat, xs: seq<nat>, ys: seq<nat>)
    ensures Value(b, xs + ys) == Value(b, xs) * Pow(b, |ys|) + Value(b, ys)
    decreases |ys|
  {
    if ys == [] {
      assert xs + ys == xs;
    } else {
      var n := |ys| - 1;
      assert (xs + ys)[..|xs + ys| - 1] == xs + ys[..n];
      ValueConcat(b, xs, ys[..n]);
      var v, p, w := Value(b, xs), Pow(b, n), Value(b, ys[..n]);
      assert (v * p + w) * b == v * (p * b) + w * b;
    }
  }

  lemma {:induction false} ValueBound(b: nat, ds: seq<nat>)
    requires IsNumeral(b, ds)
    ensures Value(b, ds) < Pow(b, |ds|)
  {
    if ds != [] {
      var n := |ds| - 1;
      ValueBound(b, ds[..n]);
      MulMono(Value(b, ds[..n]) + 1, Pow(b, n), b, b);
      assert (Value(b, ds[..n]) + 1) * b == Value(b, ds[..n]) * b + b;
    }
  }

  /** Quotient and remainder are determined by the defining equation. */
  lemma DivModUnique(b: nat, q: nat, r: nat)
    requires r < b
    ensures (q * b + r) / b == q && (q * b + r) % b == r
  {
    var n := q * b + r;
    var d := n / b - q;
    assert d * b == r - n % b;
    if d > 0 {
      MulMono(1, d, b, b);
    }
  }

  lemma DivMod(b: nat, n: nat) returns (q: nat, r: nat)
    requires b > 0
    ensures n == q * b + r && r < b && q == n / b
  {
    q, r := n / b, n % b;
  }

  lemma DigitsSnoc(b: nat, q: nat, r: nat, len: nat)
    requires b >= 2 && r < b
    ensures Digits(b, q * b + r, len + 1) == Digits(b, q, len) + [r]
  {
    DivModUnique(b, q, r);
  }

  /** One round of `n, r = divmod(n, b)`. */
  lemma MinimalSnoc(b: nat, q: nat, r: nat, tail: seq<nat>)
    requires b >= 2 && r < b && q * b + r > 0
    ensures Minimal(b, q * b + r) + tail == Minimal(b, q) + ([r] + tail)
  {
    DivModUnique(b, q, r);
    assert Minimal(b, q * b + r) == Minimal(b, q) + [r];
  }

  lemma DivBound(b: nat, n: nat, p: nat)
    requires b >= 2 && n < p * b
    ensures n / b < p
  {
    assert n == (n / b) * b + n % b;
    if n / b >= p {
      MulMono(p, n / b, b, b);
    }
  }

  lemma MulAssoc(x: nat, y: nat, z: nat)
    ensures x * y * z == x * (y * z)
  {}

  /** Fixed-width formatting is the inverse of reading, on numerals of that width ... */
  lemma {:induction false} DigitsOfValue(b: nat, ds: seq<nat>)
    requires b >= 2 && IsNumeral(b, ds)
    ensures Digits(b, Value(b, ds), |ds|) == ds
  {
    if ds != [] {
      var n := |ds| - 1;
      DivModUnique(b, Value(b, ds[..n]), ds[n]);
      DigitsOfValue(b, ds[..n]);
    }
  }

  /** ... and on numbers that fit the width. */
  lemma {:induction false} ValueOfDigits(b: nat, n: nat, len: nat)
    requires b >= 2 && n < Pow(b, len)
    ensures Value(b, Digits(b, n, len)) == n
    decreases len
  {
    if len > 0 {
      DivBound(b, n, Pow(b, len - 1));
      var q, r := DivMod(b, n);
      ValueOfDigits(b, q, len - 1);
      DigitsSnoc(b, q, r, len - 1);
      ValueSnoc(b, Digits(b, q, len - 1), r);
    }
  }

  lemma ValueInjective(b: nat, xs: seq<nat>, ys: seq<nat>)
    requires b >= 2 && IsNumeral(b, xs) && IsNumeral(b, ys)
    requires |xs| == |ys| && Value(b, xs) == Value(b, ys)
    ensures xs == ys
  {
    DigitsOfValue(b, xs);
    DigitsOfValue(b, ys);
  }

  lemma {:induction false} ValueOfMinimal(b: nat, n: nat)
    requires b >= 2
    ensures Value(b, Minimal(b, n)) == n
    decreases n
  {
    if n > 0 {
      var q, r := n / b, n % b;
      assert n == q * b + r;
      DivShrinks(b, n);
      ValueOfMinimal(b, q);
      ValueSnoc(b, Minimal(b, q), r);
    }
  }

  lemma {:induction false} MinimalHead(b: nat, n: nat)
    requires b >= 2 && n > 0
    ensures Minimal(b, n)[0] != 0
    decreases n
  {
    DivShrinks(b, n);
    assert n == (n / b) * b + n % b;
    if n / b > 0 {
      MinimalHead(b, n / b);
      assert Minimal(b, n)[0] == Minimal(b, n / b)[0];
    }
  }

  lemma ValueAtLeast(b: nat, ds: seq<nat>)
    requires ds != []
    ensures Value(b, ds) >= ds[0] * Pow(b, |ds| - 1)
  {
    assert ds == [ds[0]] + ds[1..];
    ValueConcat(b, [ds[0]], ds[1..]);
    assert Value(b, [ds[0]]) == ds[0] by { assert [ds[0]][..0] == []; }
  }

  lemma ValuePositive(b: nat, ds: seq<nat>)
    requires b >= 2 && ds != [] && ds[0] != 0
    ensures Value(b, ds) > 0
  {
    ValueAtLeast(b, ds);
    MulMono(1, ds[0], 1, Pow(b, |ds| - 1));
  }

  /** A numeral without a leading zero is the minimal form of its value. */
  lemma {:induction false} MinimalOfValue(b: nat, ds: seq<nat>)
    requires b >= 2 && IsNumeral(b, ds)
    requires ds != [] ==> ds[0] != 0
    ensures Minimal(b, Value(b, ds)) == ds
    decreases |ds|
  {
    if ds != [] {
      var n := |ds| - 1;
      ValuePositive(b, ds);
      DivModUnique(b, Value(b, ds[..n]), ds[n]);
      MinimalOfValue(b, ds[..n]);
    }
  }

  /** Leading zeros do not change a value. */
  lemma ValueLeadingZeros(b: nat, z: nat, ds: seq<nat>)
    ensures Value(b, Zeros(z) + ds) == Value(b, ds)
  {
    ValueOfZeros(b, z);
    ValueConcat(b, Zeros(z), ds);
  }

  lemma {:induction false} ValueOfZeros(b: nat, z: nat)
    ensures Value(b, Zeros(z)) == 0
  {
    if z > 0 {
      ValueOfZeros(b, z - 1);
      assert Zeros(z)[..z - 1] == Zeros(z - 1);
    }
  }

  lemma ValueZeroIff(b: nat, ds: seq<nat>)
    requires b >= 2
    ensures Value(b, ds) == 0 <==> forall i :: 0 <= i < |ds| ==> ds[i] == 0
  {
    if i :| 0 <= i < |ds| && ds[i] != 0 {
      assert ds == ds[..i] + ds[i..];
      ValueConcat(b, ds[..i], ds[i..]);
      ValuePositive(b, ds[i..]);
    } else {
      assert ds == Zeros(|ds|);
      ValueOfZeros(b, |ds|);
    }
  }

  /** Zero-padding the minimal form to a width (`zfill`, `rjust`). */
  function Pad(ds: seq<nat>, len: nat): (r: seq<nat>)
    ensures |r| == if |ds| < len then len else |ds|
  {
    if |ds| < len then Zeros(len - |ds|) + ds else ds
  }

  lemma {:induction false} MinimalLength(b: nat, n: nat, len: nat)
    requires b >= 2 && n < Pow(b, len)
    ensures |Minimal(b, n)| <= len
    decreases len
  {
    if n > 0 {
      DivBound(b, n, Pow(b, len - 1));
      MinimalLength(b, n / b, len - 1);
    }
  }

  lemma PadMinimal(b: nat, n: nat, len: nat)
    requires b >= 2 && n < Pow(b, len)
    ensures Pad(Minimal(b, n), len) == Digits(b, n, len)
  {
    MinimalLength(b, n, len);
    var ds := Minimal(b, n);
    ValueLeadingZeros(b, len - |ds|, ds);
    ValueOfMinimal(b, n);
    assert Pad(ds, len) == Zeros(len - |ds|) + ds;
    DigitsOfValue(b, Pad(ds, len));
  }

  /** A prefix of a numeral denotes its value shifted right. */
  lemma PrefixValue(b: nat, ds: seq<nat>, k: nat)
    requires b >= 2 && IsNumeral(b, ds) && k <= |ds|
    ensures Value(b, ds[..k]) == Value(b, ds) / Pow(b, |ds| - k)
  {
    assert ds == ds[..k] + ds[k..];
    ValueConcat(b, ds[..k], ds[k..]);
    ValueBound(b, ds[k..]);
    DivModUnique(Pow(b, |ds| - k), Value(b, ds[..k]), Value(b, ds[k..]));
  }

  /** The leading digits of a minimal numeral, and how many follow them. */
  lemma MinimalSplit(b: nat, hi: nat, lo: nat, k: nat)
    requires b >= 2 && hi > 0 && lo < Pow(b, k)
    ensures Minimal(b, hi * Pow(b, k) + lo) == Minimal(b, hi) + Digits(b, lo, k)
  {
    var ds := Minimal(b, hi) + Digits(b, lo, k);
    ValueConcat(b, Minimal(b, hi), Digits(b, lo, k));
    ValueOfMinimal(b, hi);
    ValueOfDigits(b, lo, k);
    MinimalHead(b, hi);
    MinimalOfValue(b, ds);
  }
}
