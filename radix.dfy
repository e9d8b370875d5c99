/**
  Big-endian positional arithmetic shared by the Base58 encoder and decoder.

  A digit string s in base b denotes the natural number
    Val(s, b) = sum_i s[i] * b^(|s|-1-i)
  (most significant digit first).  The byte buffer (base 256), the 32-bit
  limbs (base 2^32), the base-58^5 "intermediate" accumulators and the raw
  base-58 digits of the conversion are all values of this one function.
*/
module Radix {

  type uint8 = x: int | 0 <= x < 0x100
  type uint32 = x: int | 0 <= x < 0x1_0000_0000
  type uint64 = x: int | 0 <= x < 0x1_0000_0000_0000_0000

  const TWO32: nat := 0x1_0000_0000
  const TWO64: nat := 0x1_0000_0000_0000_0000

  // ---------------------------------------------------------------------
  // Powers

  function Pow(b: nat, e: nat): (r: nat)
    ensures b > 0 ==> r > 0
  {
    if e == 0 then 1 else b * Pow(b, e - 1)
  }

  lemma {:induction false} PowAdd(b: nat, m: nat, n: nat)
    ensures Pow(b, m + n) == Pow(b, m) * Pow(b, n)
  {
    if n > 0 {
      PowAdd(b, m, n - 1);
      var x, y := Pow(b, m), Pow(b, n - 1);
      assert Pow(b, m + n) == b * Pow(b, m + n - 1);
      MulSwap(b, x, y);
    }
  }

  /** Multiplication lets a factor move inside a product. */
  lemma MulSwap(a: int, x: int, y: int)
    ensures a * (x * y) == x * (a * y)
  {
  }

  lemma {:induction false} PowMul(b: nat, m: nat, n: nat)
    ensures Pow(b, m * n) == Pow(Pow(b, m), n)
  {
    if n > 0 {
      PowMul(b, m, n - 1);
      PowAdd(b, m, m * (n - 1));
      assert m * n == m + m * (n - 1);
    }
  }

  lemma {:induction false} PowLe(a: nat, b: nat, n: nat)
    requires a <= b
    ensures Pow(a, n) <= Pow(b, n)
  {
    if n > 0 {
      PowLe(a, b, n - 1);
      MulLe(a, Pow(a, n - 1), b, Pow(b, n - 1));
    }
  }

  lemma {:induction false} PowLt(a: nat, b: nat, n: nat)
    requires a < b && n > 0
    ensures Pow(a, n) < Pow(b, n)
  {
    PowLe(a, b, n - 1);
    var p, q := Pow(a, n - 1), Pow(b, n - 1);
    assert Pow(a, n) == a * p && Pow(b, n) == b * q;
    MulLe(a, p, a, q);
    MulLt(a, b, q);
  }

  lemma {:induction false} PowLeExp(b: nat, m: nat, n: nat)
    requires 1 <= b && m <= n
    ensures Pow(b, m) <= Pow(b, n)
  {
    PowAdd(b, m, n - m);
    assert Pow(b, n - m) >= 1;
    MulLe(Pow(b, m), 1, Pow(b, m), Pow(b, n - m));
  }

  lemma PowMonotone(b: nat, m: nat, n: nat)
    requires 1 <= b
    ensures m <= n ==> Pow(b, m) <= Pow(b, n)
  {
    if m <= n {
      PowLeExp(b, m, n);
    }
  }

  /** The small powers the byte, limb and base-58 digit arithmetic uses. */
  lemma SmallPowers()
    ensures Pow(256, 1) == 0x100 && Pow(256, 2) == 0x1_0000 && Pow(256, 3) == 0x100_0000 && Pow(256, 4) == TWO32
    ensures Pow(58, 0) == 1 && Pow(58, 1) == 58 && Pow(58, 2) == 3364
    ensures Pow(58, 3) == 195112 && Pow(58, 4) == 11316496 && Pow(58, 5) == 656356768
  {
    assert Pow(256, 1) == 0x100;
    assert Pow(256, 2) == 0x1_0000;
    assert Pow(256, 3) == 0x100_0000;
    assert Pow(58, 1) == 58;
    assert Pow(58, 2) == 3364;
    assert Pow(58, 3) == 195112;
    assert Pow(58, 4) == 11316496;
  }

  lemma MulLe(a: nat, b: nat, c: nat, d: nat)
    requires a <= c && b <= d
    ensures a * b <= c * d
  {
    assert a * b <= c * b;
  }

  lemma MulByOne(x: nat, p: nat)
    requires p == 1
    ensures x * p == x
  {
  }

  lemma MulLt(a: nat, b: nat, c: nat)
    requires a < b && c > 0
    ensures a * c < b * c
  {
    assert b * c == a * c + (b - a) * c;
  }

  // ---------------------------------------------------------------------
  // Values of digit strings

  /** The value of the big-endian digit string s in base b. */
  function Val(s: seq<nat>, b: nat): nat
  {
    if |s| == 0 then 0 else Val(s[..|s| - 1], b) * b + s[|s| - 1]
  }

  lemma ValSnoc(s: seq<nat>, b: nat, k: nat)
    requires k < |s|
    ensures Val(s[..k + 1], b) == Val(s[..k], b) * b + s[k]
  {
    assert s[..k + 1][..k] == s[..k];
  }

  lemma {:induction false} ValConcat(a: seq<nat>, c: seq<nat>, b: nat)
    ensures Val(a + c, b) == Val(a, b) * Pow(b, |c|) + Val(c, b)
  {
    if |c| > 0 {
      var n := |c| - 1;
      assert (a + c)[..|a + c| - 1] == a + c[..n];
      ValConcat(a, c[..n], b);
      ConcatAlgebra(Val(a, b), Pow(b, n), Val(c[..n], b), b, c[n]);
    } else {
      assert a + c == a;
    }
  }

  /** Splitting a string after its first digit. */
  lemma ValCons(s: seq<nat>, b: nat)
    requires |s| > 0
    ensures Val(s, b) == s[0] * Pow(b, |s| - 1) + Val(s[1..], b)
  {
    assert s == [s[0]] + s[1..];
    ValConcat([s[0]], s[1..], b);
    assert Val([s[0]], b) == Val([], b) * b + s[0];
  }

  /** A string of digits below b has a value below b^|s|. */
  lemma {:induction false} ValBound(s: seq<nat>, b: nat)
    requires forall i | 0 <= i < |s| :: s[i] < b
    ensures Val(s, b) < Pow(b, |s|)
  {
    if |s| > 0 {
      var n := |s| - 1;
      var v := Val(s[..n], b);
      ValBound(s[..n], b);
      MulLe(v + 1, b, Pow(b, n), b);
      assert Val(s, b) == v * b + s[n];
      assert (v + 1) * b == v * b + b;
    }
  }

  /** The largest string of n digits, all b-1, is worth b^n - 1. */
  lemma {:induction false} ValAllMax(s: seq<nat>, b: nat)
    requires b >= 1
    requires forall i | 0 <= i < |s| :: s[i] == b - 1
    ensures Val(s, b) == Pow(b, |s|) - 1
  {
    if |s| > 0 {
      var n := |s| - 1;
      ValAllMax(s[..n], b);
      MulAddRight(Pow(b, n), -1, b);
    }
  }

  /** Leading zero digits do not change the value. */
  lemma {:induction false} ValZeroPrefix(s: seq<nat>, b: nat, z: nat)
    requires z <= |s|
    requires forall i | 0 <= i < z :: s[i] == 0
    ensures Val(s, b) == Val(s[z..], b)
  {
    assert s == s[..z] + s[z..];
    ValConcat(s[..z], s[z..], b);
    ValAllZero(s[..z], b);
  }

  lemma {:induction false} ValAllZero(s: seq<nat>, b: nat)
    requires forall i | 0 <= i < |s| :: s[i] == 0
    ensures Val(s, b) == 0
  {
    if |s| > 0 {
      ValAllZero(s[..|s| - 1], b);
    }
  }

  /** A nonzero digit at position k forces the value up to b^(|s|-1-k). */
  lemma {:induction false} ValLowerBound(s: seq<nat>, b: nat, k: nat)
    requires 1 <= b && k < |s| && s[k] != 0
    ensures Val(s, b) >= Pow(b, |s| - 1 - k)
  {
    var t := s[k..];
    var w := Pow(b, |t| - 1);
    ValCons(t, b);
    MulLe(1, w, t[0], w);
    assert Val(t, b) >= w;
    ValSuffix(s, b, k);
    assert |t| - 1 == |s| - 1 - k;
  }

  /** A suffix of a digit string is worth no more than the whole string. */
  lemma ValSuffix(s: seq<nat>, b: nat, k: nat)
    requires k <= |s|
    ensures Val(s[k..], b) <= Val(s, b)
  {
    assert s == s[..k] + s[k..];
    ValConcat(s[..k], s[k..], b);
    MulLe(0, 0, Val(s[..k], b), Pow(b, |s[k..]|));
  }

  /** The value split around the digit at position p. */
  lemma ValSplitAt(s: seq<nat>, b: nat, p: nat)
    requires p < |s|
    ensures Val(s, b) == Val(s[..p], b) * Pow(b, |s| - p) + s[p] * Pow(b, |s| - 1 - p) + Val(s[p + 1..], b)
  {
    assert s == s[..p] + s[p..];
    ValConcat(s[..p], s[p..], b);
    ValCons(s[p..], b);
    assert s[p..][1..] == s[p + 1..];
  }

  /** Adding d to the digit at position p adds d * b^(|s|-1-p) to the value. */
  lemma ValUpdate(s: seq<nat>, b: nat, p: nat, d: int)
    requires p < |s| && s[p] + d >= 0
    ensures Val(s[p := s[p] + d], b) == Val(s, b) + d * Pow(b, |s| - 1 - p)
  {
    var t := s[p := s[p] + d];
    ValSplitAt(s, b, p);
    ValSplitAt(t, b, p);
    assert t[..p] == s[..p] && t[p + 1..] == s[p + 1..];
    MulAddRight(s[p], d, Pow(b, |s| - 1 - p));
  }

  lemma MulAddRight(a: int, d: int, w: int)
    ensures (a + d) * w == a * w + d * w
  {
  }

  /**
    One carry step in base r: the digit at p keeps its remainder modulo r
    and hands its quotient to the digit at p-1.  The value is unchanged.
  */
  lemma CarryStep(s: seq<nat>, r: nat, p: nat)
    requires 0 < p < |s| && r > 0
    ensures Val(s[p - 1 := s[p - 1] + s[p] / r][p := s[p] % r], r) == Val(s, r)
  {
    var q, m := s[p] / r, s[p] % r;
    var e := |s| - 1 - p;
    var s1 := s[p - 1 := s[p - 1] + q];
    ValUpdate(s, r, p - 1, q);
    assert |s| - 1 - (p - 1) == e + 1;
    ValUpdate(s1, r, p, m - s[p]);
    assert s1[p := s1[p] + (m - s[p])] == s1[p := m];
    CarryAlgebra(s[p], r, q, m, Pow(r, e));
  }

  lemma CarryAlgebra(x: int, r: int, q: int, m: int, w: int)
    requires x == q * r + m
    ensures q * (r * w) + (m - x) * w == 0
  {
  }

  lemma ConcatAlgebra(x: int, w: int, y: int, b: int, d: int)
    ensures (x * w + y) * b + d == x * (b * w) + (y * b + d)
  {
  }

  // ---------------------------------------------------------------------
  // Leading zeros

  /** The number of zero digits before the first nonzero digit of s. */
  function LeadingZeros(s: seq<int>): (n: nat)
    ensures n <= |s|
    ensures forall i | 0 <= i < n :: s[i] == 0
    ensures n < |s| ==> s[n] != 0
  {
    if |s| == 0 || s[0] != 0 then 0 else 1 + LeadingZeros(s[1..])
  }

  /** The three properties of LeadingZeros determine it. */
  lemma {:induction false} LeadingZerosUnique(s: seq<int>, n: nat)
    requires n <= |s|
    requires forall i | 0 <= i < n :: s[i] == 0
    requires n < |s| ==> s[n] != 0
    ensures LeadingZeros(s) == n
  {
    if |s| > 0 && s[0] == 0 {
      assert n > 0;
      LeadingZerosUnique(s[1..], n - 1);
    }
  }

  /**
    A digit string whose value is below b^(|s|-z) starts with at least z
    zero digits.
  */
  lemma {:induction false} LeadingZerosFromBound(s: seq<nat>, b: nat, z: nat)
    requires 1 <= b && z <= |s|
    requires Val(s, b) < Pow(b, |s| - z)
    ensures LeadingZeros(s) >= z
  {
    var n := LeadingZeros(s);
    if n < z {
      ValLowerBound(s, b, n);
      PowLeExp(b, |s| - z, |s| - 1 - n);
    }
  }

  /** A string with z leading zero digits (below b) has a value below b^(|s|-z). */
  lemma {:induction false} BoundFromLeadingZeros(s: seq<nat>, b: nat, z: nat)
    requires z <= |s|
    requires forall i | 0 <= i < |s| :: s[i] < b
    requires forall i | 0 <= i < z :: s[i] == 0
    ensures Val(s, b) < Pow(b, |s| - z)
  {
    ValZeroPrefix(s, b, z);
    ValBound(s[z..], b);
  }

  function Zeros(n: nat): (z: seq<nat>)
    ensures |z| == n && forall i | 0 <= i < n :: z[i] == 0
  {
    seq(n, _ => 0)
  }

  // ---------------------------------------------------------------------
  // Slices of buffers written front to back

  /** A prefix that is kept, followed by a block just written, is the longer prefix. */
  lemma PrefixStep<T>(cur: seq<T>, prev: seq<T>, lo: nat, hi: nat, d: seq<T>)
    requires lo <= hi <= |cur| == |prev|
    requires cur[..lo] == prev[..lo] && cur[lo..hi] == d
    ensures cur[..hi] == prev[..lo] + d
  {
    assert cur[..hi] == cur[..lo] + cur[lo..hi];
  }

  // ---------------------------------------------------------------------
  // Digit expansions

  /** The shortest base-b expansion of x: empty for 0, no leading zero otherwise. */
  function Digits(x: nat, b: nat): (d: seq<nat>)
    requires b >= 2
    ensures Val(d, b) == x
    ensures forall i | 0 <= i < |d| :: d[i] < b
    ensures |d| > 0 ==> d[0] != 0
    decreases x
  {
    if x == 0 then []
    else
      var q, r := x / b, x % b;
      DivStep(x, b);
      var d := Digits(q, b) + [r];
      assert d[..|d| - 1] == Digits(q, b);
      d
  }

  /** One step of the expansion: x is q * b + r with q < x, and r == x when q == 0. */
  lemma DivStep(x: nat, b: nat)
    requires x > 0 && b >= 2
    ensures x == (x / b) * b + x % b && x % b < b && x / b < x
    ensures x / b == 0 ==> x % b == x
  {
    var q, r := x / b, x % b;
    DivModBasic(x, b);
    MulMono(1, b, q);
  }

  /** A digit string below b without a leading zero is the shortest expansion of its value. */
  lemma {:induction false} DigitsUnique(d: seq<nat>, b: nat)
    requires b >= 2
    requires forall i | 0 <= i < |d| :: d[i] < b
    requires |d| > 0 ==> d[0] != 0
    ensures Digits(Val(d, b), b) == d
  {
    if |d| > 0 {
      var n := |d| - 1;
      var prefix := d[..n];
      var x := Val(d, b);
      ValLowerBound(d, b, 0);
      assert x == Val(prefix, b) * b + d[n];
      DivMod(x, b, Val(prefix, b), d[n]);
      assert Digits(x, b) == Digits(Val(prefix, b), b) + [d[n]];
      if n > 0 {
        DigitsUnique(prefix, b);
      } else {
        assert prefix == [];
      }
      assert d == prefix + [d[n]];
    }
  }

  /** The n-digit base-b expansion of x (x mod b^n). */
  function DigitsN(x: nat, b: nat, n: nat): (d: seq<nat>)
    requires b >= 2
    ensures |d| == n
    ensures forall i | 0 <= i < n :: d[i] < b
    ensures Val(d, b) == x % Pow(b, n)
  {
    if n == 0 then []
    else
      var d := DigitsN(x / b, b, n - 1) + [x % b];
      assert d[..n - 1] == DigitsN(x / b, b, n - 1);
      DivModPow(x, b, n - 1);
      d
  }

  lemma DivModPow(x: nat, b: nat, n: nat)
    requires b >= 2
    ensures (x / b) % Pow(b, n) * b + x % b == x % Pow(b, n + 1)
  {
    DivModStep(x, b, Pow(b, n));
  }

  /** x mod (p*b) from x/b mod p and x mod b. */
  lemma DivModStep(x: nat, b: nat, p: nat)
    requires b >= 2 && p > 0
    ensures (x / b) % p * b + x % b == x % (p * b)
  {
    var q := x / b;
    var hi, lo := q / p, q % p * b + x % b;
    DivModBasic(x, b);
    DivModBasic(q, p);
    Regroup(hi, p, q % p, b, x % b);
    MulMono(q % p, p - 1, b);
    Distrib1(p - 1, b);
    DivMod(x, p * b, hi, lo);
  }

  lemma DivModBasic(x: nat, m: nat)
    requires m > 0
    ensures x == (x / m) * m + x % m && x % m < m
  {
  }

  lemma Regroup(h: int, p: int, r: int, b: int, c: int)
    ensures (h * p + r) * b + c == h * (p * b) + (r * b + c)
  {
  }

  /** Euclidean division is unique: the quotient and remainder are determined. */
  lemma DivMod(x: nat, m: nat, q: nat, r: nat)
    requires m > 0 && r < m && x == q * m + r
    ensures x / m == q && x % m == r
  {
    var q', r' := x / m, x % m;
    assert x == q' * m + r';
    MulMono(q' + 1, q, m);
    MulMono(q + 1, q', m);
    Distrib1(q', m);
    Distrib1(q, m);
  }

  lemma MulMono(a: int, c: int, m: nat)
    ensures a <= c ==> a * m <= c * m
  {
  }

  lemma Distrib1(a: int, m: int)
    ensures (a + 1) * m == a * m + m
  {
  }

  /** Dividing by a and then by c is dividing by a * c. */
  lemma DivDiv(x: nat, a: nat, c: nat)
    requires a > 0 && c > 0
    ensures x / a / c == x / (a * c)
  {
    var q1, r1 := x / a, x % a;
    var q2, r2 := q1 / c, q1 % c;
    DivModBasic(x, a);
    DivModBasic(q1, c);
    Regroup(q2, c, r2, a, r1);
    MulMono(r2, c - 1, a);
    Distrib1(c - 1, a);
    DivMod(x, a * c, q2, r2 * a + r1);
  }

  /** Digit j of the n-digit expansion of x is x / b^(n-1-j) modulo b. */
  lemma {:induction false} DigitsNDiv(x: nat, b: nat, n: nat, j: nat)
    requires b >= 2 && j < n
    ensures DigitsN(x, b, n)[j] == x / Pow(b, n - 1 - j) % b
    decreases n
  {
    var d := DigitsN(x / b, b, n - 1);
    assert DigitsN(x, b, n) == d + [x % b];
    if j < n - 1 {
      var p := Pow(b, n - 2 - j);
      assert Pow(b, n - 1 - j) == b * p;
      DigitsNDiv(x / b, b, n - 1, j);
      DivDiv(x, b, p);
    } else {
      assert Pow(b, n - 1 - j) == 1;
    }
  }

  /** An n-digit string below b is the n-digit expansion of its value. */
  lemma {:induction false} DigitsNUnique(d: seq<nat>, b: nat)
    requires b >= 2
    requires forall i | 0 <= i < |d| :: d[i] < b
    ensures DigitsN(Val(d, b), b, |d|) == d
  {
    if |d| > 0 {
      var n := |d| - 1;
      var x := Val(d, b);
      DivMod(x, b, Val(d[..n], b), d[n]);
      DigitsNUnique(d[..n], b);
      assert d == d[..n] + [d[n]];
    }
  }

  // ---------------------------------------------------------------------
  // Regrouping digits

  /**
    Reading every g consecutive base-b digits as one base-b^g digit keeps
    the value: this is how bytes become 32-bit limbs (g = 4, b = 256) and
    how base-58 digits become base-58^5 intermediates (g = 5, b = 58).
  */
  lemma {:induction false} ValGroups(s: seq<nat>, b: nat, g: nat, t: seq<nat>)
    requires |s| == g * |t|
    requires forall i | 0 <= i < |t| :: g * i + g <= |s| && t[i] == Val(s[g * i .. g * i + g], b)
    ensures Val(t, Pow(b, g)) == Val(s, b)
  {
    if |t| > 0 {
      var n := |t| - 1;
      var cut := g * n;
      assert g * |t| == cut + g;
      var s' := s[..cut];
      assert s == s' + s[cut..];
      forall i | 0 <= i < n
        ensures g * i + g <= |s'| && t[..n][i] == Val(s'[g * i .. g * i + g], b)
      {
        MulLe(g, i + 1, g, n);
        assert s'[g * i .. g * i + g] == s[g * i .. g * i + g];
      }
      ValGroups(s', b, g, t[..n]);
      ValConcat(s', s[cut..], b);
      assert s[cut..] == s[g * n .. g * n + g];
    }
  }

  /**
    The converse direction: each base-b^g digit of t written as its g
    base-b digits, most significant first (limbs back to bytes,
    intermediates to base-58 digits).
  */
  function Ungroup(t: seq<nat>, b: nat, g: nat): (s: seq<nat>)
    requires b >= 2
    ensures |s| == g * |t|
    ensures forall q | 0 <= q < |s| :: s[q] < b
  {
    if |t| == 0 then []
    else
      var s' := Ungroup(t[..|t| - 1], b, g);
      assert |s'| + g == g * |t|;
      s' + DigitsN(t[|t| - 1], b, g)
  }

  /** Ungrouping one more entry appends its g digits. */
  lemma UngroupSnoc(t: seq<nat>, b: nat, g: nat, i: nat)
    requires b >= 2 && i < |t|
    ensures Ungroup(t[..i + 1], b, g) == Ungroup(t[..i], b, g) + DigitsN(t[i], b, g)
  {
    assert t[..i + 1][..i] == t[..i];
  }

  /** Ungrouping digits that are below b^g keeps the value. */
  lemma {:induction false} UngroupVal(t: seq<nat>, b: nat, g: nat)
    requires b >= 2
    requires forall p | 0 <= p < |t| :: t[p] < Pow(b, g)
    ensures Val(Ungroup(t, b, g), b) == Val(t, Pow(b, g))
  {
    if |t| > 0 {
      var n := |t| - 1;
      UngroupVal(t[..n], b, g);
      ValConcat(Ungroup(t[..n], b, g), DigitsN(t[n], b, g), b);
      DivMod(t[n], Pow(b, g), 0, t[n]);
    }
  }

  // ---------------------------------------------------------------------
  // Radix-conversion tables

  /** t is a table with `cols` columns in every row. */
  ghost predicate IsTable(t: seq<seq<nat>>, cols: nat)
  {
    forall i | 0 <= i < |t| :: |t[i]| == cols
  }

  /** Sum over the rows lo..hi-1 of v[i] * t[i][k]. */
  function Combo(v: seq<nat>, t: seq<seq<nat>>, lo: nat, hi: nat, k: nat): nat
    requires lo <= hi <= |v| && hi <= |t|
    requires forall i | lo <= i < hi :: k < |t[i]|
    decreases hi - lo
  {
    if hi == lo then 0 else Combo(v, t, lo, hi - 1, k) + v[hi - 1] * t[hi - 1][k]
  }

  /** Sum over the rows lo..hi-1 of column k of t. */
  function ColSum(t: seq<seq<nat>>, lo: nat, hi: nat, k: nat): nat
    requires lo <= hi <= |t|
    requires forall i | lo <= i < hi :: k < |t[i]|
    decreases hi - lo
  {
    if hi == lo then 0 else ColSum(t, lo, hi - 1, k) + t[hi - 1][k]
  }

  /** With every multiplier at most m, a combination is at most m times the column sum. */
  lemma {:induction false} ComboBound(v: seq<nat>, t: seq<seq<nat>>, lo: nat, hi: nat, k: nat, m: nat)
    requires lo <= hi <= |v| && hi <= |t|
    requires forall i | lo <= i < hi :: k < |t[i]|
    requires forall i | lo <= i < hi :: v[i] <= m
    ensures Combo(v, t, lo, hi, k) <= m * ColSum(t, lo, hi, k)
    decreases hi - lo
  {
    if hi > lo {
      ComboBound(v, t, lo, hi - 1, k, m);
      MulLe(v[hi - 1], t[hi - 1][k], m, t[hi - 1][k]);
    }
  }

  /** Column sums only grow as rows are added. */
  lemma {:induction false} ColSumMono(t: seq<seq<nat>>, lo: nat, mid: nat, hi: nat, k: nat)
    requires lo <= mid <= hi <= |t|
    requires forall i | lo <= i < hi :: k < |t[i]|
    ensures ColSum(t, lo, mid, k) <= ColSum(t, lo, hi, k)
    decreases hi - mid
  {
    if mid < hi {
      ColSumMono(t, lo, mid, hi - 1, k);
    }
  }

  lemma {:induction false} ColSumSplit(t: seq<seq<nat>>, lo: nat, mid: nat, hi: nat, k: nat)
    requires lo <= mid <= hi <= |t|
    requires forall i | lo <= i < hi :: k < |t[i]|
    ensures ColSum(t, lo, hi, k) == ColSum(t, lo, mid, k) + ColSum(t, mid, hi, k)
    decreases hi - mid
  {
    if mid < hi {
      ColSumSplit(t, lo, mid, hi - 1, k);
    }
  }

  lemma {:induction false} ComboSplit(v: seq<nat>, t: seq<seq<nat>>, lo: nat, mid: nat, hi: nat, k: nat)
    requires lo <= mid <= hi <= |v| && hi <= |t|
    requires forall i | lo <= i < hi :: k < |t[i]|
    ensures Combo(v, t, lo, hi, k) == Combo(v, t, lo, mid, k) + Combo(v, t, mid, hi, k)
    decreases hi - mid
  {
    if mid < hi {
      ComboSplit(v, t, lo, mid, hi - 1, k);
    }
  }

  /** The row of column combinations Combo(v, t, 0, n, k) for k < cols. */
  function ComboRow(v: seq<nat>, t: seq<seq<nat>>, n: nat, cols: nat): (r: seq<nat>)
    requires n <= |v| && n <= |t| && IsTable(t, cols)
    ensures |r| == cols && forall k | 0 <= k < cols :: r[k] == Combo(v, t, 0, n, k)
  {
    seq(cols, k requires 0 <= k < cols => Combo(v, t, 0, n, k))
  }

  /** Val is linear: adding m times another string adds m times its value. */
  lemma {:induction false} ValAddScaled(a: seq<nat>, c: seq<nat>, m: nat, r: seq<nat>, b: nat)
    requires |a| == |c| == |r|
    requires forall k | 0 <= k < |r| :: r[k] == a[k] + m * c[k]
    ensures Val(r, b) == Val(a, b) + m * Val(c, b)
  {
    if |r| > 0 {
      var n := |r| - 1;
      ValAddScaled(a[..n], c[..n], m, r[..n], b);
      var A, C := Val(a[..n], b), Val(c[..n], b);
      assert Val(r, b) == (A + m * C) * b + (a[n] + m * c[n]);
      LinearStep(A, C, m, b, a[n], c[n]);
      assert Val(a, b) == A * b + a[n];
      assert Val(c, b) == C * b + c[n];
    }
  }

  lemma ShiftAlgebra(x: int, d: int, r: int, w: int)
    ensures x * (r * w) + d * w == (x * r + d) * w
  {
  }

  lemma LinearStep(A: int, C: int, m: int, b: int, x: int, y: int)
    ensures (A + m * C) * b + (x + m * y) == (A * b + x) + m * (C * b + y)
  {
  }

  /**
    Exchange of summation for a radix table: when row i of t, read in base
    b, is worth R^(|v|-1-i), the column combinations of the first n rows,
    read in base b, are worth v[..n] read in base R, shifted by R^(|v|-n).
  */
  lemma {:induction false} ComboRowVal(v: seq<nat>, t: seq<seq<nat>>, n: nat, cols: nat, b: nat, R: nat)
    requires n <= |v| == |t| && IsTable(t, cols)
    requires forall i | 0 <= i < |t| :: Val(t[i], b) == Pow(R, |v| - 1 - i)
    ensures Val(ComboRow(v, t, n, cols), b) == Val(v[..n], R) * Pow(R, |v| - n)
  {
    if n == 0 {
      ValAllZero(ComboRow(v, t, 0, cols), b);
    } else {
      var m := n - 1;
      ComboRowVal(v, t, m, cols, b, R);
      ValAddScaled(ComboRow(v, t, m, cols), t[m], v[m], ComboRow(v, t, n, cols), b);
      ValSnoc(v, R, m);
      PowAdd(R, 1, |v| - n);
      assert Pow(R, |v| - m) == R * Pow(R, |v| - n);
      ShiftAlgebra(Val(v[..m], R), v[m], R, Pow(R, |v| - n));
    }
  }

  /** The row of column combinations Combo(v, t, lo, hi, k) for k < cols. */
  function ComboRange(v: seq<nat>, t: seq<seq<nat>>, lo: nat, hi: nat, cols: nat): (r: seq<nat>)
    requires lo <= hi <= |v| && hi <= |t| && IsTable(t, cols)
    ensures |r| == cols && forall k | 0 <= k < cols :: r[k] == Combo(v, t, lo, hi, k)
  {
    seq(cols, k requires 0 <= k < cols => Combo(v, t, lo, hi, k))
  }

  /**
    The rows lo..hi-1 of a radix table add v[lo..hi] to the value: what the
    first lo rows contribute plus what rows lo..hi-1 contribute is what the
    first hi rows contribute.
  */
  lemma ComboRangeVal(v: seq<nat>, t: seq<seq<nat>>, lo: nat, hi: nat, cols: nat, b: nat, R: nat)
    requires lo <= hi <= |v| == |t| && IsTable(t, cols)
    requires forall i | 0 <= i < |t| :: Val(t[i], b) == Pow(R, |v| - 1 - i)
    ensures Val(v[..lo], R) * Pow(R, |v| - lo) + Val(ComboRange(v, t, lo, hi, cols), b)
         == Val(v[..hi], R) * Pow(R, |v| - hi)
  {
    var first, range, all := ComboRow(v, t, lo, cols), ComboRange(v, t, lo, hi, cols), ComboRow(v, t, hi, cols);
    forall k | 0 <= k < cols
      ensures all[k] == first[k] + 1 * range[k]
    {
      ComboSplit(v, t, 0, lo, hi, k);
    }
    ValAddScaled(first, range, 1, all, b);
    ComboRowVal(v, t, lo, cols, b, R);
    ComboRowVal(v, t, hi, cols, b, R);
  }

  /**
    The row identities of a table follow from its last row being worth 1
    and each row being worth R times the next one.
  */
  lemma {:induction false} RowPowers(t: seq<seq<nat>>, b: nat, R: nat, i: nat)
    requires i < |t|
    requires Val(t[|t| - 1], b) == 1
    requires forall j | 0 <= j < |t| - 1 :: Val(t[j], b) == R * Val(t[j + 1], b)
    ensures Val(t[i], b) == Pow(R, |t| - 1 - i)
    decreases |t| - i
  {
    if i < |t| - 1 {
      RowPowers(t, b, R, i + 1);
    }
  }
}
