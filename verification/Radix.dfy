/** Positional numerals in any base, most significant digit first. */
module Radix {
  import opened Arithmetic

  ghost predicate Below(ds: seq<nat>, base: nat) {
    forall i :: 0 <= i < |ds| ==> ds[i] < base
  }

  function FromDigits(ds: seq<nat>, base: nat): nat {
    if ds == [] then 0 else FromDigits(ds[..|ds| - 1], base) * base + ds[|ds| - 1]
  }

  function ToDigits(n: nat, base: nat): (ds: seq<nat>)
    requires base >= 2
    ensures Below(ds, base)
    ensures n == 0 <==> ds == []
    ensures ds != [] ==> ds[0] != 0
  {
    if n == 0 then [] else
      DivShrinks(n, base);
      ToDigits(n / base, base) + [n % base]
  }

  function Zeros(k: nat): (ds: seq<nat>)
    ensures |ds| == k
  {
    seq(k, i => 0)
  }

  function LeadingZeros(ds: seq<nat>): (k: nat)
    ensures k <= |ds| && ds[..k] == Zeros(k)
    ensures forall i :: 0 <= i < k ==> ds[i] == 0
    ensures k < |ds| ==> ds[k] != 0
  {
    if ds == [] || ds[0] != 0 then 0
    else
      var k := LeadingZeros(ds[1..]);
      assert ds[..k + 1] == [ds[0]] + ds[1..][..k];
      1 + k
  }

  lemma FromDigitsSnoc(ds: seq<nat>, d: nat, base: nat)
    ensures FromDigits(ds + [d], base) == FromDigits(ds, base) * base + d
  {
    assert (ds + [d])[..|ds|] == ds;
  }

  lemma ToDigitsSnoc(n: nat, d: nat, base: nat)
    requires base >= 2 && d < base && n + d > 0
    ensures ToDigits(n * base + d, base) == ToDigits(n, base) + [d]
  {
    DivUnique(n * base + d, base, n, d);
    MulMono(1, base, n);
  }

  lemma FromToStep(n: nat, q: nat, r: nat, base: nat)
    requires base >= 2 && r < base && n > 0 && n == q * base + r
    requires FromDigits(ToDigits(q, base), base) == q
    ensures FromDigits(ToDigits(n, base), base) == n
  {
    assert q + r > 0;
    ToDigitsSnoc(q, r, base);
    FromDigitsSnoc(ToDigits(q, base), r, base);
  }

  lemma {:induction false} FromTo(n: nat, base: nat)
    requires base >= 2
    ensures FromDigits(ToDigits(n, base), base) == n
  {
    if n > 0 {
      DivShrinks(n, base);
      var q, r := DivMod(n, base);
      FromTo(q, base);
      FromToStep(n, q, r, base);
    }
  }

  lemma ToFromStep(front: seq<nat>, last: nat, base: nat)
    requires base >= 2 && last < base && (front == [] ==> last != 0)
    requires ToDigits(FromDigits(front, base), base) == front
    ensures ToDigits(FromDigits(front + [last], base), base) == front + [last]
  {
    FromDigitsSnoc(front, last, base);
    ToDigitsSnoc(FromDigits(front, base), last, base);
  }

  /** A numeral without leading zeros is the numeral of its value. */
  lemma {:induction false} ToFrom(ds: seq<nat>, base: nat)
    requires base >= 2 && Below(ds, base)
    requires ds != [] ==> ds[0] != 0
    ensures ToDigits(FromDigits(ds, base), base) == ds
  {
    if ds != [] {
      var front, last := ds[..|ds| - 1], ds[|ds| - 1];
      ToFrom(front, base);
      assert ds == front + [last];
      assert front != [] ==> front[0] == ds[0];
      ToFromStep(front, last, base);
    }
  }

  lemma {:induction false} LeadingZerosWeightless(k: nat, ds: seq<nat>, base: nat)
    ensures FromDigits(Zeros(k) + ds, base) == FromDigits(ds, base)
  {
    var all := Zeros(k) + ds;
    if ds != [] {
      assert all[..|all| - 1] == Zeros(k) + ds[..|ds| - 1];
      LeadingZerosWeightless(k, ds[..|ds| - 1], base);
    } else if k > 0 {
      assert all[..|all| - 1] == Zeros(k - 1) + [];
      LeadingZerosWeightless(k - 1, [], base);
    }
  }

  // ---------------------------------------------------------- changing bases

  /** The numeral in base q with the same value and the same number of leading zeros. */
  function Convert(ds: seq<nat>, p: nat, q: nat): (es: seq<nat>)
    requires q >= 2
    ensures Below(es, q)
  {
    Zeros(LeadingZeros(ds)) + ToDigits(FromDigits(ds, p), q)
  }

  lemma {:induction false} LeadingZerosOf(k: nat, ds: seq<nat>)
    requires ds != [] ==> ds[0] != 0
    ensures LeadingZeros(Zeros(k) + ds) == k
  {
    if k > 0 {
      LeadingZerosOf(k - 1, ds);
      assert (Zeros(k) + ds)[1..] == Zeros(k - 1) + ds;
    }
  }

  /** Converting to another base and back gives the same numeral, leading zeros and all. */
  lemma ConvertBack(ds: seq<nat>, p: nat, q: nat)
    requires p >= 2 && q >= 2 && Below(ds, p)
    ensures Convert(Convert(ds, p, q), q, p) == ds
    ensures LeadingZeros(Convert(ds, p, q)) == LeadingZeros(ds)
    ensures Convert(ds, p, q) == [] <==> ds == []
  {
    var z, n := LeadingZeros(ds), FromDigits(ds, p);
    var significant := ds[z..];
    assert ds == Zeros(z) + significant;
    LeadingZerosWeightless(z, significant, p);
    ToFrom(significant, p);
    BackAgain(z, n, q);
  }

  lemma BackAgain(z: nat, n: nat, q: nat)
    requires q >= 2
    ensures LeadingZeros(Zeros(z) + ToDigits(n, q)) == z
    ensures FromDigits(Zeros(z) + ToDigits(n, q), q) == n
  {
    LeadingZerosOf(z, ToDigits(n, q));
    LeadingZerosWeightless(z, ToDigits(n, q), q);
    FromTo(n, q);
  }

  // ------------------------------------------------------------------ lengths

  function Pow(base: nat, k: nat): nat {
    if k == 0 then 1 else base * Pow(base, k - 1)
  }

  /** n has at most k digits exactly when it is below base^k. */
  lemma {:induction false} DigitCount(n: nat, base: nat, k: nat)
    requires base >= 2
    ensures |ToDigits(n, base)| <= k <==> n < Pow(base, k)
  {
    if n > 0 {
      DivShrinks(n, base);
      if k > 0 {
        DigitCount(n / base, base, k - 1);
        DivBelow(n, base, Pow(base, k - 1));
      }
    } else {
      PowPositive(base, k);
    }
  }

  lemma {:induction false} PowPositive(base: nat, k: nat)
    requires base >= 1
    ensures Pow(base, k) >= 1
  {
    if k > 0 {
      PowPositive(base, k - 1);
      MulMono(1, base, Pow(base, k - 1));
    }
  }

  lemma {:induction false} PowMono(base: nat, j: nat, k: nat)
    requires base >= 1 && j <= k
    ensures Pow(base, j) <= Pow(base, k)
  {
    if j < k {
      PowMono(base, j, k - 1);
      PowPositive(base, k - 1);
      MulMono(1, base, Pow(base, k - 1));
    }
  }

  lemma {:induction false} PowAdd(base: nat, j: nat, k: nat)
    ensures Pow(base, j + k) == Pow(base, j) * Pow(base, k)
  {
    if j > 0 {
      PowAdd(base, j - 1, k);
      assert base * (Pow(base, j - 1) * Pow(base, k)) == base * Pow(base, j - 1) * Pow(base, k);
    }
  }

  /** If i digits in base p never need more than j in base q, then i * c never need more than j * c. */
  lemma {:induction false} PowBlocks(p: nat, i: nat, q: nat, j: nat, c: nat)
    requires Pow(p, i) <= Pow(q, j)
    ensures Pow(p, i * c) <= Pow(q, j * c)
  {
    if c > 0 {
      PowBlocks(p, i, q, j, c - 1);
      assert i * c == i + i * (c - 1) && j * c == j + j * (c - 1);
      PowAdd(p, i, i * (c - 1));
      PowAdd(q, j, j * (c - 1));
      var a, b := Pow(p, i * (c - 1)), Pow(q, j * (c - 1));
      MulMono(Pow(p, i), Pow(q, j), a);
      MulMono(a, b, Pow(q, j));
    }
  }

  /** A numeral of m significant digits has a value below base^m. */
  lemma {:induction false} ValueBound(ds: seq<nat>, base: nat)
    requires Below(ds, base) && base >= 1
    ensures FromDigits(ds, base) < Pow(base, |ds|)
  {
    if ds != [] {
      var front, last := ds[..|ds| - 1], ds[|ds| - 1];
      ValueBound(front, base);
      BelowNext(FromDigits(front, base), last, base, Pow(base, |front|));
    }
  }

  lemma BelowNext(v: nat, d: nat, base: nat, p: nat)
    requires v < p && d < base
    ensures v * base + d < base * p
  {
    MulMono(v + 1, p, base);
  }
}
