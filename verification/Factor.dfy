/** factor: Dijkstra's smallest-factor algorithm over a mixed-radix digit array. */
module Factor {

  /** f (f+1) ... (f+k-1), the weight of digit k in base f. */
  function Weight(f: nat, k: nat): nat {
    if k == 0 then 1 else Weight(f, k - 1) * (f + k - 1)
  }

  /** The weight of digit k while digits 0..i are already in base f and the later
      ones are still in base f - 1. */
  function MixedWeight(f: nat, i: nat, k: nat): nat
    requires f > 0
  {
    if k <= i then Weight(f, k) else Weight(f - 1, k)
  }

  /** What the first n digits stand for in that mixed state. */
  ghost function Mixed(v: seq<int>, f: nat, i: nat, n: nat): int
    requires n <= |v| && f > 0
  {
    if n == 0 then 0 else Mixed(v, f, i, n - 1) + v[n - 1] * MixedWeight(f, i, n - 1)
  }

  /** What the first n digits stand for in base f. */
  ghost function Value(v: seq<int>, f: nat, n: nat): int
    requires n <= |v|
  {
    if n == 0 then 0 else Value(v, f, n - 1) + v[n - 1] * Weight(f, n - 1)
  }

  ghost predicate Digits(v: seq<int>, f: nat, n: nat)
    requires n <= |v|
  {
    forall k :: 0 <= k < n ==> 0 <= v[k] < f + k
  }

  predicate Divides(d: int, n: int)
    requires d > 0
  {
    n % d == 0
  }

  ghost predicate NoDivisorBelow(n: nat, f: nat) {
    forall d :: 2 <= d < f ==> !Divides(d, n)
  }

  ghost predicate IsSmallestFactor(p: nat, n: nat) {
    2 <= p <= n && Divides(p, n) && NoDivisorBelow(n, p)
  }

  ghost predicate IsPrime(p: nat) {
    2 <= p && NoDivisorBelow(p, p)
  }

  // ---- Digit sums ----

  lemma {:induction false} WeightPositive(f: nat, k: nat)
    requires f > 0
    ensures Weight(f, k) > 0
  {
    if k > 0 {
      WeightPositive(f, k - 1);
    }
  }

  /** f(f+1)...(f+k-1) (f+k) == f ((f+1)...(f+k)) : moving to the next base. */
  lemma {:induction false} WeightShift(f: nat, k: nat)
    requires f > 0
    ensures Weight(f - 1, k + 1) == (f - 1) * Weight(f, k)
  {
    if k == 0 {
      assert Weight(f - 1, 1) == Weight(f - 1, 0) * (f - 1);
    } else {
      WeightShift(f, k - 1);
      calc {
        Weight(f - 1, k + 1);
        Weight(f - 1, k) * (f - 1 + k);
        (f - 1) * Weight(f, k - 1) * (f + k - 1);
        (f - 1) * (Weight(f, k - 1) * (f + k - 1));
      }
    }
  }

  lemma {:induction false} MixedUpdate(v: seq<int>, f: nat, i: nat, n: nat, a: nat, x: int)
    requires n <= |v| && f > 0 && a < |v|
    ensures Mixed(v[a := x], f, i, n) == Mixed(v, f, i, n) + if a < n then (x - v[a]) * MixedWeight(f, i, a) else 0
  {
    if n > 0 {
      MixedUpdate(v, f, i, n - 1, a, x);
      if a == n - 1 {
        Distribute(v[a], x - v[a], MixedWeight(f, i, a));
      }
    }
  }

  lemma Distribute(a: int, b: int, w: int)
    ensures (a + b) * w == a * w + b * w
  {
  }

  /** Moving the boundary past digit i + 1 changes only that digit's weight. */
  lemma {:induction false} MixedShift(v: seq<int>, f: nat, i: nat, n: nat)
    requires n <= |v| && f > 0
    ensures Mixed(v, f, i + 1, n) ==
            Mixed(v, f, i, n) + if i + 1 < n then v[i + 1] * ((i + 1) * Weight(f, i)) else 0
  {
    if n > 0 {
      MixedShift(v, f, i, n - 1);
      if n - 1 == i + 1 {
        WeightShift(f, i);
        assert Weight(f, i + 1) - Weight(f - 1, i + 1) == (i + 1) * Weight(f, i) by {
          assert Weight(f, i + 1) == Weight(f, i) * (f + i);
        }
        assert v[i + 1] * Weight(f, i + 1) == v[i + 1] * Weight(f - 1, i + 1) + v[i + 1] * ((i + 1) * Weight(f, i));
      }
    }
  }

  lemma {:induction false} MixedEnds(v: seq<int>, f: nat, i: nat, n: nat)
    requires n <= |v| && f > 0
    ensures n <= i + 1 ==> Mixed(v, f, i, n) == Value(v, f, n)
    ensures i == 0 ==> Mixed(v, f, i, n) == Value(v, f - 1, n)
  {
    if n > 0 {
      MixedEnds(v, f, i, n - 1);
    }
  }

  /** One step of the change of base: digit i takes j = i + 1 times digit j away. */
  lemma ReduceStep(v: seq<int>, f: nat, i: nat, n: nat)
    requires n <= |v| && f > 0 && i + 1 < n
    ensures Mixed(v[i := v[i] - (i + 1) * v[i + 1]], f, i + 1, n) == Mixed(v, f, i, n)
  {
    var w := v[i := v[i] - (i + 1) * v[i + 1]];
    MixedUpdate(v, f, i + 1, n, i, w[i]);
    MixedShift(v, f, i, n);
    assert (0 - (i + 1) * v[i + 1]) * Weight(f, i) == 0 - v[i + 1] * ((i + 1) * Weight(f, i));
  }

  /** One borrow from digit i + 1 to digit i. */
  lemma BorrowStep(v: seq<int>, f: nat, i: nat, n: nat)
    requires n <= |v| && f > 0 && i + 1 < n
    ensures Mixed(v[i := v[i] + (f + i)][i + 1 := v[i + 1] - 1], f, i + 1, n) == Mixed(v, f, i + 1, n)
  {
    var w := v[i := v[i] + (f + i)];
    MixedUpdate(v, f, i + 1, n, i, w[i]);
    MixedUpdate(w, f, i + 1, n, i + 1, v[i + 1] - 1);
    assert Weight(f, i + 1) == Weight(f, i) * (f + i);
    assert (f + i) * Weight(f, i) == Weight(f, i + 1);
  }

  /** Proper digits stand for less than the next weight. */
  lemma {:induction false} ValueBound(v: seq<int>, f: nat, n: nat)
    requires n <= |v| && f > 0 && Digits(v, f, n)
    ensures 0 <= Value(v, f, n) < Weight(f, n)
  {
    if n > 0 {
      ValueBound(v, f, n - 1);
      WeightPositive(f, n - 1);
      MulBounds(v[n - 1], f + n - 1, Weight(f, n - 1));
    }
  }

  lemma MulBounds(d: int, base: nat, w: nat)
    requires 0 <= d < base
    ensures 0 <= d * w && d * w + w <= w * base
  {
    assert d * w + w == (d + 1) * w;
    MulMonotone(d + 1, base, w);
  }

  lemma MulMonotone(a: nat, b: nat, w: nat)
    requires a <= b
    ensures a * w <= b * w
  {
  }

  /** The top digit cannot be negative when the others are proper and the value is not. */
  lemma TopDigit(v: seq<int>, f: nat, n: nat)
    requires n < |v| && f > 0 && Digits(v, f, n) && Value(v, f, n + 1) >= 0
    ensures v[n] >= 0
  {
    ValueBound(v, f, n);
    WeightPositive(f, n);
    if v[n] < 0 {
      assert v[n] * Weight(f, n) <= -1 * Weight(f, n) by {
        MulMonotone(1, -v[n], Weight(f, n));
      }
      assert false;
    }
  }

  /** The lowest digit is the remainder. */
  lemma {:induction false} ValueModBase(v: seq<int>, f: nat, n: nat) returns (q: int)
    requires 0 < n <= |v| && f > 0
    ensures Value(v, f, n) == v[0] + f * q
  {
    if n == 1 {
      q := 0;
      assert Value(v, f, 1) == Value(v, f, 0) + v[0] * Weight(f, 0);
    } else {
      var q' := ValueModBase(v, f, n - 1);
      var r := WeightMultiple(f, n - 1);
      q := q' + v[n - 1] * r;
      Multiples(f, q', v[n - 1], r);
    }
  }

  lemma Multiples(f: nat, a: int, b: int, c: int)
    ensures f * a + b * (f * c) == f * (a + b * c)
  {
    assert b * (f * c) == f * (b * c);
  }

  lemma {:induction false} WeightMultiple(f: nat, k: nat) returns (r: nat)
    requires k > 0
    ensures Weight(f, k) == f * r
  {
    if k == 1 {
      r := 1;
      assert Weight(f, 1) == Weight(f, 0) * f;
    } else {
      var r' := WeightMultiple(f, k - 1);
      r := r' * (f + k - 1);
      assert f * r' * (f + k - 1) == f * (r' * (f + k - 1));
    }
  }

  /** A value with a nonzero digit k is at least the weight of that digit. */
  lemma {:induction false} ValueAtLeast(v: seq<int>, f: nat, n: nat, k: nat)
    requires k < n <= |v| && f > 0 && Digits(v, f, n) && v[k] > 0
    ensures Value(v, f, n) >= Weight(f, k)
  {
    ValueBound(v, f, n - 1);
    WeightPositive(f, n - 1);
    MulBounds(v[n - 1], f + n - 1, Weight(f, n - 1));
    if k == n - 1 {
      MulMonotone(1, v[k], Weight(f, k));
    } else {
      ValueAtLeast(v, f, n - 1, k);
    }
  }

  lemma {:induction false} ValueSame(v: seq<int>, w: seq<int>, f: nat, n: nat)
    requires n <= |v| && n <= |w| && forall k :: 0 <= k < n ==> v[k] == w[k]
    ensures Value(v, f, n) == Value(w, f, n)
  {
    if n > 0 {
      ValueSame(v, w, f, n - 1);
    }
  }

  // ---- Divisibility ----

  lemma RemainderOf(n: nat, f: nat, r: nat, q: int)
    requires r < f && n == r + f * q
    ensures n % f == r
  {
    var d := n / f - q;
    assert f * d == r - n % f;
    if d > 0 {
      MulMonotone(1, d, f);
    } else if d < 0 {
      MulMonotone(1, -d, f);
    }
  }

  /** A number below (f+1)^2 with no divisor up to f is prime. */
  lemma NoSmallDivisorMeansPrime(n: nat, f: nat)
    requires n >= 2 && n < (f + 1) * (f + 1) && NoDivisorBelow(n, f + 1)
    ensures NoDivisorBelow(n, n)
  {
    forall d | 2 <= d < n
      ensures !Divides(d, n)
    {
      if Divides(d, n) {
        var e := n / d;
        assert n == d * e;
        Cofactor(n, d, e);
        assert Divides(e, n);
        LeastProduct(d, e, f + 1);
        assert false;
      }
    }
  }

  lemma LeastProduct(d: nat, e: nat, m: nat)
    requires d >= m && e >= m
    ensures d * e >= m * m
  {
    MulMonotone(m, d, m);
    MulMonotone(m, e, d);
  }

  lemma Cofactor(n: nat, d: nat, e: int)
    requires 2 <= d < n && n == d * e
    ensures 2 <= e < n && n % e == 0
  {
    if e <= 0 {
      MulMonotone(0, -e, d);
    }
    assert e != 1;
    MulMonotone(2, d, e);
    RemainderOf(n, e, 0, d);
  }

  // ---- The program ----

  const MAXINT := 0x7fff_ffff

  predicate Fits(x: int) {
    -0x8000_0000 <= x <= MAXINT
  }

  lemma SplitOff(x: nat, y: nat, w: nat)
    requires y > 0
    ensures x * w == (x % y) * w + x / y * (w * y)
    ensures 0 <= x / y && (x > 0 && y >= 2 ==> x / y < x)
  {
    var q, r := x / y, x % y;
    assert x == r + q * y;
    if y >= 2 {
      MulMonotone(2, y, q);
    }
    calc {
      x * w;
      (r + q * y) * w;
      r * w + (q * y) * w;
      r * w + q * (w * y);
    }
  }

  /** A 32-bit number has at most 12 digits: 13! does not fit. */
  lemma FewDigits(v: seq<int>, k: nat, x: nat, n: nat)
    requires k <= |v| && Digits(v, 2, k) && Value(v, 2, k) + x * Weight(2, k) == n && x > 0 && n <= MAXINT
    ensures k != 12
  {
    ValueBound(v, 2, k);
    MulMonotone(1, x, Weight(2, k));
    ThirteenFactorial();
  }

  lemma ThirteenFactorial()
    ensures Weight(2, 12) == 6227020800
  {
    assert Weight(2, 4) == 120;
    assert Weight(2, 6) == 5040;
    assert Weight(2, 8) == 362880;
    assert Weight(2, 10) == 39916800;
  }

  lemma {:induction false} WeightGrows(f: nat, k: nat)
    requires f > 0 && k >= 2
    ensures Weight(f, k) >= f * (f + 1)
  {
    if k == 2 {
      assert Weight(f, 1) == Weight(f, 0) * f;
      assert Weight(f, 2) == Weight(f, 1) * (f + 1);
    } else {
      WeightGrows(f, k - 1);
      WeightPositive(f, k - 1);
      MulMonotone(1, f + k - 1, Weight(f, k - 1));
    }
  }

  /** Three digits or more bound the base by the square root. */
  lemma SmallBase(v: seq<int>, f: nat, hib: nat, n: nat)
    requires 2 <= hib < |v| && f > 0 && Digits(v, f, hib + 1) && Value(v, f, hib + 1) == n && v[hib] > 0
    ensures f * (f + 1) <= n
    ensures n <= MAXINT ==> f < 46341
  {
    ValueAtLeast(v, f, hib + 1, hib);
    WeightGrows(f, hib);
    if f >= 46341 {
      MulMonotone(46341, f, f + 1);
      MulMonotone(46342, f + 1, 46341);
    }
  }

  lemma TwoDigits(v: seq<int>, f: nat, hib: nat, n: nat)
    requires hib <= 1 && hib < |v| && f > 0 && Digits(v, f, hib + 1) && Value(v, f, hib + 1) == n
    ensures n < (f + 1) * (f + 1)
  {
    ValueBound(v, f, hib + 1);
    assert Weight(f, 1) == Weight(f, 0) * f;
    assert Weight(f, 2) == Weight(f, 1) * (f + 1);
    MulMonotone(f, f + 1, f + 1);
    MulMonotone(1, f + 1, f);
  }

  class Factoring {
    var hib: int
    const val: array<int>

    constructor ()
      ensures val.Length == 24 && fresh(val)
    {
      val := new int[24];
      hib := -1;
    }

    /** The digits 0..hib represent n in base f. */
    ghost predicate Represents(n: nat, f: nat)
      reads this, val
    {
      0 <= hib < val.Length == 24 && f >= 2 && Digits(val[..], f, hib + 1) && Value(val[..], f, hib + 1) == n
    }

    /** Writes N in base 2: every digit array entry is within bounds for a 32-bit N. */
    method Initialise(N: nat)
      requires val.Length == 24 && 2 <= N <= MAXINT
      modifies this, val
      ensures Represents(N, 2) && hib < 12 && val[hib] > 0
    {
      hib := -1;
      var x, y := N, 2;
      while x != 0
        invariant x >= 0 && -1 <= hib < 12 && y == hib + 3
        invariant Digits(val[..], 2, hib + 1)
        invariant Value(val[..], 2, hib + 1) + x * Weight(2, hib + 1) == N
        invariant x == 0 ==> hib >= 0 && val[hib] > 0
        decreases x
      {
        FewDigits(val[..], hib + 1, x, N);
        ghost var was := val[..];
        hib := hib + 1;
        val[hib] := x % y;
        ValueSame(was, val[..], 2, hib);
        SplitOff(x, y, Weight(2, hib));
        x := x / y;
        y := y + 1;
      }
    }

    /** Digits 0..i - 1 are proper in base f, digit i is within one step of it, the
        rest are proper in base f - 1. */
    ghost predicate Between(N: nat, f: nat, i: nat)
      reads this, val
    {
      && 1 < hib < 12 && val.Length == 24 && 3 <= f <= 46341 && i <= hib
      && Digits(val[..], f, i) && val[i] + i >= 0 && val[i] < f + i
      && (forall k :: i < k <= hib ==> 0 <= val[k] < f - 1 + k)
      && Mixed(val[..], f, i, hib + 1) == N
    }

    /** Makes digit i proper in base f, borrowing from digit j = i + 1. */
    method ReduceDigit(f: nat, i: nat, ghost N: nat)
      requires i < hib && Between(N, f, i)
      modifies val
      ensures Between(N, f, i + 1)
    {
      var j := i + 1;
      ghost var was := val[..];
      ReduceBound(was[i], was[j], f, i);
      assert Fits(j * val[j]) && Fits(val[i] - j * val[j]);
      val[i] := val[i] - j * val[j];
      ReduceStep(was, f, i, hib + 1);
      assert val[..] == was[i := was[i] - j * was[j]];
      ghost var borrows: nat := 0;
      while val[i] < 0
        invariant val[i] < f + i && borrows <= j && val[j] == was[j] - borrows
        invariant forall k :: 0 <= k <= hib && k != i && k != j ==> val[k] == was[k]
        invariant Mixed(val[..], f, j, hib + 1) == N
        invariant val[i] >= 1 - Times(j - borrows, f + i)
        decreases -val[i]
      {
        ghost var before := val[..];
        BorrowStep(before, f, i, hib + 1);
        TimesStep(j - borrows, f + i);
        val[i] := val[i] + (f + i);
        val[j] := val[j] - 1;
        borrows := borrows + 1;
        assert val[..] == before[i := before[i] + (f + i)][j := before[j] - 1];
      }
    }

    /** Digits 0..hib go from base f - 1 to base f. */
    method Rebase(f: nat, ghost N: nat)
      requires f >= 3 && N <= MAXINT && Represents(N, f - 1) && 1 < hib < 12 && val[hib] > 0
      modifies val
      ensures Represents(N, f)
    {
      SmallBase(val[..], f - 1, hib, N);
      MixedEnds(val[..], f, 0, hib + 1);
      var i := 0;
      while i != hib
        invariant 0 <= i <= hib && Between(N, f, i)
        decreases hib - i
      {
        ReduceDigit(f, i, N);
        i := i + 1;
      }
      MixedEnds(val[..], f, hib, hib + 1);
      TopDigit(val[..], f, hib);
    }

    /** Drops leading zero digits. */
    method DropZeros(ghost N: nat, ghost f: nat)
      requires N > 0 && Represents(N, f)
      modifies `hib
      ensures Represents(N, f) && hib <= old(hib) && val[hib] > 0
    {
      while val[hib] == 0
        invariant Represents(N, f) && hib <= old(hib)
        decreases hib
      {
        assert hib > 0 by {
          assert Value(val[..], f, 1) == Value(val[..], f, 0) + val[..][0] * Weight(f, 0);
        }
        hib := hib - 1;
      }
    }

    /** The smallest prime factor of N. */
    method SmallestFactor(N: nat) returns (p: nat)
      requires val.Length == 24 && 2 <= N <= MAXINT
      modifies this, val
      ensures IsSmallestFactor(p, N)
    {
      Initialise(N);
      var f := 2;
      while val[0] != 0 && hib > 1
        invariant Represents(N, f) && hib < 12 && val[hib] > 0
        invariant f <= N && NoDivisorBelow(N, f)
        decreases N - f
      {
        SmallBase(val[..], f, hib, N);
        Remainder(N, f);
        f := f + 1;
        assert f <= N by {
          MulMonotone(2, f, f - 1);
        }
        Rebase(f, N);
        DropZeros(N, f);
      }
      Remainder(N, f);
      if val[0] == 0 {
        p := f;
      } else {
        TwoDigits(val[..], f, hib, N);
        NoSmallDivisorMeansPrime(N, f);
        RemainderOf(N, N, 0, 1);
        p := N;
      }
    }

    lemma Remainder(N: nat, f: nat)
      requires Represents(N, f)
      ensures N % f == val[0]
    {
      var q := ValueModBase(val[..], f, hib + 1);
      RemainderOf(N, f, val[0], q);
    }
  }

  /** Prints the prime factors, smallest first; printing is collected in out. */
  method PrintFactors(n0: nat, d: Factoring) returns (out: seq<nat>)
    requires 1 <= n0 <= MAXINT && d.val.Length == 24
    modifies d, d.val
    ensures n0 == 1 ==> out == [1]
    ensures n0 > 1 ==> Product(out) == n0 && forall k :: 0 <= k < |out| ==> IsPrime(out[k])
    ensures forall k :: 0 < k < |out| ==> out[k - 1] <= out[k]
  {
    out := [];
    if n0 == 1 {
      return [1];
    }
    var n := n0;
    while n != 1
      invariant 1 <= n <= n0 && Factored(out, n, n0)
      decreases n
    {
      var prime := d.SmallestFactor(n);
      FactoredMore(out, n, n0, prime);
      out := out + [prime];
      n := n / prime;
    }
  }

  /** The factors found so far, and what is left of the number. */
  ghost predicate Factored(out: seq<nat>, n: nat, n0: nat) {
    && Product(out) * n == n0
    && (forall k :: 0 <= k < |out| ==> IsPrime(out[k]))
    && (forall k :: 0 < k < |out| ==> out[k - 1] <= out[k])
    && (out != [] ==> NoDivisorBelow(n, out[|out| - 1]))
  }

  lemma FactoredMore(out: seq<nat>, n: nat, n0: nat, p: nat)
    requires n >= 2 && Factored(out, n, n0) && IsSmallestFactor(p, n)
    ensures 1 <= n / p < n && Factored(out + [p], n / p, n0)
  {
    SmallestIsPrime(p, n);
    Quotient(n, p);
    ProductAppend(out, p);
    Associate(Product(out), p, n / p);
    LastIsLess(out, n, p);
  }

  lemma Associate(a: nat, b: nat, c: nat)
    ensures a * (b * c) == (a * b) * c
  {
  }

  /** The next factor is not below the last one. */
  lemma LastIsLess(out: seq<nat>, n: nat, p: nat)
    requires IsSmallestFactor(p, n) && (out != [] ==> NoDivisorBelow(n, out[|out| - 1]))
    ensures out != [] ==> out[|out| - 1] <= p
  {
  }

  function Product(s: seq<nat>): nat {
    if s == [] then 1 else Product(s[..|s| - 1]) * s[|s| - 1]
  }

  lemma ProductAppend(s: seq<nat>, x: nat)
    ensures Product(s + [x]) == Product(s) * x
  {
    assert (s + [x])[..|s|] == s;
  }

  lemma SmallestIsPrime(p: nat, n: nat)
    requires IsSmallestFactor(p, n)
    ensures IsPrime(p)
  {
    forall d | 2 <= d < p
      ensures !Divides(d, p)
    {
      if Divides(d, p) {
        DividesThrough(d, p, n);
      }
    }
  }

  lemma DividesThrough(d: nat, m: nat, n: nat)
    requires d > 0 && m > 0 && Divides(d, m) && Divides(m, n)
    ensures Divides(d, n)
  {
    var a, b := m / d, n / m;
    assert m == d * a && n == m * b;
    assert n == d * (a * b) by {
      assert (d * a) * b == d * (a * b);
    }
    RemainderOf(n, d, 0, a * b);
  }

  /** Dividing out the smallest factor keeps the other factors at least as large. */
  lemma Quotient(n: nat, p: nat)
    requires n >= 2 && IsSmallestFactor(p, n)
    ensures n == p * (n / p) && 1 <= n / p < n && NoDivisorBelow(n / p, p)
  {
    var q := n / p;
    assert n == p * q;
    MulMonotone(2, p, q);
    RemainderOf(n, q, 0, p);
    forall d | 2 <= d < p
      ensures !Divides(d, q)
    {
      if Divides(d, q) {
        DividesThrough(d, q, n);
      }
    }
  }

  function Times(a: int, b: int): int { a * b }

  lemma TimesStep(a: int, b: int)
    ensures Times(a, b) == Times(a - 1, b) + b
    ensures b > 0 && 1 - Times(a, b) < 0 ==> a > 0
  {
    if b > 0 && a <= 0 {
      MulMonotone(0, -a, b);
    }
  }

  /** The most digit i can lose in a change of base, with i borrows behind it. */
  lemma ReduceBound(x: int, top: int, f: nat, i: nat)
    requires x + i >= 0 && x < f + i && 0 <= top < f + i && 3 <= f <= 46341 && i < 12
    ensures x - (i + 1) * top >= 1 - Times(i + 1, f + i)
    ensures 0 <= (i + 1) * top < 13 * 46353
  {
    MulMonotone(top, f + i - 1, i + 1);
    MulMonotone(i + 1, 12, f + i - 1);
    assert Times(i + 1, f + i) == (i + 1) * (f + i - 1) + (i + 1);
  }
}
