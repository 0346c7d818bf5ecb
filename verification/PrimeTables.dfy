// The prime-number samples: two trial-division tests, a sieve, and a hybrid of both, all held
// against one definition of primality.
module PrimeTables {
  import opened Arithmetic

  ghost predicate IsPrimeNumber(n: int) {
    n >= 2 && forall d :: 2 <= d < n ==> n % d != 0
  }

  // r is the least prime above p.
  ghost predicate IsNextPrime(p: int, r: int) {
    r > p && IsPrimeNumber(r) && forall k :: p < k < r ==> !IsPrimeNumber(k)
  }

  // ----- Divisors

  lemma MulLe(a: nat, b: nat, c: nat)
    requires a <= b
    ensures a * c <= b * c && c * a <= c * b
  {
  }

  // The other half of a divisor.
  lemma Cofactor(n: nat, d: nat) returns (e: nat)
    requires 2 <= d < n && n % d == 0
    ensures n == d * e && 2 <= e < n && n % e == 0
  {
    e := n / d;
    assert n == d * e;
    MultipleIsFar(d, e - 1);
    MulLe(2, d, e);
    ModOf(d, 0, e);
  }

  lemma DivisorOfDivisor(d: nat, m: nat, n: nat)
    requires d > 0 && m > 0 && m % d == 0 && n % m == 0
    ensures n % d == 0
  {
    var a, b := m / d, n / m;
    assert n == m * b && m == d * a;
    assert n == d * (a * b);
    ModOf(a * b, 0, d);
  }

  // k has a divisor below i that is not above its square root.
  ghost predicate HasFactorBelow(k: int, i: int) {
    exists d :: 2 <= d < i && d * d <= k && k % d == 0
  }

  // Divisors only have to be sought up to the square root.
  lemma PrimeBySmallFactors(k: int, i: int)
    requires k >= 2 && i >= 2 && i * i > k
    ensures IsPrimeNumber(k) <==> !HasFactorBelow(k, i)
  {
    if d :| 2 <= d < i && d * d <= k && k % d == 0 {
      MulLe(2, d, d);
      assert d < k;
    }
    if !IsPrimeNumber(k) {
      var d :| 2 <= d < k && k % d == 0;
      var e := Cofactor(k, d);
      var s := if d <= e then d else e;
      MulLe(s, if d <= e then e else d, s);
      assert s * s <= k && k % s == 0;
      if s >= i {
        MulLe(i, s, i);
        MulLe(i, s, s);
        assert false;
      }
    }
  }

  lemma {:induction false} LeastDivisor(n: nat, from: nat) returns (q: nat)
    requires n >= 2 && 2 <= from <= n && forall d :: 2 <= d < from ==> n % d != 0
    ensures from <= q <= n && n % q == 0 && IsPrimeNumber(q)
    decreases n - from
  {
    if n % from == 0 {
      q := from;
      forall d | 2 <= d < q ensures q % d != 0 {
        if q % d == 0 {
          DivisorOfDivisor(d, q, n);
        }
      }
    } else {
      q := LeastDivisor(n, from + 1);
    }
  }

  // ----- Primes never run out

  ghost function Factorial(n: nat): nat {
    if n == 0 then 1 else n * Factorial(n - 1)
  }

  lemma {:induction false} FactorialDivisible(n: nat, d: nat)
    requires 1 <= d <= n
    ensures Factorial(n) % d == 0 && Factorial(n) > 0
  {
    if n == d {
      ModOf(Factorial(n - 1), 0, d);
    } else {
      FactorialDivisible(n - 1, d);
      var f := Factorial(n - 1);
      assert f == d * (f / d);
      assert n * f == d * (n * (f / d));
      ModOf(n * (f / d), 0, d);
    }
    FactorialPositive(n);
  }

  lemma FactorialPositive(n: nat)
    ensures Factorial(n) > 0
  {
  }

  lemma NotBoth(f: nat, d: nat)
    requires d >= 2 && f % d == 0
    ensures (f + 1) % d != 0
  {
    var q, r := f / d, (f + 1) / d;
    assert f == d * q;
    assert f + 1 == d * r + (f + 1) % d;
    assert d * (r - q) == 1 - (f + 1) % d;
    MultipleIsFar(d, r - q);
  }

  // There is a prime above every number.
  lemma PrimeAbove(p: nat) returns (q: nat)
    ensures q > p && IsPrimeNumber(q)
  {
    FactorialPositive(p);
    var n := Factorial(p) + 1;
    q := LeastDivisor(n, 2);
    if q <= p {
      FactorialDivisible(p, q);
      NotBoth(Factorial(p), q);
    }
  }

  // ----- Trial division

  class OnTheFlyPrimeTable {
    constructor () {
    }

    method IsPrime(n: int) returns (prime: bool)
      ensures prime <==> IsPrimeNumber(n)
    {
      if n <= 1 {
        return false;
      }
      var i := 2;
      while i * i <= n
        invariant i >= 2 && !HasFactorBelow(n, i)
        decreases n + 2 - i
      {
        MulLe(2, i, i);
        if n % i == 0 {
          assert i < n;
          return false;
        }
        i := i + 1;
      }
      PrimeBySmallFactors(n, i);
      return true;
    }

    // The least prime above p; the search is unbounded but ends.
    method GetNextPrime(p: int) returns (next: int)
      ensures p < 0 ==> next == -1
      ensures p >= 0 ==> IsNextPrime(p, next)
    {
      if p < 0 {
        return -1;
      }
      ghost var bound := PrimeAbove(p);
      var n := p + 1;
      while true
        invariant p < n <= bound && forall k :: p < k < n ==> !IsPrimeNumber(k)
        decreases bound - n
      {
        var prime := IsPrime(n);
        if prime {
          return n;
        }
        n := n + 1;
      }
    }
  }

  lemma OddHasNoEvenFactor(n: int, d: int)
    requires n % 2 == 1 && d > 0 && d % 2 == 0
    ensures n % d != 0
  {
    var a, b := n / d, d / 2;
    assert n == d * a + n % d && d == 2 * b;
    assert d * a == 2 * (b * a);
  }

  lemma OddStep(n: int, i: int)
    requires n % 2 == 1 && i >= 3 && i % 2 == 1 && !HasFactorBelow(n, i) && n % i != 0
    ensures !HasFactorBelow(n, i + 2)
  {
    OddHasNoEvenFactor(n, i + 1);
  }

  lemma EvenPrime(n: int)
    requires n > 1 && n % 2 == 0
    ensures IsPrimeNumber(n) <==> n == 2
  {
  }

  lemma OddStart(n: int)
    requires n % 2 == 1
    ensures !HasFactorBelow(n, 3)
  {
  }

  // Trial division by odd numbers only.
  method IsPrimeByOddDivisors(n: int) returns (prime: bool)
    ensures prime <==> IsPrimeNumber(n)
  {
    if n <= 1 {
      return false;
    }
    if n % 2 == 0 {
      EvenPrime(n);
      return n == 2;
    }
    OddStart(n);
    var i := 3;
    while true
      invariant i >= 3 && i % 2 == 1 && !HasFactorBelow(n, i)
      decreases n + 2 - i
    {
      QuotientAndSquare(n, i);
      if i > n / i {
        break;
      }
      if n % i == 0 {
        MulLe(2, i, i);
        assert i < n;
        return false;
      }
      OddStep(n, i);
      i := i + 2;
    }
    PrimeBySmallFactors(n, i);
    return true;
  }

  lemma QuotientAndSquare(n: nat, i: nat)
    requires i > 0
    ensures i > n / i <==> i * i > n
  {
    var q := n / i;
    assert n == i * q + n % i;
    if i > q {
      MulLe(q + 1, i, i);
    } else {
      MulLe(i, q, i);
    }
  }

  // ----- The sieve

  // What is marked before candidate i: the numbers with a factor below i up to their root.
  ghost predicate Sieved(marks: seq<bool>, i: int) {
    forall k :: 0 <= k < |marks| ==> (marks[k] <==> k >= 2 && !HasFactorBelow(k, i))
  }

  // A candidate already crossed out adds nothing: a factor of it has been sieved.
  lemma SkipComposite(marks: seq<bool>, i: int)
    requires Sieved(marks, i) && 2 <= i < |marks| && !marks[i]
    ensures Sieved(marks, i + 1)
  {
    var d :| 2 <= d < i && d * d <= i && i % d == 0;
    FactorInherited(marks, d, i);
  }

  lemma FactorInherited(marks: seq<bool>, d: int, i: int)
    requires Sieved(marks, i) && 2 <= d < i && i % d == 0
    ensures Sieved(marks, i + 1)
  {
    forall k | 0 <= k < |marks| ensures HasFactorBelow(k, i + 1) <==> HasFactorBelow(k, i) {
      if i * i <= k && k % i == 0 {
        DivisorOfDivisor(d, i, k);
        MulLe(d, i, d);
        MulLe(d, i, i);
        assert d * d <= k;
      }
    }
  }

  // Even candidates above 2 are passed over.
  lemma SkipEven(marks: seq<bool>, i: int)
    requires Sieved(marks, i) && i > 2 && i % 2 == 0
    ensures Sieved(marks, i + 1)
  {
    FactorInherited(marks, 2, i);
  }

  // After 2 only odd candidates are tried.
  lemma ToNextCandidate(marks: seq<bool>, i: int)
    requires Sieved(marks, i + 1) && i >= 2 && (i == 2 || i % 2 == 1)
    ensures var next := i + (i % 2 + 1); next > i && next % 2 == 1 && Sieved(marks, next)
  {
    if i % 2 == 1 {
      SkipEven(marks, i + 1);
    }
  }

  lemma RootIsSmaller(i: int, max: int)
    requires i >= 2 && i * i <= max
    ensures i < max
  {
    MulLe(2, i, i);
  }

  lemma MultiplesMarked(before: seq<bool>, after: seq<bool>, i: int)
    requires Sieved(before, i) && i >= 2 && |after| == |before|
    requires forall k :: 0 <= k < |after| ==> (after[k] <==> before[k] && !(i * i <= k && k % i == 0))
    ensures Sieved(after, i + 1)
  {
    forall k | 0 <= k < |after|
      ensures HasFactorBelow(k, i + 1) <==> HasFactorBelow(k, i) || (i * i <= k && k % i == 0)
    {
    }
  }

  lemma NextMultiple(i: nat, j: nat, k: nat)
    requires i > 0 && j % i == 0 && j <= k < j + i
    ensures k % i == 0 <==> k == j
    ensures (j + i) % i == 0
  {
    var m := j / i;
    assert j == i * m && j + i == i * (m + 1);
    ModOf(m + 1, 0, i);
    assert k == i * (k / i) + k % i;
    assert k - j == i * (k / i - m) + k % i;
    MultipleIsFar(i, k / i - m);
  }

  class PreCalculatedPrimeTable {
    const isPrimeSize: int
    const isPrime: array<bool>

    ghost predicate Valid()
      reads isPrime
    {
      && isPrime.Length == isPrimeSize >= 2
      && forall k :: 0 <= k < isPrimeSize ==> (isPrime[k] <==> IsPrimeNumber(k))
    }

    constructor (max: int)
      requires max >= 1
      ensures Valid() && isPrimeSize == max + 1 && fresh(isPrime)
    {
      isPrimeSize := if 1 < max + 1 then max + 1 else 1;
      isPrime := new bool[max + 1];
      new;
      CalculatePrimesUpTo(isPrimeSize - 1);
    }

    method CalculatePrimesUpTo(max: int)
      requires max >= 1 && isPrime.Length == isPrimeSize == max + 1
      modifies isPrime
      ensures Valid()
    {
      for k := 0 to isPrimeSize
        invariant forall j :: 0 <= j < k ==> isPrime[j]
      {
        isPrime[k] := true;
      }
      isPrime[0], isPrime[1] := false, false;
      var i := 2;
      while i * i <= max
        invariant i >= 2 && (i == 2 || i % 2 == 1) && Sieved(isPrime[..], i)
        decreases max + 2 - i
      {
        RootIsSmaller(i, max);
        ghost var before := isPrime[..];
        if isPrime[i] {
          CrossOut(i, max);
          MultiplesMarked(before, isPrime[..], i);
        } else {
          SkipComposite(before, i);
        }
        ToNextCandidate(isPrime[..], i);
        i := i + (i % 2 + 1);
      }
      AllSieved(i);
    }

    // Crosses out the multiples of i from i * i on.
    method CrossOut(i: int, max: int)
      requires 2 <= i && isPrime.Length == max + 1
      modifies isPrime
      ensures forall k :: 0 <= k < isPrime.Length ==>
                (isPrime[..][k] <==> old(isPrime[..])[k] && !(i * i <= k && k % i == 0))
    {
      var j := i * i;
      ModOf(i, 0, i);
      while j <= max
        invariant j >= i * i && j % i == 0
        invariant forall k :: 0 <= k < isPrime.Length ==>
                    (isPrime[k] <==> old(isPrime[k]) && !(i * i <= k < j && k % i == 0))
        decreases max + 1 - j
      {
        isPrime[j] := false;
        forall k | j <= k < j + i ensures k % i == 0 <==> k == j {
          NextMultiple(i, j, k);
        }
        NextMultiple(i, j, j);
        j := j + i;
      }
    }

    lemma AllSieved(i: int)
      requires isPrime.Length == isPrimeSize >= 2 && i >= 2 && i * i > isPrimeSize - 1
      requires Sieved(isPrime[..], i)
      ensures Valid()
    {
      forall k | 0 <= k < isPrimeSize ensures isPrime[k] <==> IsPrimeNumber(k) {
        assert isPrime[..][k] == isPrime[k];
        if k >= 2 {
          PrimeBySmallFactors(k, i);
        }
      }
    }

    method IsPrime(n: int) returns (prime: bool)
      requires Valid()
      ensures prime <==> IsPrimeNumber(n) && n < isPrimeSize
    {
      return 0 <= n && n < isPrimeSize && isPrime[n];
    }

    method GetNextPrime(p: int) returns (next: int)
      requires Valid() && p >= -1
      ensures next != -1 ==> next < isPrimeSize && IsNextPrime(p, next)
      ensures next == -1 <==> forall k :: p < k < isPrimeSize ==> !IsPrimeNumber(k)
    {
      var n := p + 1;
      while n < isPrimeSize
        invariant p < n && forall k :: p < k < n && k < isPrimeSize ==> !IsPrimeNumber(k)
      {
        if isPrime[n] {
          return n;
        }
        n := n + 1;
      }
      return -1;
    }
  }

  // ----- The hybrid

  lemma SmallestPrime(p: int)
    ensures IsPrimeNumber(2) && (p < 0 ==> forall r :: IsNextPrime(p, r) <==> r == 2)
  {
    forall r | p < 0 ensures IsNextPrime(p, r) <==> r == 2 {
      assert IsPrimeNumber(2);
      assert p < 2 < r || r <= 2;
    }
  }

  class HybridPrimeTable {
    const onTheFly: OnTheFlyPrimeTable
    const precalc: PreCalculatedPrimeTable?
    const maxPrecalculated: int

    ghost predicate Valid()
      reads if precalc == null then {} else {precalc.isPrime}
    {
      precalc != null ==> precalc.Valid() && precalc.isPrimeSize == maxPrecalculated + 1
    }

    constructor (forceOnTheFly: bool, max: int)
      requires max >= 1
      ensures Valid()
    {
      onTheFly := new OnTheFlyPrimeTable();
      maxPrecalculated := max;
      if forceOnTheFly {
        precalc := null;
      } else {
        precalc := new PreCalculatedPrimeTable(max);
      }
    }

    method IsPrime(n: int) returns (prime: bool)
      requires Valid()
      ensures prime <==> IsPrimeNumber(n)
    {
      if precalc != null && n < maxPrecalculated {
        prime := precalc.IsPrime(n);
      } else {
        prime := onTheFly.IsPrime(n);
      }
    }

    // For negative p the two tables differ: the one knows no next prime, the other takes 2.
    method GetNextPrime(p: int) returns (next: int)
      requires Valid() && (precalc != null ==> p >= -1)
      ensures p >= 0 ==> IsNextPrime(p, next)
      ensures p < 0 ==> next == if precalc != null && maxPrecalculated >= 2 then 2 else -1
    {
      SmallestPrime(p);
      next := -1;
      if precalc != null && p < maxPrecalculated {
        next := precalc.GetNextPrime(p);
      }
      if next == -1 {
        next := onTheFly.GetNextPrime(p);
      }
    }
  }
}
