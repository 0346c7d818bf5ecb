// Facts about products, remainders and sums that several proofs need.
module Arithmetic {

  function Max(a: nat, b: nat): nat {
    if a < b then b else a
  }

  // A multiple of m other than zero is at least m away from it.
  lemma MultipleIsFar(m: nat, d: int)
    requires m > 0
    ensures d >= 1 ==> m * d >= m
    ensures d <= -1 ==> m * d + m <= 0
  {
  }

  // A remainder is determined by any way of writing the number as a multiple plus a rest.
  lemma ModOf(q: int, r: int, n: nat)
    requires 0 <= r < n
    ensures (n * q + r) % n == r
  {
    var x := n * q + r;
    assert x == n * (x / n) + x % n;
    assert n * (q - x / n) == x % n - r;
    MultipleIsFar(n, q - x / n);
  }

  // Places less than a full turn of a ring apart are different slots.
  lemma DifferentSlots(a: nat, b: nat, n: nat)
    requires n > 0 && a < b < a + n
    ensures a % n != b % n
  {
    var q, r := a / n, a % n;
    assert a == n * q + r;
    if r + (b - a) < n {
      ModOf(q, r + (b - a), n);
    } else {
      ModOf(q + 1, r + (b - a) - n, n);
      assert b == n * (q + 1) + (r + (b - a) - n);
    }
  }

  // ----- Sums over sequences: the load of a cache, or the threads of a system by where they stand

  function Total<T>(ts: seq<T>, f: T -> nat): nat {
    if ts == [] then 0 else f(ts[0]) + Total(ts[1..], f)
  }

  lemma {:induction false} TotalUpdate<T>(ts: seq<T>, i: nat, t: T, f: T -> nat)
    requires i < |ts|
    ensures Total(ts[i := t], f) + f(ts[i]) == Total(ts, f) + f(t)
  {
    if i == 0 {
      assert ts[i := t][1..] == ts[1..];
    } else {
      assert ts[i := t][1..] == ts[1..][i - 1 := t];
      TotalUpdate(ts[1..], i - 1, t, f);
    }
  }

  lemma {:induction false} TotalAtLeast<T>(ts: seq<T>, i: nat, f: T -> nat)
    requires i < |ts|
    ensures Total(ts, f) >= f(ts[i])
  {
    if i > 0 {
      TotalAtLeast(ts[1..], i - 1, f);
    }
  }

  // Two different items count separately.
  lemma {:induction false} TotalAtLeastTwo<T>(ts: seq<T>, i: nat, j: nat, f: T -> nat)
    requires i < j < |ts|
    ensures Total(ts, f) >= f(ts[i]) + f(ts[j])
  {
    if i > 0 {
      TotalAtLeastTwo(ts[1..], i - 1, j - 1, f);
    } else {
      TotalAtLeast(ts[1..], j - 1, f);
    }
  }

  lemma {:induction false} TotalPositive<T>(ts: seq<T>, f: T -> nat) returns (i: nat)
    requires Total(ts, f) > 0
    ensures i < |ts| && f(ts[i]) > 0
  {
    if f(ts[0]) > 0 {
      i := 0;
    } else {
      i := TotalPositive(ts[1..], f);
      i := i + 1;
    }
  }

  lemma {:induction false} TotalZero<T>(ts: seq<T>, f: T -> nat)
    requires forall i :: 0 <= i < |ts| ==> f(ts[i]) == 0
    ensures Total(ts, f) == 0
  {
    if ts != [] {
      TotalZero(ts[1..], f);
    }
  }

  lemma {:induction false} TotalLe<T(!new)>(ts: seq<T>, f: T -> nat, g: T -> nat)
    requires forall t :: f(t) <= g(t)
    ensures Total(ts, f) <= Total(ts, g)
  {
    if ts != [] {
      TotalLe(ts[1..], f, g);
    }
  }

  lemma {:induction false} TotalConcat<T>(a: seq<T>, b: seq<T>, f: T -> nat)
    ensures Total(a + b, f) == Total(a, f) + Total(b, f)
  {
    if a == [] {
      assert a + b == b;
    } else {
      assert (a + b)[1..] == a[1..] + b;
      TotalConcat(a[1..], b, f);
    }
  }
}
