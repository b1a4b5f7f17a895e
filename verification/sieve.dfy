/** Sieve of Eratosthenes over a `char` list in which 'y' marks a candidate prime
    and 'n' a crossed-out number, with its serial and OpenMP variants. */
module Sieve {

  import opened Arith

  /** Largest list size accepted: below it neither `i*i` nor `j += i` can overflow an `int`. */
  const MAX_N: int := 0x4000_0000

  predicate IsPrime(k: int) {
    2 <= k && forall d :: 2 <= d < k ==> k % d != 0
  }

  /** d divides k, is at least 2 and at most the square root of k. */
  predicate SmallFactor(d: int, k: int) {
    2 <= d && d * d <= k && k % d == 0
  }

  /** k is one of the cells the inner loop for i writes: i*i, i*i+i, ... up to n. */
  predicate SiftTarget(i: int, n: int, k: int) {
    SmallFactor(i, k) && k <= n
  }

  /** Every cell 2..n holds 'y': the state the list is in after `Reset`. */
  predicate Fresh(a: seq<char>, n: int) {
    forall k :: 2 <= k <= n ==> k < |a| && a[k] == 'y'
  }

  /** k has a small factor below i, i.e. the outer loop has crossed it out before reaching i. */
  ghost predicate Crossed(k: int, i: int) {
    exists d :: d < i && SmallFactor(d, k)
  }

  // ---------------------------------------------------------------------------
  // Reset

  /** Marks every cell 2..n as a candidate prime and touches nothing else. */
  method Reset(a: seq<char>, n: int) returns (r: seq<char>)
    requires n < 2 || n < |a|
    requires n < INT_MAX
    ensures |r| == |a|
    ensures Fresh(r, n)
    ensures forall k :: 0 <= k < |a| && !(2 <= k <= n) ==> r[k] == a[k]
  {
    r := a;
    var i := 2;
    while i <= n
      invariant 2 <= i && (i <= n + 1 || i == 2)
      invariant |r| == |a|
      invariant forall k :: 0 <= k < |a| ==> r[k] == (if 2 <= k < i then 'y' else a[k])
    {
      r := r[i := 'y'];
      i := i + 1;
    }
  }

  // ---------------------------------------------------------------------------
  // Reference meaning of the marking loops

  /** The list after the inner loop for i has crossed out all its targets. */
  function Sift(a: seq<char>, n: int, i: int): (r: seq<char>)
    ensures |r| == |a|
    // every target is crossed out, and only targets change
    ensures forall k :: 0 <= k < |a| && SiftTarget(i, n, k) ==> r[k] == 'n'
    ensures forall k :: 0 <= k < |a| && !SiftTarget(i, n, k) ==> r[k] == a[k]
  {
    seq(|a|, k requires 0 <= k < |a| => if SiftTarget(i, n, k) then 'n' else a[k])
  }

  /** One iteration of the outer loop: sift i only if it is still marked 'y'. */
  function Step(a: seq<char>, n: int, i: int): (r: seq<char>)
    requires 0 <= i < |a|
    ensures |r| == |a|
    // i is sifted exactly when it is still marked 'y'
    ensures a[i] == 'y' ==> r == Sift(a, n, i)
    ensures a[i] != 'y' ==> r == a
    // i itself is never crossed out by its own step
    ensures r[i] == a[i]
    // a changed cell becomes 'n' and lies between i*i and n
    ensures forall k :: 0 <= k < |a| && r[k] != a[k] ==> r[k] == 'n' && i * i <= k <= n
  {
    if a[i] != 'y' then a
    else if i < 2 then Sift(a, n, i)
    else
      SquareBounds(i);
      Sift(a, n, i)
  }

  lemma SquareBounds(i: int)
    requires 2 <= i
    ensures i < i * i && i * i < (i + 1) * (i + 1)
  {}

  /** The outer loop run from i until i*i exceeds n. */
  function SieveFrom(a: seq<char>, n: int, i: int): (r: seq<char>)
    requires 2 <= i && (n < |a| || n < i * i)
    ensures |r| == |a|
    decreases n - i
  {
    if n < i * i then a
    else
      SquareBounds(i);
      SieveFrom(Step(a, n, i), n, i + 1)
  }

  /** With n bounded by MAX_N, every i the outer loop visits is at most 2^15. */
  lemma RootBound(i: int, n: int)
    requires 0 <= i && i * i <= n <= MAX_N
    ensures i <= 0x8000
  {
    if i > 0x8000 {
      assert i * i > 0x8000 * 0x8000;
    }
  }

  // ---------------------------------------------------------------------------
  // Arithmetic facts about divisibility

  lemma ModTrans(d: int, i: int, k: int)
    requires 0 < d && 0 < i && i % d == 0 && k % i == 0
    ensures k % d == 0
  {
    var a := k / i;
    var b := i / d;
    assert k == i * a;
    assert i == d * b;
    assert k == d * (b * a);
    MulMod(d, b * a);
  }

  /** After a multiple j of i, the next multiple is j + i and none lies between. */
  lemma NextMultiple(i: int, j: int)
    requires 0 < i && j % i == 0
    ensures (j + i) % i == 0
    ensures forall k :: j < k < j + i ==> k % i != 0
  {
    var q := j / i;
    assert j == i * q;
    DivModUnique(j + i, i, q + 1, 0);
    forall k | j < k < j + i
      ensures k % i != 0
    {
      DivModUnique(k, i, q, k - j);
    }
  }

  /** A small factor of a small factor of k is a small factor of k. */
  lemma SmallFactorChain(d: int, i: int, k: int)
    requires SmallFactor(d, i) && SmallFactor(i, k)
    ensures SmallFactor(d, k)
  {
    ModTrans(d, i, k);
    SquareBounds(i);
  }

  /** A proper divisor e of k gives a small factor: the smaller of e and k / e. */
  lemma SmallFactorOfDivisor(k: int, e: int) returns (d: int)
    requires 2 <= e < k && k % e == 0
    ensures SmallFactor(d, k) && d <= e
  {
    var f := k / e;
    assert k == e * f;
    MulMono(f, 1, e);
    assert 2 <= f;
    MulMod(f, e);
    MulMono(e, f, e);
    MulMono(f, e, f);
    d := if e <= f then e else f;
  }

  /** Below i*i, having a small factor below i is the same as being composite. */
  lemma CrossedIffComposite(k: int, i: int)
    requires 2 <= k < i * i && 0 <= i
    ensures Crossed(k, i) <==> !IsPrime(k)
  {
    if Crossed(k, i) {
      var d :| d < i && SmallFactor(d, k);
      MulMono(1, d, d);
      assert 2 <= d < k && k % d == 0;
    }
    if !IsPrime(k) {
      var p := CompositeHasSmallPrimeFactor(k);
      MulMono(i, p, i);
      MulMono(i, p, p);
      assert p < i;
    }
  }

  // ---------------------------------------------------------------------------
  // Properties of the reference sieve

  /** The outer loop from i only ever writes 'n', and only at cells i*i..n. */
  lemma {:induction false} SieveFromFrame(a: seq<char>, n: int, i: int)
    requires 2 <= i && (n < |a| || n < i * i)
    ensures |SieveFrom(a, n, i)| == |a|
    ensures forall k :: 0 <= k < |a| && SieveFrom(a, n, i)[k] != a[k] ==>
      SieveFrom(a, n, i)[k] == 'n' && i * i <= k <= n
    decreases n - i
  {
    if n >= i * i {
      SquareBounds(i);
      SieveFromFrame(Step(a, n, i), n, i + 1);
    }
  }

  /** The invariant of the outer loop: before i, a cell 2..n is still 'y'
      exactly when no number below i has crossed it out. */
  ghost predicate SieveInvariant(a: seq<char>, n: int, i: int) {
    n < |a| && forall k :: 2 <= k <= n ==> (a[k] == 'y' <==> !Crossed(k, i))
  }

  lemma StepKeepsInvariant(a: seq<char>, n: int, i: int)
    requires 2 <= i && i * i <= n && SieveInvariant(a, n, i)
    ensures SieveInvariant(Step(a, n, i), n, i + 1)
  {
    SquareBounds(i);
    var b := Step(a, n, i);
    forall k | 2 <= k <= n
      ensures b[k] == 'y' <==> !Crossed(k, i + 1)
    {
      assert Crossed(k, i + 1) <==> Crossed(k, i) || SmallFactor(i, k);
      if a[i] == 'y' {
        assert b[k] == (if SiftTarget(i, n, k) then 'n' else a[k]);
      } else {
        // i itself was crossed out by some d < i; d also crosses out every target of i
        assert Crossed(i, i);
        var d :| d < i && SmallFactor(d, i);
        if SmallFactor(i, k) {
          SmallFactorChain(d, i, k);
        }
      }
    }
  }

  lemma {:induction false} SieveFromPrimes(a: seq<char>, n: int, i: int)
    requires 2 <= i && SieveInvariant(a, n, i)
    ensures forall k :: 2 <= k <= n ==> (SieveFrom(a, n, i)[k] == 'y' <==> IsPrime(k))
    decreases n - i
  {
    SieveFromFrame(a, n, i);
    if n < i * i {
      forall k | 2 <= k <= n
        ensures a[k] == 'y' <==> IsPrime(k)
      {
        CrossedIffComposite(k, i);
      }
    } else {
      SquareBounds(i);
      StepKeepsInvariant(a, n, i);
      SieveFromPrimes(Step(a, n, i), n, i + 1);
    }
  }

  /** Starting from a reset list, the sieve leaves 'y' exactly at the primes in 2..n. */
  lemma SieveMarksPrimes(a: seq<char>, n: int)
    requires n < |a| && Fresh(a, n)
    ensures forall k :: 2 <= k <= n ==> (SieveFrom(a, n, 2)[k] == 'y' <==> IsPrime(k))
  {
    assert SieveInvariant(a, n, 2);
    SieveFromPrimes(a, n, 2);
  }

  /** Running the outer loop a second time on its own output changes nothing. */
  lemma {:induction false} SieveFromIdempotent(a: seq<char>, n: int, i: int)
    requires 2 <= i && (n < |a| || n < i * i)
    ensures SieveFrom(SieveFrom(a, n, i), n, i) == SieveFrom(a, n, i)
    decreases n - i
  {
    SieveFromFrame(a, n, i);
    if n >= i * i {
      SquareBounds(i);
      var c := Step(a, n, i);
      var b := SieveFrom(c, n, i + 1);
      assert b == SieveFrom(a, n, i);
      SieveFromFrame(c, n, i + 1);
      assert b[i] == c[i] == a[i];
      if a[i] == 'y' {
        // every target of i is already 'n' in c, and the later steps keep it 'n'
        assert Sift(b, n, i) == b;
      }
      assert Step(b, n, i) == b;
      SieveFromIdempotent(c, n, i + 1);
    }
  }

  // ---------------------------------------------------------------------------
  // Why the loop bounds lose nothing

  /** Every number from 2 up has a prime divisor no larger than itself. */
  lemma {:induction false} PrimeDivisor(k: int) returns (p: int)
    requires 2 <= k
    ensures IsPrime(p) && p <= k && k % p == 0
    decreases k
  {
    if IsPrime(k) {
      p := k;
      MulMod(k, 1);
    } else {
      var e :| 2 <= e < k && k % e == 0;
      p := PrimeDivisor(e);
      ModTrans(p, e, k);
    }
  }

  /** Stopping the outer loop once i*i > n loses nothing: every composite k
      has a prime factor p with p*p <= k, which the loop reaches. */
  lemma CompositeHasSmallPrimeFactor(k: int) returns (p: int)
    requires 2 <= k && !IsPrime(k)
    ensures IsPrime(p) && SmallFactor(p, k)
  {
    var e :| 2 <= e < k && k % e == 0;
    var d := SmallFactorOfDivisor(k, e);
    p := PrimeDivisor(d);
    ModTrans(p, d, k);
    MulMono(p, d, p);
    MulMono(p, d, d);
  }

  /** Sifting from i*i instead of 2*i loses nothing: a multiple m*i with
      2 <= m < i already has a smaller prime factor p, which crossed it out. */
  lemma SmallerMultipleAlreadyCrossed(m: int, i: int) returns (p: int)
    requires 2 <= m < i
    ensures IsPrime(p) && p < i && SmallFactor(p, m * i)
  {
    p := PrimeDivisor(m);
    MulMod(m, i);
    assert m * i == i * m;
    ModTrans(p, m, m * i);
    MulMono(p, m, p);
    MulMono(m, i, m);
    MulMono(p, m, m);
  }

  /** When the outer loop reaches i, every multiple m*i with 2 <= m < i is already
      crossed out, so starting the sift at i*i rather than 2*i skips nothing. */
  lemma EarlyMultiplesCrossed(a: seq<char>, n: int, i: int, m: int)
    requires 2 <= m < i && m * i <= n && SieveInvariant(a, n, i)
    ensures a[m * i] != 'y'
  {
    var p := SmallerMultipleAlreadyCrossed(m, i);
    MulMono(1, m, i);
    assert Crossed(m * i, i);
  }

  // ---------------------------------------------------------------------------
  // The two implementations

  /** The serial inner loop: j = i*i, i*i+i, ... <= n, each set to 'n'. */
  method SiftMultiples(a: seq<char>, n: int, i: int) returns (r: seq<char>)
    requires 2 <= i && i * i <= n < |a| && n <= MAX_N
    ensures |r| == |a|
    ensures forall k :: 0 <= k < |a| ==> r[k] == (if SiftTarget(i, n, k) then 'n' else a[k])
    ensures r == Sift(a, n, i)
  {
    r := a;
    var j := i * i;
    MulMod(i, i);
    RootBound(i, n);
    while j <= n
      invariant i * i <= j <= n + i
      invariant j % i == 0
      invariant |r| == |a|
      invariant forall k :: 0 <= k < |a| ==> r[k] == (if SiftTarget(i, n, k) && k < j then 'n' else a[k])
    {
      r := r[j := 'n'];
      NextMultiple(i, j);
      assert j + i <= INT_MAX;
      j := j + i;
    }
  }

  /** sieve.c `serial`: crosses out multiples of every i with i*i <= n that is still 'y'. */
  method Serial(a: seq<char>, n: int) returns (r: seq<char>)
    requires n < |a| && n <= MAX_N
    ensures r == SieveFrom(a, n, 2)
    ensures |r| == |a|
    ensures forall k :: 0 <= k < |a| && r[k] != a[k] ==> r[k] == 'n' && 4 <= k <= n
    ensures Fresh(a, n) ==> forall k :: 2 <= k <= n ==> (r[k] == 'y' <==> IsPrime(k))
  {
    r := a;
    var i := 2;
    while i * i <= n
      invariant 2 <= i && |r| == |a|
      invariant SieveFrom(r, n, i) == SieveFrom(a, n, 2)
      decreases n - i
    {
      SquareBounds(i);
      RootBound(i, n);
      assert (i + 1) * (i + 1) <= INT_MAX;
      var before := r;
      if r[i] == 'y' {
        r := SiftMultiples(r, n, i);
      }
      assert r == Step(before, n, i);
      i := i + 1;
    }
    SieveFromFrame(a, n, 2);
    if Fresh(a, n) {
      SieveMarksPrimes(a, n);
    }
  }

  /** `order` lists exactly the targets of i, in the order the OpenMP threads happen to write them. */
  predicate CoversTargets(order: seq<int>, i: int, n: int) {
    (forall k :: k in order ==> SiftTarget(i, n, k)) &&
    (forall k :: 0 <= k <= n && SiftTarget(i, n, k) ==> k in order)
  }

  /** One write order for each outer-loop value i; `|orders| * |orders| > n`
      makes sure every i with i*i <= n has one. */
  predicate Schedule(orders: seq<seq<int>>, n: int) {
    n < |orders| * |orders| &&
    forall i :: 2 <= i < |orders| ==> CoversTargets(orders[i], i, n)
  }

  /** The OpenMP inner loop read sequentially: every target is written once, in any order. */
  method MpSiftMultiples(a: seq<char>, n: int, i: int, order: seq<int>) returns (r: seq<char>)
    requires 2 <= i && n < |a| && CoversTargets(order, i, n)
    ensures r == Sift(a, n, i)
  {
    r := a;
    var t := 0;
    while t < |order|
      invariant 0 <= t <= |order| && |r| == |a|
      invariant forall k :: 0 <= k < |a| ==> r[k] == (if k in order[..t] then 'n' else a[k])
    {
      assert SiftTarget(i, n, order[t]);
      MulMono(2, i, i);
      assert order[..t + 1] == order[..t] + [order[t]];
      r := r[order[t] := 'n'];
      t := t + 1;
    }
    assert order[..t] == order;
  }

  /** sieve.c `mp`: the same outer loop, with the inner loop run under an arbitrary thread schedule. */
  method Mp(a: seq<char>, n: int, orders: seq<seq<int>>) returns (r: seq<char>)
    requires n < |a| && n <= MAX_N && Schedule(orders, n)
    ensures r == SieveFrom(a, n, 2)
    ensures Fresh(a, n) ==> forall k :: 2 <= k <= n ==> (r[k] == 'y' <==> IsPrime(k))
  {
    r := a;
    var i := 2;
    while i * i <= n
      invariant 2 <= i && |r| == |a|
      invariant SieveFrom(r, n, i) == SieveFrom(a, n, 2)
      decreases n - i
    {
      SquareBounds(i);
      RootBound(i, n);
      assert (i + 1) * (i + 1) <= INT_MAX;
      MulMono(|orders|, i, |orders|);
      MulMono(|orders|, i, i);
      var before := r;
      if r[i] == 'y' {
        r := MpSiftMultiples(r, n, i, orders[i]);
      }
      assert r == Step(before, n, i);
      i := i + 1;
    }
    if Fresh(a, n) {
      SieveMarksPrimes(a, n);
    }
  }
}
