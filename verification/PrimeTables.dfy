/** The prime tables of the samples (prime_tables.h, sample8_unittest.cc), over unbounded
    integers. */
module PrimeTables {

  // ----- primes

  ghost predicate Divides(d: int, n: int)
    requires d > 0
  {
    n % d == 0
  }

  ghost predicate Prime(n: int) {
    n >= 2 && forall d :: 2 <= d < n ==> !Divides(d, n)
  }

  /** The first numbers, and one that only its root divides. */
  lemma FirstPrimes()
    ensures !Prime(-2) && !Prime(0) && !Prime(1) && Prime(2) && Prime(3) && !Prime(4) && Prime(5) && !Prime(6)
    ensures !Prime(25)
  {
    assert Divides(2, 4) && Divides(2, 6) && Divides(5, 25);
  }

  /** The smallest divisor above one. */
  ghost function LeastDivisor(n: int, from: int): (d: int)
    requires 2 <= from <= n && forall e :: 2 <= e < from ==> !Divides(e, n)
    ensures from <= d <= n && Divides(d, n) && forall e :: 2 <= e < d ==> !Divides(e, n)
    decreases n - from
  {
    DividesItself(n);
    hide Divides;
    if Divides(from, n) then from else LeastDivisor(n, from + 1)
  }

  lemma DividesItself(n: int)
    requires n > 0
    ensures Divides(n, n)
  {
  }

  /** Divisibility is transitive, so the least divisor is a prime. */
  lemma LeastDivisorIsPrime(n: int)
    requires n >= 2
    ensures Prime(LeastDivisor(n, 2))
  {
    var d := LeastDivisor(n, 2);
    forall e | 2 <= e < d ensures !Divides(e, d) {
      if Divides(e, d) {
        DividesTransitively(e, d, n);
      }
    }
  }

  lemma DividesTransitively(e: int, d: int, n: int)
    requires e > 0 && d > 0 && n >= 0 && Divides(e, d) && Divides(d, n)
    ensures Divides(e, n)
  {
    var a, b := d / e, n / d;
    assert n == e * (a * b) by {
      assert d == e * a && n == d * b;
      assert (e * a) * b == e * (a * b);
    }
    MultipleModulo(e, a * b);
  }

  /** Zero is the only multiple of e in 0..e. */
  lemma NoSmallMultiple(e: int, k: int, r: int)
    requires e * k == r && 0 <= r < e
    ensures r == 0
  {
    assert k >= 1 ==> e * k >= e;
    assert k <= 0 ==> e * k <= 0;
  }

  lemma MultipleModulo(e: int, k: int)
    requires e > 0
    ensures Divides(e, e * k)
  {
    var q, r := (e * k) / e, (e * k) % e;
    assert e * k == e * q + r;
    assert e * (k - q) == e * k - e * q;
    NoSmallMultiple(e, k - q, r);
  }

  /** A composite number has a prime divisor up to its square root. */
  lemma SmallPrimeDivisor(n: int) returns (d: int)
    requires n >= 2 && !Prime(n)
    ensures Crosses(d, n) && d < n
  {
    d := LeastDivisor(n, 2);
    LeastDivisorIsPrime(n);
    var c := Cofactor(n, d);
    hide Divides;
    assert c >= d;
    ProductGrows(d, c);
  }

  lemma ProductGrows(d: int, c: int)
    requires 0 <= d <= c
    ensures d * d <= d * c
  {
  }

  lemma Cofactor(n: int, d: int) returns (c: int)
    requires 2 <= d < n && Divides(d, n)
    ensures n == d * c && c >= 2 && Divides(c, n)
  {
    c := n / d;
    assert n == d * c;
    assert c <= 1 ==> d * c <= d;
    MultipleModulo(c, d);
    assert c * d == n;
  }

  /** d is a prime that the sieve uses to cross n out. */
  ghost predicate Crosses(d: int, n: int) {
    Prime(d) && d * d <= n && Divides(d, n)
  }

  lemma PrimeIsNotCrossed(d: int, n: int)
    ensures Prime(n) ==> !Crosses(d, n)
  {
    assert d >= 2 ==> d * d >= 2 * d;
  }

  ghost function Factorial(n: nat): (f: nat)
    ensures f >= 1
  {
    if n == 0 then 1 else n * Factorial(n - 1)
  }

  lemma {:induction false} FactorialDivisible(n: nat, d: nat)
    requires 1 <= d <= n
    ensures Divides(d, Factorial(n))
  {
    if d == n {
      MultipleModulo(n, Factorial(n - 1));
    } else {
      FactorialDivisible(n - 1, d);
      var k := Factorial(n - 1) / d;
      assert Factorial(n - 1) == d * k;
      assert n * (d * k) == d * (n * k);
      MultipleModulo(d, n * k);
    }
  }

  /** There are infinitely many primes. */
  lemma PrimeAbove(p: nat) returns (q: int)
    ensures Prime(q) && q > p
  {
    var n := Factorial(p) + 1;
    q := LeastDivisor(n, 2);
    LeastDivisorIsPrime(n);
    if q <= p {
      FactorialDivisible(p, q);
      NeighbourNotDivisible(q, Factorial(p));
    }
  }

  lemma NeighbourNotDivisible(q: int, f: int)
    requires q >= 2 && Divides(q, f)
    ensures !Divides(q, f + 1)
  {
    var a, b, r := f / q, (f + 1) / q, (f + 1) % q;
    assert q * (b - a) == q * b - q * a;
    if r == 0 {
      NoSmallMultiple(q, b - a, 1);
    }
  }

  /** The next prime after p. */
  ghost predicate IsNextPrime(n: int, p: int) {
    Prime(n) && n > p && forall m :: p < m < n ==> !Prime(m)
  }

  // ----- the tables

  class OnTheFlyPrimeTable {
    constructor () { }

    /** Trial division up to the square root. */
    method IsPrime(n: int) returns (r: bool)
      ensures r <==> Prime(n)
    {
      if n <= 1 {
        return false;
      }
      var i := 2;
      while i * i <= n
        invariant 2 <= i <= n
        invariant forall d :: 2 <= d < i ==> !Divides(d, n)
        decreases n - i
      {
        assert i * i >= 2 * i;
        assert Divides(i, n) <==> n % i == 0;
        if n % i == 0 {
          return false;
        }
        i := i + 1;
      }
      r := true;
      if !Prime(n) {
        ghost var d := SmallPrimeDivisor(n);
        SquaresGrow(i, d, n);
      }
    }

    /** The next prime; the search ends because there is one. */
    method GetNextPrime(p: int) returns (n: int)
      ensures if p < 0 then n == -1 else IsNextPrime(n, p)
    {
      if p < 0 {
        return -1;
      }
      ghost var q := PrimeAbove(p);
      n := p + 1;
      while true
        invariant p < n <= q
        invariant forall m :: p < m < n ==> !Prime(m)
        decreases q - n
      {
        var isPrime := IsPrime(n);
        if isPrime {
          return;
        }
        n := n + 1;
      }
    }
  }

  lemma SquareIsLarger(i: int)
    requires i >= 2
    ensures i * i >= 2 * i
  {
  }

  lemma SquaresGrow(i: int, d: int, n: int)
    requires 2 <= d && 0 <= i && d * d <= n < i * i
    ensures d < i
  {
    assert i <= d ==> i * i <= i * d && i * d <= d * d;
  }

  class PreCalculatedPrimeTable {
    const isPrimeSize: int
    const isPrime: array<bool>

    ghost predicate Valid()
      reads isPrime
    {
      isPrime.Length == isPrimeSize >= 2 && forall n :: 0 <= n < isPrimeSize ==> (isPrime[n] <==> Prime(n))
    }

    constructor (max: int)
      requires max >= 1
      ensures Valid() && isPrimeSize == max + 1 && fresh(isPrime)
    {
      isPrimeSize := max + 1;
      isPrime := new bool[max + 1];
      new;
      CalculatePrimesUpTo(max);
    }

    method CalculatePrimesUpTo(max: int)
      requires max >= 1 && isPrimeSize == isPrime.Length == max + 1
      modifies isPrime
      ensures Valid()
    {
      for k := 0 to isPrimeSize
        invariant forall n :: 0 <= n < k ==> isPrime[n]
      {
        isPrime[k] := true;
      }
      isPrime[0], isPrime[1] := false, false;
      var i := 2;
      SieveStarts(isPrime[..]);
      hide Sieved, Crosses, Prime, CrossedOut;
      while i * i <= max
        invariant i == 2 || (i > 2 && i % 2 == 1)
        invariant Sieved(isPrime[..], i)
        decreases max - i
      {
        SquareIsLarger(i);
        SieveWith(i, max);
        i := i + (i % 2 + 1);
      }
      SievedAll(isPrime[..], i);
    }

    /** One step of the sieve: i is crossed out already, or it is a prime and its
        multiples go. */
    method SieveWith(i: int, max: int)
      requires i == 2 || (i > 2 && i % 2 == 1)
      requires i <= max && i * i <= max && max + 1 == isPrime.Length && Sieved(isPrime[..], i)
      modifies isPrime
      ensures Sieved(isPrime[..], i + (i % 2 + 1))
    {
      hide Sieved, Crosses, Prime, CrossedOut;
      ghost var before := isPrime[..];
      SievedKnows(before, i);
      if isPrime[i] {
        CrossOut(i, max);
      }
      SievedStep(before, isPrime[..], i);
    }

    /** Crosses out the multiples of i from its square on. */
    method CrossOut(i: int, max: int)
      requires 2 <= i && max + 1 == isPrime.Length && i * i <= max
      modifies isPrime
      ensures CrossedOut(old(isPrime[..]), isPrime[..], i)
    {
      var j := i * i;
      MultipleModulo(i, i);
      while j <= max
        invariant i * i <= j && Divides(i, j)
        invariant forall n :: 0 <= n < isPrime.Length ==>
          (isPrime[n] <==> old(isPrime[n]) && !(i * i <= n < j && Divides(i, n)))
      {
        isPrime[j] := false;
        NoMultipleBetween(j, i);
        j := j + i;
      }
    }

    method IsPrime(n: int) returns (r: bool)
      requires Valid()
      ensures r <==> Prime(n) && n < isPrimeSize
    {
      r := 0 <= n && n < isPrimeSize && isPrime[n];
    }

    /** The next prime if the table holds it, else -1. */
    method GetNextPrime(p: int) returns (n: int)
      requires Valid() && p >= -1
      ensures if exists q :: p < q < isPrimeSize && Prime(q) then IsNextPrime(n, p) && n < isPrimeSize else n == -1
    {
      n := p + 1;
      while n < isPrimeSize
        invariant p < n
        invariant forall m :: p < m < n ==> !Prime(m)
      {
        if isPrime[n] {
          return;
        }
        n := n + 1;
      }
      n := -1;
    }
  }

  /** The primes below i have been used: what is left is not crossed out by any of them. */
  ghost predicate Sieved(table: seq<bool>, i: int) {
    forall n :: 0 <= n < |table| ==> (table[n] <==> n >= 2 && forall d :: 2 <= d < i ==> !Crosses(d, n))
  }

  /** The multiples of i from its square on are gone, nothing else. */
  ghost predicate CrossedOut(before: seq<bool>, after: seq<bool>, i: int)
    requires i > 0
  {
    |after| == |before| && forall n :: 0 <= n < |after| ==> (after[n] <==> before[n] && !(i * i <= n && Divides(i, n)))
  }

  lemma SieveStarts(table: seq<bool>)
    requires |table| >= 2 && !table[0] && !table[1] && forall n :: 2 <= n < |table| ==> table[n]
    ensures Sieved(table, 2)
  {
  }

  /** At the i-th place the table is already right. */
  lemma SievedKnows(table: seq<bool>, i: int)
    requires 2 <= i < |table| && Sieved(table, i)
    ensures table[i] <==> Prime(i)
  {
    if !Prime(i) {
      var d := SmallPrimeDivisor(i);
      assert !table[i];
    } else {
      forall d | 2 <= d < i ensures !Crosses(d, i) {
        PrimeIsNotCrossed(d, i);
      }
    }
  }

  lemma SievedStep(before: seq<bool>, after: seq<bool>, i: int)
    requires (i == 2 || (i > 2 && i % 2 == 1)) && i < |before| == |after| && Sieved(before, i)
    requires before[i] <==> Prime(i)
    requires if before[i] then CrossedOut(before, after, i) else after == before
    ensures Sieved(after, i + (i % 2 + 1))
  {
    var next := i + (i % 2 + 1);
    assert i % 2 == 1 ==> !Prime(i + 1) by {
      assert i % 2 == 1 ==> Divides(2, i + 1);
    }
    forall n | 0 <= n < |after|
      ensures after[n] <==> n >= 2 && forall d :: 2 <= d < next ==> !Crosses(d, n)
    {
      assert after[n] <==> before[n] && !Crosses(i, n);
      assert i + 1 < next ==> !Crosses(i + 1, n);
      hide Crosses, Prime;
      if before[n] && !Crosses(i, n) {
        forall d | 2 <= d < next ensures !Crosses(d, n) {
          assert d < i || d == i || d == i + 1;
        }
      }
    }
  }

  /** Once i is beyond the square root the table is right everywhere. */
  lemma SievedAll(table: seq<bool>, i: int)
    requires Sieved(table, i) && i >= 2 && |table| <= i * i
    ensures forall n :: 0 <= n < |table| ==> (table[n] <==> Prime(n))
  {
    forall n | 0 <= n < |table| ensures table[n] <==> Prime(n) {
      if n >= 2 && !Prime(n) {
        var d := SmallPrimeDivisor(n);
        SquaresGrow(i, d, n);
      } else {
        forall d | 2 <= d < i ensures Prime(n) ==> !Crosses(d, n) {
          PrimeIsNotCrossed(d, n);
        }
      }
    }
  }

  lemma NoMultipleBetween(j: int, i: int)
    requires i > 0 && Divides(i, j)
    ensures Divides(i, j + i) && forall n :: j < n < j + i ==> !Divides(i, n)
  {
    var k := j / i;
    assert j + i == i * (k + 1);
    MultipleModulo(i, k + 1);
    forall n | j < n < j + i ensures !Divides(i, n) {
      var m, r := n / i, n % i;
      assert i * (m - k) == i * m - i * k;
      assert r == 0 ==> i * (m - k) == n - j;
      if r == 0 {
        NoSmallMultiple(i, m - k, n - j);
      }
    }
  }

  class HybridPrimeTable {
    const onTheFly: OnTheFlyPrimeTable
    const precalc: PreCalculatedPrimeTable?
    const maxPrecalculated: int

    ghost predicate Valid()
      reads if precalc == null then {} else {precalc.isPrime}
    {
      precalc != null ==> precalc.Valid() && precalc.isPrimeSize == maxPrecalculated + 1
    }

    constructor (forceOnTheFly: bool, maxPrecalculated: int)
      requires !forceOnTheFly ==> maxPrecalculated >= 1
      ensures Valid() && this.maxPrecalculated == maxPrecalculated && (precalc == null <==> forceOnTheFly)
    {
      onTheFly := new OnTheFlyPrimeTable();
      if forceOnTheFly {
        precalc := null;
      } else {
        precalc := new PreCalculatedPrimeTable(maxPrecalculated);
      }
      this.maxPrecalculated := maxPrecalculated;
    }

    method IsPrime(n: int) returns (r: bool)
      requires Valid()
      ensures r <==> Prime(n)
    {
      if precalc != null && n < maxPrecalculated {
        r := precalc.IsPrime(n);
      } else {
        r := onTheFly.IsPrime(n);
      }
    }

    /** The next prime, whether or not the table reaches it. For -1 only the table
        knows the answer, and below that there is none. */
    method GetNextPrime(p: int) returns (nextPrime: int)
      requires Valid() && (precalc != null && p < maxPrecalculated ==> p >= -1)
      ensures if p >= 0 || (p == -1 && precalc != null && maxPrecalculated >= 2)
        then IsNextPrime(nextPrime, p) else nextPrime == -1
    {
      assert Prime(2);
      nextPrime := -1;
      if precalc != null && p < maxPrecalculated {
        nextPrime := precalc.GetNextPrime(p);
      }
      if nextPrime == -1 {
        nextPrime := onTheFly.GetNextPrime(p);
      }
    }
  }
}
