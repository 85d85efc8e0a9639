/** The prime-sieve test program (roms/prime_sieve/main.c): a Sieve of
    Eratosthenes over 600 byte cells in work RAM, then the first 100
    unmarked numbers copied into a table of 16-bit words. The work-RAM
    regions it uses are the fields of `Ram`. */
module PrimeSieve {
  import opened Machine

  const SieveSize := 600
  const NumPrimes := 100
  const SieveLimit := 24
  const DoneValue := 0xDEAD

  // ---------------------------------------------------------------------
  // Arithmetic the sieve relies on
  // ---------------------------------------------------------------------

  predicate Divides(d: nat, n: nat)
    requires d > 0
  {
    n % d == 0
  }

  predicate IsPrime(n: nat) {
    n >= 2 && forall d :: 2 <= d < n ==> !Divides(d, n)
  }

  /** The least divisor of `n` that is at least `d`. */
  function LeastDivisor(n: nat, d: nat): (q: nat)
    requires 2 <= d <= n
    ensures d <= q <= n && Divides(q, n)
    ensures forall e :: d <= e < q ==> !Divides(e, n)
    decreases n - d
  {
    if Divides(d, n) then d else LeastDivisor(n, d + 1)
  }

  /** A product is divisible by its factor, with the other factor as
      quotient. */
  lemma MulDivides(a: nat, m: nat)
    requires a > 0
    ensures Divides(a, a * m) && (a * m) / a == m
  {
    var q := (a * m) / a;
    var r := (a * m) % a;
    assert a * m == a * q + r;
    var x := m - q;
    assert a * x == r by {
      assert a * m - a * q == a * (m - q);
    }
    if x >= 1 {
    } else if x <= -1 {
    }
  }

  /** A multiple of `d` is `d` times its quotient. */
  lemma Quotient(d: nat, n: nat)
    requires d > 0 && Divides(d, n)
    ensures n == d * (n / d)
  {
  }

  lemma MulMono(a: nat, b: int, c: int)
    ensures b <= c ==> a * b <= a * c
  {
  }

  lemma DividesTrans(a: nat, b: nat, c: nat)
    requires a > 0 && b > 0 && Divides(a, b) && Divides(b, c)
    ensures Divides(a, c)
  {
    var k := b / a;
    var l := c / b;
    Quotient(a, b);
    Quotient(b, c);
    assert c == a * (k * l) by {
      assert c == (a * k) * l;
    }
    MulDivides(a, k * l);
  }

  /** The next multiple. */
  lemma AddMultiple(p: nat, m: nat)
    requires p > 0 && Divides(p, m)
    ensures Divides(p, m + p)
  {
    Quotient(p, m);
    var k := m / p;
    assert m + p == p * (k + 1);
    MulDivides(p, k + 1);
  }

  /** The least divisor above 1 is prime. */
  lemma LeastDivisorIsPrime(n: nat)
    requires n >= 2
    ensures IsPrime(LeastDivisor(n, 2))
  {
    var q := LeastDivisor(n, 2);
    forall d | 2 <= d < q
      ensures !Divides(d, q)
    {
      if Divides(d, q) {
        DividesTrans(d, q, n);
      }
    }
  }

  /** A proper multiple of `p` is at least twice `p`. */
  lemma ProperMultiple(p: nat, n: nat)
    requires p > 0 && Divides(p, n) && p < n
    ensures 2 * p <= n
  {
    Quotient(p, n);
    var k := n / p;
    MulMono(p, k, 1);
    MulMono(p, 2, k);
  }

  /** A number that is not prime has a prime factor whose square is at
      most the number. */
  lemma SmallPrimeFactor(n: nat)
    requires n >= 2 && !IsPrime(n)
    ensures var q := LeastDivisor(n, 2); IsPrime(q) && q < n && q * q <= n
  {
    var q := LeastDivisor(n, 2);
    LeastDivisorIsPrime(n);
    assert q < n;
    var k := n / q;
    assert n == q * k by {
      Quotient(q, n);
    }
    assert k >= 2 by {
      ProperMultiple(q, n);
      MulMono(q, k, 1);
    }
    assert Divides(k, n) by {
      MulDivides(k, q);
      assert k * q == q * k;
    }
    assert q * q <= n by {
      MulMono(q, q, k);
    }
  }

  /** `n` has a prime factor below `p` other than itself: what the sieve
      has marked once every `q < p` has been processed. */
  predicate Marked(n: nat, p: nat) {
    exists q :: 2 <= q < p && IsPrime(q) && Divides(q, n) && q < n
  }

  lemma MarkedMeansComposite(n: nat, p: nat)
    requires Marked(n, p)
    ensures !IsPrime(n)
  {
  }

  /** Below 600, a number is marked by the primes up to 24 exactly when
      it is not prime (25 * 25 > 600). */
  lemma MarkedBelowLimit(n: nat)
    requires 2 <= n < SieveSize
    ensures Marked(n, SieveLimit + 1) <==> !IsPrime(n)
  {
    if !IsPrime(n) {
      SmallPrimeFactor(n);
      var q := LeastDivisor(n, 2);
      MulMono(q, 25, q);
    }
  }

  /** A candidate `p` is marked when the outer loop reaches it exactly
      when it is not prime. */
  lemma MarkedAtItself(p: nat)
    requires p >= 2
    ensures Marked(p, p) <==> !IsPrime(p)
  {
    if !IsPrime(p) {
      SmallPrimeFactor(p);
    }
  }

  /** What one round of the outer loop does to the marking. */
  lemma MarkedNext(n: nat, p: nat)
    requires p >= 2
    ensures Marked(n, p + 1) <==> Marked(n, p) || (IsPrime(p) && Divides(p, n) && 2 * p <= n)
  {
    if IsPrime(p) && Divides(p, n) && 2 * p <= n {
      assert 2 <= p < p + 1 && p < n;
    }
    if Marked(n, p + 1) && !Marked(n, p) {
      ProperMultiple(p, n);
    }
  }

  // ---------------------------------------------------------------------
  // The four steps
  // ---------------------------------------------------------------------

  /** clear_sieve. */
  method ClearSieve(sieve: seq<U8>) returns (r: seq<U8>)
    requires |sieve| == SieveSize
    ensures |r| == SieveSize && forall i :: 0 <= i < SieveSize ==> r[i] == 0
  {
    r := sieve;
    var i := 0;
    while i < SieveSize
      invariant 0 <= i <= SieveSize && |r| == SieveSize
      invariant forall k :: 0 <= k < i ==> r[k] == 0
    {
      r := r[i := 0];
      i := i + 1;
    }
  }

  /** mark_trivial_composites: cells 0 and 1 set, nothing else touched. */
  function MarkTrivialComposites(sieve: seq<U8>): (r: seq<U8>)
    requires |sieve| == SieveSize
    ensures |r| == SieveSize && r[0] == 1 && r[1] == 1
    ensures forall i :: 2 <= i < SieveSize ==> r[i] == sieve[i]
  {
    sieve[0 := 1][1 := 1]
  }

  /** The marking loop for one prime: every multiple from `2p` below 600
      becomes 1, nothing else changes. */
  method MarkMultiples(sieve: seq<U8>, p: nat) returns (r: seq<U8>)
    requires |sieve| == SieveSize && p >= 2
    ensures |r| == SieveSize
    ensures forall n :: 0 <= n < SieveSize ==>
              r[n] == if Divides(p, n) && 2 * p <= n then 1 else sieve[n]
  {
    r := sieve;
    var m := 2 * p;
    while m < SieveSize
      invariant |r| == SieveSize && Divides(p, m) && 2 * p <= m
      invariant forall n :: 0 <= n < SieveSize ==>
                  r[n] == if Divides(p, n) && 2 * p <= n < m then 1 else sieve[n]
      decreases SieveSize - m
    {
      r := r[m := 1];
      AddMultiple(p, m);
      forall n | 0 <= n < SieveSize && Divides(p, n) && 2 * p <= n && m <= n < m + p
        ensures n == m
      {
        NoMultipleBetween(p, m, n);
      }
      m := m + p;
    }
  }

  /** Consecutive multiples of `p` are `p` apart. */
  lemma NoMultipleBetween(p: nat, m: nat, n: nat)
    requires p > 0 && Divides(p, m) && Divides(p, n) && m <= n < m + p
    ensures n == m
  {
    Quotient(p, m);
    Quotient(p, n);
    var x := n / p - m / p;
    assert n - m == p * x by {
      assert p * (n / p) - p * (m / p) == p * (n / p - m / p);
    }
    if x >= 1 {
    } else if x <= -1 {
    }
  }

  /** run_sieve: for p = 2..24, unless cell p is already set, every
      multiple from 2p on is set. Cells 0 and 1 stay; only 1s are
      written, only at proper multiples of some p <= 24; and from a
      cleared sieve, cell n (2 <= n < 600) ends 0 exactly when n is
      prime. */
  method RunSieve(sieve: seq<U8>) returns (r: seq<U8>)
    requires |sieve| == SieveSize
    ensures |r| == SieveSize && r[0] == sieve[0] && r[1] == sieve[1]
    ensures forall n :: 0 <= n < SieveSize && r[n] != sieve[n] ==>
              r[n] == 1 && exists p :: 2 <= p <= SieveLimit && Divides(p, n) && 2 * p <= n
    ensures Cleared(sieve) ==> SievedExactly(r)
  {
    r := sieve;
    var p := 2;
    while p <= SieveLimit
      invariant 2 <= p <= SieveLimit + 1 && |r| == SieveSize
      invariant forall n :: 0 <= n < SieveSize && r[n] != sieve[n] ==>
                  r[n] == 1 && exists q :: 2 <= q < p && Divides(q, n) && 2 * q <= n
      invariant Cleared(sieve) ==> forall n :: 2 <= n < SieveSize ==> (r[n] != 0 <==> Marked(n, p))
    {
      if r[p] != 0 {
        if Cleared(sieve) {
          MarkedAtItself(p);
          forall n | 2 <= n < SieveSize
            ensures r[n] != 0 <==> Marked(n, p + 1)
          {
            MarkedNext(n, p);
          }
        }
      } else {
        var r' := MarkMultiples(r, p);
        if Cleared(sieve) {
          MarkedAtItself(p);
          forall n | 2 <= n < SieveSize
            ensures r'[n] != 0 <==> Marked(n, p + 1)
          {
            MarkedNext(n, p);
          }
        }
        r := r';
      }
      p := p + 1;
    }
    if Cleared(sieve) {
      forall n | 2 <= n < SieveSize
        ensures r[n] == 0 <==> IsPrime(n)
      {
        MarkedBelowLimit(n);
      }
    }
  }

  /** Cells 2..599 are clear exactly at the primes. */
  predicate SievedExactly(sieve: seq<U8>) {
    |sieve| == SieveSize && forall n :: 2 <= n < SieveSize ==> (sieve[n] == 0 <==> IsPrime(n))
  }

  /** The state clear_sieve and mark_trivial_composites leave. */
  predicate Cleared(sieve: seq<U8>) {
    |sieve| == SieveSize && forall n :: 2 <= n < SieveSize ==> sieve[n] == 0
  }

  /** The unmarked numbers in `[lo, hi)`, ascending. */
  function Unmarked(sieve: seq<U8>, lo: nat, hi: nat): (r: seq<nat>)
    requires hi <= |sieve|
    ensures forall k :: 0 <= k < |r| ==> lo <= r[k] < hi && sieve[r[k]] == 0
    ensures forall k, l :: 0 <= k < l < |r| ==> r[k] < r[l]
    ensures forall n :: lo <= n < hi && sieve[n] == 0 ==> n in r
  {
    if hi <= lo then []
    else Unmarked(sieve, lo, hi - 1) + (if sieve[hi - 1] == 0 then [hi - 1] else [])
  }

  lemma {:induction false} UnmarkedPrefix(sieve: seq<U8>, lo: nat, a: nat, b: nat)
    requires a <= b <= |sieve|
    ensures Unmarked(sieve, lo, a) <= Unmarked(sieve, lo, b)
    decreases b - a
  {
    if a < b {
      UnmarkedPrefix(sieve, lo, a, b - 1);
    }
  }

  /** collect_primes: unmarked numbers from 2 up are written to the table
      in order until 100 are found or the sieve ends; the count is stored.
      Table entries past the count are left as they were. */
  method CollectPrimes(sieve: seq<U8>, results: seq<U16>) returns (table: seq<U16>, count: U16)
    requires |sieve| == SieveSize && |results| == NumPrimes
    ensures |table| == NumPrimes && count <= NumPrimes
    ensures var found := Unmarked(sieve, 2, SieveSize);
            && count == (if |found| < NumPrimes then |found| else NumPrimes)
            && table[..count] == found[..count]
    ensures table[count..] == results[count..]
  {
    table := results;
    count := 0;
    var n := 2;
    while n < SieveSize && count < NumPrimes
      invariant 2 <= n <= SieveSize && count <= NumPrimes && |table| == NumPrimes
      invariant table[..count] == Unmarked(sieve, 2, n)
      invariant table[count..] == results[count..]
      decreases SieveSize - n
    {
      if sieve[n] == 0 {
        table := table[count := n];
        count := count + 1;
      }
      n := n + 1;
    }
    UnmarkedPrefix(sieve, 2, n, SieveSize);
  }

  // ---------------------------------------------------------------------
  // main
  // ---------------------------------------------------------------------

  /** The work-RAM regions the program uses. */
  datatype Ram = Ram(sieve: seq<U8>, results: seq<U16>, count: U16, done: U16)

  predicate RamValid(m: Ram) {
    |m.sieve| == SieveSize && |m.results| == NumPrimes
  }

  /** The primes in `[lo, hi)`, ascending: the reference the program is
      checked against. */
  function Primes(lo: nat, hi: nat): (r: seq<nat>)
    ensures forall k :: 0 <= k < |r| ==> lo <= r[k] < hi && IsPrime(r[k])
    ensures forall k, l :: 0 <= k < l < |r| ==> r[k] < r[l]
  {
    if hi <= lo then [] else Primes(lo, hi - 1) + (if IsPrime(hi - 1) then [hi - 1] else [])
  }

  /** On a sieve marking exactly the non-primes, the unmarked numbers are
      the primes. */
  lemma {:induction false} UnmarkedArePrimes(sieve: seq<U8>, hi: nat)
    requires hi <= |sieve| && SievedExactly(sieve)
    ensures Unmarked(sieve, 2, hi) == Primes(2, hi)
  {
    if hi > 2 {
      UnmarkedArePrimes(sieve, hi - 1);
    }
  }

  /** main: the table holds the primes below 600 in ascending order, as
      many as 100 of them, the count says how many, and the done flag is
      0xDEAD. */
  method RunMain(m: Ram) returns (r: Ram)
    requires RamValid(m)
    ensures RamValid(r) && r.done == DoneValue
    ensures var ps := Primes(2, SieveSize);
            && r.count == (if |ps| < NumPrimes then |ps| else NumPrimes)
            && r.results[..r.count] == ps[..r.count]
    ensures forall k, l :: 0 <= k < l < r.count ==> r.results[k] < r.results[l]
    ensures r.count >= 4 && r.results[..4] == [2, 3, 5, 7]
  {
    var s0 := ClearSieve(m.sieve);
    var s1 := MarkTrivialComposites(s0);
    assert Cleared(s1);
    var s2 := RunSieve(s1);
    UnmarkedArePrimes(s2, SieveSize);
    var table, count := CollectPrimes(s2, m.results);
    r := Ram(s2, table, count, DoneValue);
    PrefixAscending(Primes(2, SieveSize), table, count);
    FirstPrimes();
    PrimesPrefix(2, 8, SieveSize);
    StartsWithSmallPrimes(Primes(2, SieveSize), table, count);
  }

  /** A table holding the first entries of a list that starts 2, 3, 5, 7
      (as many as 100 of them, or all) starts 2, 3, 5, 7 too. */
  lemma StartsWithSmallPrimes(ps: seq<nat>, table: seq<U16>, count: nat)
    requires [2, 3, 5, 7] <= ps
    requires count == (if |ps| < NumPrimes then |ps| else NumPrimes)
    requires count <= |table| && table[..count] == ps[..count]
    ensures count >= 4 && table[..4] == [2, 3, 5, 7]
  {
    assert table[..4] == table[..count][..4] == ps[..4];
  }

  lemma {:induction false} PrimesPrefix(lo: nat, a: nat, b: nat)
    requires a <= b
    ensures Primes(lo, a) <= Primes(lo, b)
    decreases b - a
  {
    if a < b {
      PrimesPrefix(lo, a, b - 1);
    }
  }

  lemma PrefixAscending(ps: seq<nat>, table: seq<U16>, count: nat)
    requires count <= |ps| && count <= |table| && table[..count] == ps[..count]
    requires forall k, l :: 0 <= k < l < |ps| ==> ps[k] < ps[l]
    ensures forall k, l :: 0 <= k < l < count ==> table[k] < table[l]
  {
    forall k, l | 0 <= k < l < count
      ensures table[k] < table[l]
    {
      assert table[k] == table[..count][k] == ps[k];
      assert table[l] == table[..count][l] == ps[l];
    }
  }

  /** The first four entries of the reference list. */
  lemma FirstPrimes()
    ensures Primes(2, 8) == [2, 3, 5, 7]
  {
    assert !IsPrime(4) by { assert Divides(2, 4); }
    assert !IsPrime(6) by { assert Divides(2, 6); }
    assert IsPrime(5) by {
      forall d | 2 <= d < 5 ensures !Divides(d, 5) {
        assert d == 2 || d == 3 || d == 4;
      }
    }
    assert IsPrime(7) by {
      forall d | 2 <= d < 7 ensures !Divides(d, 7) {
        assert d == 2 || d == 3 || d == 4 || d == 5 || d == 6;
      }
    }
    assert IsPrime(3) by {
      forall d | 2 <= d < 3 ensures !Divides(d, 3) {
        assert d == 2;
      }
    }
    assert Primes(2, 2) == [];
  }
}
