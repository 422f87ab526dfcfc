/**
 * The prime-size service the table relies on: the table of primes
 * `prime_tab`, `hash_table_higher_prime_index` and the two probe moduli
 * `hash_table_mod1` / `hash_table_mod2`.  The header only declares them;
 * here the table of primes is a parameter of the hash table and the three
 * functions are given the definitions their contracts call for.
 */
module PrimeService {
  import opened Options

  /** p is a prime number. */
  ghost predicate IsPrime(p: nat) {
    p >= 2 && forall k :: 1 < k < p ==> NotDivisor(k, p)
  }

  /** k does not divide p. */
  ghost predicate NotDivisor(k: nat, p: nat)
    requires k > 0
  {
    p % k != 0
  }

  /**
   * What the hash table needs of its table of primes: at least one entry,
   * and every entry a prime of at least 5 (the smallest size at which a
   * table filled to 75% still keeps an Empty slot after one insertion).
   */
  ghost predicate ValidPrimeTab(primes: seq<nat>) {
    |primes| > 0 && AllPrime(primes)
  }

  /** Every entry is a prime of at least 5. */
  ghost predicate AllPrime(s: seq<nat>) {
    forall i :: 0 <= i < |s| ==> IsPrime(s[i]) && s[i] >= 5
  }

  /**
   * hash_table_higher_prime_index: the first index whose prime is at least
   * n, or None where the service gives up (it aborts: no prime is that large).
   */
  function HigherPrimeIndex(primes: seq<nat>, n: nat): (r: Option<nat>)
    ensures r.Some? ==> r.value < |primes| && primes[r.value] >= n
  {
    HigherPrimeIndexFrom(primes, n, 0)
  }

  /** The first index from i on whose prime is at least n. */
  function HigherPrimeIndexFrom(primes: seq<nat>, n: nat, i: nat): (r: Option<nat>)
    ensures r.Some? ==> i <= r.value < |primes| && primes[r.value] >= n
    decreases |primes| - i
  {
    if i >= |primes| then None
    else if primes[i] >= n then Some(i)
    else HigherPrimeIndexFrom(primes, n, i + 1)
  }

  /** The search from i on passes over primes below n only, and gives up only when none from i on is large enough. */
  lemma {:induction false} HigherPrimeIndexFromFirst(primes: seq<nat>, n: nat, i: nat)
    requires forall j :: 0 <= j < i && j < |primes| ==> primes[j] < n
    ensures var r := HigherPrimeIndexFrom(primes, n, i);
      (r.Some? ==> forall j :: 0 <= j < r.value ==> primes[j] < n) &&
      (r.None? ==> forall j :: 0 <= j < |primes| ==> primes[j] < n)
    decreases |primes| - i
  {
    if i < |primes| && primes[i] < n {
      HigherPrimeIndexFromFirst(primes, n, i + 1);
    }
  }

  /** The index chosen is the first whose prime is at least n; None means every prime is below n. */
  lemma HigherPrimeIndexFirst(primes: seq<nat>, n: nat)
    ensures var r := HigherPrimeIndex(primes, n);
      (r.Some? ==> forall j :: 0 <= j < r.value ==> primes[j] < n) &&
      (r.None? ==> forall j :: 0 <= j < |primes| ==> primes[j] < n)
  {
    HigherPrimeIndexFromFirst(primes, n, 0);
  }

  /** The remainder of hash divided by p, by repeated subtraction. */
  function Rem(hash: nat, p: nat): (r: nat)
    requires p > 0
    ensures r < p
    decreases hash
  {
    if hash < p then hash else Rem(hash - p, p)
  }

  /** hash_table_mod1: the start slot of the probe sequence, below the table size p. */
  function Mod1(hash: nat, p: nat): (r: nat)
    requires p > 0
    ensures r < p
  {
    Rem(hash, p)
  }

  /** hash_table_mod2: the probe increment, never 0 and below the table size p. */
  function Mod2(hash: nat, p: nat): (r: nat)
    requires p >= 3
    ensures 1 <= r < p
  {
    1 + Rem(hash, p - 2)
  }

  /** Repeated subtraction computes the remainder. */
  lemma {:induction false} RemIsMod(hash: nat, p: nat)
    requires p > 0
    ensures Rem(hash, p) == hash % p
    decreases hash
  {
    if hash < p {
      ModUnique(hash, p, 0, hash);
    } else {
      RemIsMod(hash - p, p);
      var q, r := (hash - p) / p, (hash - p) % p;
      assert hash == (q + 1) * p + r;
      ModUnique(hash, p, q + 1, r);
    }
  }

  /** The start slot is the hash modulo the prime, the increment one plus the hash modulo the prime minus two. */
  lemma ModFormulas(hash: nat, p: nat)
    requires p >= 3
    ensures Mod1(hash, p) == hash % p && Mod2(hash, p) == 1 + hash % (p - 2)
  {
    RemIsMod(hash, p);
    RemIsMod(hash, p - 2);
  }

  /** Euclidean remainder is determined by any decomposition z == q*p + r with 0 <= r < p. */
  lemma ModUnique(z: int, p: int, q: int, r: int)
    requires p > 0 && 0 <= r < p && z == q * p + r
    ensures z % p == r && z / p == q
  {
    var q0, r0 := z / p, z % p;
    assert z == q0 * p + r0;
    assert (q - q0) * p == r0 - r;
    if q > q0 {
      assert (q - q0) * p >= p by { MulAtLeast(q - q0, p); }
    } else if q < q0 {
      assert (q0 - q) * p >= p by { MulAtLeast(q0 - q, p); }
    }
  }

  lemma MulAtLeast(a: int, p: int)
    requires a >= 1 && p > 0
    ensures a * p >= p
  {
    assert a * p == (a - 1) * p + p;
  }

  /** Adding y to a remainder is adding y to the number: ((x % p) + y) % p == (x + y) % p. */
  lemma ModAddLeft(x: nat, y: nat, p: nat)
    requires p > 0
    ensures ((x % p) + y) % p == (x + y) % p
  {
    var w := x % p + y;
    assert x == (x / p) * p + x % p;
    assert w == (w / p) * p + w % p;
    assert x + y == (x / p + w / p) * p + w % p;
    ModUnique(x + y, p, x / p + w / p, w % p);
  }

  /**
   * A prime divides no product of two numbers that are both strictly
   * between 0 and the prime.  By induction on a: p % a is a smaller
   * positive factor whose product with b p would still divide.
   */
  lemma {:induction false} PrimeDividesNoProduct(p: nat, a: nat, b: nat)
    requires IsPrime(p) && 0 < a < p && 0 < b < p
    ensures (a * b) % p != 0
    decreases a
  {
    if a == 1 {
      assert a * b == b;
      ModUnique(b, p, 0, b);
    } else {
      var q, r := p / a, p % a;
      assert NotDivisor(a, p);
      assert p == q * a + r;
      PrimeDividesNoProduct(p, r, b);
      if (a * b) % p == 0 {
        var m := (a * b) / p;
        assert a * b == m * p;
        assert r * b == p * b - q * (a * b);
        assert r * b == (b - q * m) * p;
        ModUnique(r * b, p, b - q * m, 0);
      }
    }
  }
}
