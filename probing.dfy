/**
 * Double hashing.  A search for hash h in a table of prime size p starts at
 * slot Mod1(h, p) and advances by Mod2(h, p), wrapping around by one
 * subtraction (`index += hash2; if (index >= size) index -= size;`).
 * Because p is prime and the step lies strictly between 0 and p, the first
 * p probes visit every slot exactly once.
 */
module Probing {
  import opened PrimeService

  /** One probe step: add the increment and wrap around by subtraction. */
  function Step(index: nat, hash2: nat, size: nat): (r: nat)
    requires index < size && hash2 < size
    ensures r < size
  {
    var i := index + hash2;
    if i >= size then i - size else i
  }

  /** Wrapping by one subtraction is the remainder modulo the size. */
  lemma StepIsMod(index: nat, hash2: nat, size: nat)
    requires index < size && hash2 < size
    ensures Step(index, hash2, size) == (index + hash2) % size
  {
    var i := index + hash2;
    if i >= size {
      ModUnique(i, size, 1, i - size);
    } else {
      ModUnique(i, size, 0, i);
    }
  }

  /** The k-th slot of the probe sequence with the given start and increment. */
  function Probe(start: nat, hash2: nat, size: nat, k: nat): (r: nat)
    requires start < size && hash2 < size
    ensures r < size
    decreases k
  {
    if k == 0 then start else Step(Probe(start, hash2, size, k - 1), hash2, size)
  }

  /** The k-th slot visited by a search for hash h in a table of size p. */
  function ProbeAt(p: nat, h: nat, k: nat): (r: nat)
    requires p >= 3
    ensures r < p
  {
    Probe(Mod1(h, p), Mod2(h, p), p, k)
  }

  /** The next probe of a search: one step on from the current one. */
  lemma ProbeNext(p: nat, h: nat, k: nat)
    requires p >= 3
    ensures ProbeAt(p, h, k + 1) ==
      (if ProbeAt(p, h, k) + Mod2(h, p) >= p then ProbeAt(p, h, k) + Mod2(h, p) - p else ProbeAt(p, h, k) + Mod2(h, p))
  {
  }

  /** Closed form of the probe sequence: the k-th probe is (start + k * hash2) mod size. */
  lemma {:induction false} ProbeClosedForm(start: nat, hash2: nat, size: nat, k: nat)
    requires start < size && hash2 < size
    ensures Probe(start, hash2, size, k) == (start + k * hash2) % size
    decreases k
  {
    if k == 0 {
      ModUnique(start, size, 0, start);
    } else {
      ProbeClosedForm(start, hash2, size, k - 1);
      StepIsMod(Probe(start, hash2, size, k - 1), hash2, size);
      var x := start + (k - 1) * hash2;
      ModAddLeft(x, hash2, size);
      assert x + hash2 == start + k * hash2;
    }
  }

  /** Adding a non-multiple of p changes the remainder modulo p. */
  lemma ShiftChangesRemainder(x: nat, y: nat, p: nat)
    requires p > 0 && y % p != 0
    ensures (x + y) % p != x % p
  {
    var u, q := y % p, y / p;
    var a, qx := x % p, x / p;
    assert y == q * p + u;
    assert x == qx * p + a;
    assert x + y == (qx + q) * p + (a + u);
    if a + u < p {
      ModUnique(x + y, p, qx + q, a + u);
    } else {
      assert x + y == (qx + q + 1) * p + (a + u - p);
      ModUnique(x + y, p, qx + q + 1, a + u - p);
    }
  }

  /** The first `size` probes are pairwise distinct when the size is prime. */
  lemma ProbeInjective(start: nat, hash2: nat, size: nat, i: nat, j: nat)
    requires IsPrime(size) && start < size && 0 < hash2 < size
    requires i < j < size
    ensures Probe(start, hash2, size, i) != Probe(start, hash2, size, j)
  {
    ProbeClosedForm(start, hash2, size, i);
    ProbeClosedForm(start, hash2, size, j);
    var m := j - i;
    var x := start + i * hash2;
    var y := m * hash2;
    SplitProduct(i, m, hash2);
    assert start + j * hash2 == x + y;
    PrimeDividesNoProduct(size, m, hash2);
    ShiftChangesRemainder(x, y, size);
  }

  lemma SplitProduct(i: nat, m: nat, d: nat)
    ensures (i + m) * d == i * d + m * d
  {
  }

  /** The set of the first n probes. */
  ghost function ProbeSet(start: nat, hash2: nat, size: nat, n: nat): set<nat>
    requires start < size && hash2 < size
  {
    set k | 0 <= k < n :: Probe(start, hash2, size, k)
  }

  lemma {:induction false} ProbeSetSize(start: nat, hash2: nat, size: nat, n: nat)
    requires IsPrime(size) && start < size && 0 < hash2 < size && n <= size
    ensures |ProbeSet(start, hash2, size, n)| == n
    ensures forall x :: x in ProbeSet(start, hash2, size, n) ==> x < size
    decreases n
  {
    if n > 0 {
      ProbeSetSize(start, hash2, size, n - 1);
      var prev := ProbeSet(start, hash2, size, n - 1);
      var last := Probe(start, hash2, size, n - 1);
      assert ProbeSet(start, hash2, size, n) == prev + {last};
      if last in prev {
        var k :| 0 <= k < n - 1 && Probe(start, hash2, size, k) == last;
        ProbeInjective(start, hash2, size, k, n - 1);
      }
    }
  }

  /** The slots below n. */
  ghost function Below(n: nat): (r: set<nat>)
    ensures forall x: nat :: x in r <==> x < n
    ensures |r| == n
    decreases n
  {
    if n == 0 then {} else Below(n - 1) + {n - 1}
  }

  lemma SubsetOfSameSize(a: set<nat>, b: set<nat>)
    requires a <= b && |a| == |b|
    ensures a == b
  {
    if x :| x in b && x !in a {
      assert a <= b - {x};
      SubsetSize(a, b - {x});
    }
  }

  lemma {:induction false} SubsetSize(a: set<nat>, b: set<nat>)
    requires a <= b
    ensures |a| <= |b|
    decreases |b|
  {
    if x :| x in a {
      SubsetSize(a - {x}, b - {x});
    }
  }

  /** Probe coverage: every slot of a table of prime size is among the first `size` probes. */
  lemma ProbeCovers(start: nat, hash2: nat, size: nat, e: nat)
    requires IsPrime(size) && start < size && 0 < hash2 < size && e < size
    ensures exists k :: 0 <= k < size && Probe(start, hash2, size, k) == e
  {
    ProbeSetSize(start, hash2, size, size);
    var s := ProbeSet(start, hash2, size, size);
    assert s <= Below(size);
    SubsetOfSameSize(s, Below(size));
    assert e in Below(size);
  }

  /** Probe coverage for the search of hash h in a table of prime size p. */
  lemma ProbeAtCovers(p: nat, h: nat, e: nat)
    requires IsPrime(p) && p >= 3 && e < p
    ensures exists k :: 0 <= k < p && ProbeAt(p, h, k) == e
  {
    ProbeCovers(Mod1(h, p), Mod2(h, p), p, e);
    var k :| 0 <= k < p && Probe(Mod1(h, p), Mod2(h, p), p, k) == e;
    assert ProbeAt(p, h, k) == e;
  }

  /** The first p probes of a search in a table of prime size p are pairwise distinct. */
  lemma ProbeAtInjective(p: nat, h: nat, i: nat, j: nat)
    requires IsPrime(p) && p >= 3 && i < j < p
    ensures ProbeAt(p, h, i) != ProbeAt(p, h, j)
  {
    ProbeInjective(Mod1(h, p), Mod2(h, p), p, i, j);
  }

  /**
   * The probe step as the source writes it, on the 32-bit `hashval_t`:
   * the sum `index + hash2` is taken modulo 2^32 before the comparison.
   */
  function Step32(index: nat, hash2: nat, size: nat): (r: nat)
    requires index < size && hash2 < size && size < 0x1_0000_0000
    ensures r < size
  {
    var i := (index + hash2) % 0x1_0000_0000;
    if i >= size then i - size else i
  }

  /** Below 2^31 slots the 32-bit step is the intended modular step. */
  lemma Step32Agrees(index: nat, hash2: nat, size: nat)
    requires index < size && hash2 < size && size <= 0x8000_0000
    ensures Step32(index, hash2, size) == Step(index, hash2, size)
  {
    ModUnique(index + hash2, 0x1_0000_0000, 0, index + hash2);
  }

  /** Above 2^31 slots the sum wraps and the step lands on the wrong slot. */
  lemma Step32Wraps()
    ensures Step32(4294967290, 4294967289, 4294967291) == 4294967283
    ensures Step(4294967290, 4294967289, 4294967291) == 4294967288
  {
  }
}
