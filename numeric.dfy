/** Prime factorisation and radical simplification (utils/numeric.py).

    `primes` returns a dictionary {base: exponent}. Python dictionaries keep
    insertion order, so the model keeps the entries as a sequence, and the
    two dictionary updates the source performs, `d[k] = v` and the
    defaultdict's `d[k] += 1`, are Assign and Increment below. */
module Numeric {
  import opened Outcome
  import opened Arith
  import opened Exact

  datatype Factor = Factor(base: int, exponent: int)

  /** `1 << 40`: beyond this magnitude `primes` gives up and returns {n: 1}. */
  const Limit: int := 0x100_0000_0000

  predicate IsPrime(p: int) {
    p > 1 && forall d :: 1 < d < p ==> p % d != 0
  }

  predicate HasKey(fs: seq<Factor>, k: int) {
    exists i :: 0 <= i < |fs| && fs[i].base == k
  }

  predicate DistinctKeys(fs: seq<Factor>) {
    forall i, j :: 0 <= i < j < |fs| ==> fs[i].base != fs[j].base
  }

  /** The position of key k, or |fs| when k is absent. */
  function Find(fs: seq<Factor>, k: int): (i: nat)
    ensures i <= |fs|
    ensures i < |fs| ==> fs[i].base == k
    ensures forall j :: 0 <= j < i ==> fs[j].base != k
  {
    if fs == [] then 0
    else if fs[0].base == k then 0
    else 1 + Find(fs[1..], k)
  }

  lemma FindAbsent(fs: seq<Factor>, k: int)
    ensures Find(fs, k) == |fs| <==> !HasKey(fs, k)
  {
  }

  function Lookup(fs: seq<Factor>, k: int): Option<int> {
    var i := Find(fs, k);
    if i < |fs| then Some(fs[i].exponent) else None
  }

  /** `d[k] = v`: overwrite the entry in place, or append a new key. */
  function Assign(fs: seq<Factor>, k: int, v: int): (r: seq<Factor>) {
    var i := Find(fs, k);
    if i < |fs| then fs[i := Factor(k, v)] else fs + [Factor(k, v)]
  }

  /** `d[k] += 1` on a `defaultdict(int)`: a missing key counts as 0. */
  function Increment(fs: seq<Factor>, k: int): (r: seq<Factor>) {
    var i := Find(fs, k);
    if i < |fs| then fs[i := Factor(k, fs[i].exponent + 1)] else fs + [Factor(k, 1)]
  }

  /** Assignment sets the key and leaves every other key as it was. */
  lemma AssignLookup(fs: seq<Factor>, k: int, v: int, q: int)
    ensures Lookup(Assign(fs, k, v), q) == if q == k then Some(v) else Lookup(fs, q)
  {
    var i := Find(fs, k);
    var r := Assign(fs, k, v);
    FindAbsent(fs, k);
    if q != k {
      FindStable(fs, r, q, i);
    } else {
      FindFirst(r, q, i);
    }
  }

  /** Incrementing adds one to the stored count, a missing key counting as 0. */
  lemma IncrementLookup(fs: seq<Factor>, k: int, q: int)
    ensures Lookup(Increment(fs, k), q)
      == if q == k then Some(match Lookup(fs, k) case Some(e) => e + 1 case None => 1) else Lookup(fs, q)
  {
    var i := Find(fs, k);
    var r := Increment(fs, k);
    if q != k {
      FindStable(fs, r, q, i);
    } else {
      FindFirst(r, q, i);
    }
  }

  /** Find returns the first position holding the key. */
  lemma {:induction false} FindFirst(fs: seq<Factor>, q: int, j: nat)
    requires j <= |fs| && (j < |fs| ==> fs[j].base == q)
    requires forall l :: 0 <= l < j ==> fs[l].base != q
    ensures Find(fs, q) == j
    decreases |fs|
  {
    if fs != [] && j > 0 {
      FindFirst(fs[1..], q, j - 1);
    }
  }

  /** Changing or appending the entry at position i, which holds some key
      other than q, does not move q. */
  lemma FindStable(fs: seq<Factor>, r: seq<Factor>, q: int, i: nat)
    requires i <= |fs| && (|r| == |fs| || |r| == |fs| + 1) && i < |r|
    requires forall j :: 0 <= j < |fs| && j != i ==> r[j] == fs[j]
    requires r[i].base != q && (i < |fs| ==> fs[i].base != q)
    requires |r| == |fs| + 1 ==> i == |fs|
    ensures Lookup(r, q) == Lookup(fs, q)
  {
    var j := Find(fs, q);
    if j < |fs| {
      FindFirst(r, q, j);
    } else {
      FindFirst(r, q, |r|);
    }
  }

  predicate NaturalExponents(fs: seq<Factor>) {
    forall i :: 0 <= i < |fs| ==> fs[i].exponent >= 0
  }

  /** The product of base^exponent over the entries, for natural exponents. */
  function IntProduct(fs: seq<Factor>): int
    requires NaturalExponents(fs)
  {
    if fs == [] then 1
    else IntProduct(fs[..|fs| - 1]) * Pow(fs[|fs| - 1].base, fs[|fs| - 1].exponent)
  }

  lemma AppendProduct(fs: seq<Factor>, f: Factor)
    requires NaturalExponents(fs) && f.exponent >= 0
    ensures NaturalExponents(fs + [f])
    ensures IntProduct(fs + [f]) == IntProduct(fs) * Pow(f.base, f.exponent)
  {
    assert (fs + [f])[..|fs|] == fs;
  }

  /** Raising one exponent by one multiplies the product by that base. */
  lemma {:induction false} BumpProduct(fs: seq<Factor>, i: nat)
    requires NaturalExponents(fs) && i < |fs|
    ensures NaturalExponents(fs[i := Factor(fs[i].base, fs[i].exponent + 1)])
    ensures IntProduct(fs[i := Factor(fs[i].base, fs[i].exponent + 1)]) == IntProduct(fs) * fs[i].base
    decreases |fs|
  {
    var r := fs[i := Factor(fs[i].base, fs[i].exponent + 1)];
    var n := |fs| - 1;
    if i == n {
      assert r[..n] == fs[..n];
      var b, e := fs[n].base, fs[n].exponent;
      assert Pow(b, e + 1) == b * Pow(b, e);
      assert IntProduct(r) == IntProduct(fs[..n]) * (b * Pow(b, e));
    } else {
      var p, rp := fs[..n], r[..n];
      assert rp == p[i := Factor(p[i].base, p[i].exponent + 1)];
      BumpProduct(p, i);
      var last := Pow(fs[n].base, fs[n].exponent);
      assert r[n] == fs[n];
      assert IntProduct(r) == IntProduct(rp) * last;
      assert IntProduct(fs) == IntProduct(p) * last;
      Rotate(IntProduct(p), fs[i].base, last, IntProduct(rp), IntProduct(fs));
    }
  }

  lemma Rotate(x: int, y: int, z: int, a: int, c: int)
    requires a == x * y && c == x * z
    ensures a * z == c * y
  {
  }

  lemma IncrementProduct(fs: seq<Factor>, k: int)
    requires NaturalExponents(fs)
    ensures NaturalExponents(Increment(fs, k))
    ensures IntProduct(Increment(fs, k)) == IntProduct(fs) * k
  {
    var i := Find(fs, k);
    if i < |fs| {
      BumpProduct(fs, i);
    } else {
      AppendProduct(fs, Factor(k, 1));
    }
  }

  /** Every base with a positive exponent divides the product. */
  lemma {:induction false} BaseDividesProduct(fs: seq<Factor>, j: nat)
    requires NaturalExponents(fs) && j < |fs| && fs[j].exponent >= 1 && fs[j].base > 0
    ensures IntProduct(fs) % fs[j].base == 0
    decreases |fs|
  {
    var n := |fs| - 1;
    var b := fs[j].base;
    var rest := IntProduct(fs[..n]);
    if j == n {
      var e := fs[n].exponent;
      assert Pow(b, e) == b * Pow(b, e - 1);
      assert IntProduct(fs) == b * (rest * Pow(b, e - 1));
      MultipleMod(b, rest * Pow(b, e - 1));
    } else {
      BaseDividesProduct(fs[..n], j);
      assert fs[..n][j] == fs[j];
      MulMod(rest, Pow(fs[n].base, fs[n].exponent), b);
    }
  }

  predicate Ascending(fs: seq<Factor>) {
    forall a, b :: 0 <= a < b < |fs| ==> fs[a].base < fs[b].base
  }

  /** Prime bases of positive exponent, none above `bound`. */
  predicate PrimeEntries(fs: seq<Factor>, bound: int) {
    forall j :: 0 <= j < |fs| ==> IsPrime(fs[j].base) && fs[j].base <= bound && fs[j].exponent >= 1
  }

  /** What `primes` promises of an integer n with |n| <= 2^40: distinct
      keys, each a prime with a positive exponent or -1 with exponent 1,
      -1 present exactly when n is negative, and the product equal to n. */
  predicate IsFactorization(n: int, fs: seq<Factor>) {
    DistinctKeys(fs)
    && (forall j :: 0 <= j < |fs| ==> (IsPrime(fs[j].base) && fs[j].exponent >= 1) || fs[j] == Factor(-1, 1))
    && (HasKey(fs, -1) <==> n < 0)
    && NaturalExponents(fs)
    && (n == 0 ==> fs == [])
    && (n != 0 ==> IntProduct(fs) == n)
  }

  /** A divisor found before any smaller one is prime. */
  lemma SmallestDivisorPrime(m: int, i: int)
    requires i >= 2 && m % i == 0 && NoSmallDivisor(m, i)
    ensures IsPrime(i)
  {
    forall d | 1 < d < i
      ensures i % d != 0
    {
      if i % d == 0 {
        DividesTransitive(d, i, m);
      }
    }
  }

  lemma DividesTransitive(d: int, i: int, m: int)
    requires d > 0 && i > 0 && i % d == 0 && m % i == 0
    ensures m % d == 0
  {
    var k := m / i;
    assert m == k * i;
    MulMod(i, k, d);
    assert i * k == m;
  }

  /** Dividing out a factor keeps the absence of small divisors. */
  lemma QuotientDivisors(m: int, i: int, d: int)
    requires i >= 2 && d >= 2 && m % i == 0 && m % d != 0
    ensures (m / i) % d != 0
  {
    if (m / i) % d == 0 {
      var k := m / i;
      assert m == k * i;
      MulMod(k, i, d);
    }
  }

  /** What is left when no divisor is at most its square root is prime. */
  lemma LastFactorPrime(m: int, i: int)
    requires m > 1 && i >= 2 && i * i > m && NoSmallDivisor(m, i)
    ensures IsPrime(m) && m >= i
  {
    assert m % m == 0;
    forall d | 1 < d < m
      ensures m % d != 0
    {
      if m % d == 0 {
        var e := m / d;
        assert m == d * e;
        MulSign(e, d);
        assert 1 < e;
        MulSign(d - e, d);
        assert e % e == 0 && m == e * d;
        MultipleMod(e, d);
        if d < i {
        } else if e < i {
        } else {
          MulMonotone(i, d, i, e);
        }
      }
    }
  }

  lemma MulMonotone(a: int, b: int, c: int, d: int)
    requires 0 <= a <= b && 0 <= c <= d
    ensures a * c <= b * d
  {
    assert a * c <= b * c;
    assert b * c <= b * d;
  }

  /** No d with 2 <= d < i divides m. */
  predicate NoSmallDivisor(m: int, i: int) {
    forall d :: 2 <= d < i ==> m % d != 0
  }

  /** Dividing m by its factor i keeps it free of divisors below i. */
  lemma QuotientNoSmallDivisor(m: int, i: int)
    requires m >= 1 && i >= 2 && m % i == 0 && NoSmallDivisor(m, i)
    ensures m == (m / i) * i && 1 <= m / i < m
    ensures NoSmallDivisor(m / i, i)
  {
    var k := m / i;
    assert m == k * i;
    MulSign(k, i);
    MulSign(k - 1, i);
    forall d | 2 <= d < i
      ensures k % d != 0
    {
      QuotientDivisors(m, i, d);
    }
  }

  lemma ExtendNoSmallDivisor(m: int, i: int)
    requires i >= 2 && NoSmallDivisor(m, i) && m % i != 0
    ensures NoSmallDivisor(m, i + 1)
  {
  }

  lemma WidenEntries(fs: seq<Factor>, b: int, c: int)
    requires PrimeEntries(fs, b) && b <= c
    ensures PrimeEntries(fs, c)
  {
  }

  /** One round of the inner loop: record i once more and divide it out. */
  lemma DivideOut(n: int, m: int, i: int, fs: seq<Factor>)
    requires m >= 1 && i >= 2 && m % i == 0 && NoSmallDivisor(m, i)
    requires NaturalExponents(fs) && Abs(n) == m * IntProduct(fs)
    requires Ascending(fs) && PrimeEntries(fs, i)
    ensures m / i >= 1 && m / i < m && NoSmallDivisor(m / i, i)
    ensures NaturalExponents(Increment(fs, i)) && Abs(n) == (m / i) * IntProduct(Increment(fs, i))
    ensures Ascending(Increment(fs, i)) && PrimeEntries(Increment(fs, i), i)
  {
    hide *;
    SmallestDivisorPrime(m, i);
    IncrementAscending(fs, i);
    IncrementProduct(fs, i);
    QuotientNoSmallDivisor(m, i);
    var k, p := m / i, IntProduct(fs);
    assert m * p == k * (p * i) by {
      assert m * p == (k * i) * p;
    }
  }

  /** `primes` of an integer, as the loop of utils/numeric.py computes it. */
  method IntegerPrimes(n: int) returns (factors: seq<Factor>)
    ensures Abs(n) > Limit ==> factors == [Factor(n, 1)]
    ensures Abs(n) <= Limit ==> IsFactorization(n, factors)
  {
    if Abs(n) > Limit {
      return [Factor(n, 1)];
    }
    hide *;
    var i := 2;
    var wasNeg := false;
    var m := n;
    if m < 0 {
      m := -m;
      wasNeg := true;
    }
    factors := [];
    StartPrimes(n, m);
    while i * i <= m
      invariant i >= 2 && m >= 0 && (m == 0 <==> n == 0) && (m == 0 ==> factors == [])
      invariant NaturalExponents(factors) && Abs(n) == m * IntProduct(factors)
      invariant NoSmallDivisor(m, i)
      invariant Ascending(factors) && PrimeEntries(factors, i - 1)
      decreases m - i
    {
      MulSign(i, i);
      WidenEntries(factors, i - 1, i);
      while m % i == 0
        invariant m >= 1
        invariant NaturalExponents(factors) && Abs(n) == m * IntProduct(factors)
        invariant NoSmallDivisor(m, i)
        invariant Ascending(factors) && PrimeEntries(factors, i)
        decreases m
      {
        DivideOut(n, m, i, factors);
        factors := Increment(factors, i);
        m := m / i;
      }
      ExtendNoSmallDivisor(m, i);
      i := i + 1;
    }
    ghost var found := factors;
    if m > 1 {
      LastFactorPrime(m, i);
    }
    if wasNeg {
      NegativeEntry(factors, i - 1);
      factors := Assign(factors, -1, 1);
    }
    if m > 1 {
      LastEntry(found, wasNeg, m, i);
      factors := Increment(factors, m);
    }
    FinishPrimes(n, m, i, wasNeg, found, factors);
  }

  lemma StartPrimes(n: int, m: int)
    requires m == Abs(n)
    ensures NaturalExponents([]) && Abs(n) == m * IntProduct([])
    ensures NoSmallDivisor(m, 2) && Ascending([]) && PrimeEntries([], 1)
  {
  }

  /** `factors[Const(-1)] = 1` appends, since every key so far is a prime. */
  lemma NegativeEntry(fs: seq<Factor>, b: int)
    requires PrimeEntries(fs, b)
    ensures Assign(fs, -1, 1) == fs + [Factor(-1, 1)]
  {
    FindFirst(fs, -1, |fs|);
  }

  /** The last prime is larger than every key before it, so it is appended. */
  lemma LastEntry(found: seq<Factor>, wasNeg: bool, m: int, i: int)
    requires PrimeEntries(found, i - 1) && m >= i && m > 1
    ensures var f1 := found + (if wasNeg then [Factor(-1, 1)] else []);
      Increment(f1, m) == f1 + [Factor(m, 1)]
  {
    var f1 := found + (if wasNeg then [Factor(-1, 1)] else []);
    FindFirst(f1, m, |f1|);
  }

  /** Appending to an ascending list of primes a larger prime keeps it so. */
  lemma IncrementAscending(fs: seq<Factor>, i: int)
    requires Ascending(fs) && PrimeEntries(fs, i) && IsPrime(i)
    ensures Ascending(Increment(fs, i)) && PrimeEntries(Increment(fs, i), i)
  {
    if |fs| > 0 && fs[|fs| - 1].base == i {
      FindFirst(fs, i, |fs| - 1);
    } else {
      FindFirst(fs, i, |fs|);
    }
  }

  /** The dictionary after the -1 and the last prime are recorded. */
  lemma FinishPrimes(n: int, m: int, i: int, wasNeg: bool, found: seq<Factor>, fs: seq<Factor>)
    requires i >= 2 && m >= 0 && (m == 0 <==> n == 0) && (wasNeg <==> n < 0)
    requires m == 0 ==> found == []
    requires NaturalExponents(found) && Abs(n) == m * IntProduct(found)
    requires Ascending(found) && PrimeEntries(found, i - 1)
    requires m > 1 ==> IsPrime(m) && m >= i
    requires fs == found + (if wasNeg then [Factor(-1, 1)] else []) + (if m > 1 then [Factor(m, 1)] else [])
    ensures IsFactorization(n, fs)
  {
    FinishKeys(m, i, wasNeg, found, fs);
    FinishProduct(n, m, wasNeg, found, fs);
    if m == 0 {
      assert fs == [];
    }
  }

  lemma FinishKeys(m: int, i: int, wasNeg: bool, found: seq<Factor>, fs: seq<Factor>)
    requires Ascending(found) && PrimeEntries(found, i - 1)
    requires m > 1 ==> IsPrime(m) && m >= i
    requires fs == found + (if wasNeg then [Factor(-1, 1)] else []) + (if m > 1 then [Factor(m, 1)] else [])
    ensures DistinctKeys(fs) && NaturalExponents(fs)
    ensures forall j :: 0 <= j < |fs| ==> (IsPrime(fs[j].base) && fs[j].exponent >= 1) || fs[j] == Factor(-1, 1)
    ensures HasKey(fs, -1) <==> wasNeg
  {
    if wasNeg {
      assert fs[|found|] == Factor(-1, 1);
    }
  }

  lemma AbsCases(x: int)
    ensures x < 0 ==> Abs(x) == -x
    ensures x >= 0 ==> Abs(x) == x
  {
  }

  lemma PowOne(b: int)
    ensures Pow(b, 1) == b
  {
  }

  lemma FinishProduct(n: int, m: int, wasNeg: bool, found: seq<Factor>, fs: seq<Factor>)
    requires m >= 0 && (wasNeg <==> n < 0) && (m == 0 <==> n == 0)
    requires NaturalExponents(found) && Abs(n) == m * IntProduct(found)
    requires fs == found + (if wasNeg then [Factor(-1, 1)] else []) + (if m > 1 then [Factor(m, 1)] else [])
    ensures NaturalExponents(fs)
    ensures n != 0 ==> IntProduct(fs) == n
  {
    hide *;
    var f1 := found;
    if wasNeg {
      AppendProduct(found, Factor(-1, 1));
      PowOne(-1);
      f1 := found + [Factor(-1, 1)];
    }
    var f2 := f1;
    if m > 1 {
      AppendProduct(f1, Factor(m, 1));
      PowOne(m);
      f2 := f1 + [Factor(m, 1)];
    }
    assert fs == f2;
    AbsCases(n);
    if n != 0 {
      var p := IntProduct(found);
      assert m * p == p * m;
      assert IntProduct(f1) == if wasNeg then -p else p;
      if m > 1 {
        assert IntProduct(f2) == IntProduct(f1) * m;
        assert (-p) * m == -(p * m);
      }
    }
  }

  /** What IntegerPrimes returns for x. */
  predicate PrimesOf(x: int, fs: seq<Factor>) {
    (Abs(x) > Limit ==> fs == [Factor(x, 1)]) && (Abs(x) <= Limit ==> IsFactorization(x, fs))
  }

  /** Facts about the keys of `primes(x)` that hold on both paths. */
  predicate KeysOf(x: int, fs: seq<Factor>) {
    DistinctKeys(fs) && NaturalExponents(fs) && IntProduct(fs) == x
    && forall j :: 0 <= j < |fs| ==>
      fs[j].base != 0 && fs[j].exponent >= 1
      && (fs[j].base > 0 ==> fs[j].base > 1 && x % fs[j].base == 0)
      && (fs[j].base < 0 ==> x < 0)
  }

  lemma PrimesOfIntro(x: int, fs: seq<Factor>)
    requires Abs(x) > Limit ==> fs == [Factor(x, 1)]
    requires Abs(x) <= Limit ==> IsFactorization(x, fs)
    ensures PrimesOf(x, fs)
  {
  }

  lemma PrimesKeys(x: int, fs: seq<Factor>)
    requires x != 0 && PrimesOf(x, fs)
    ensures KeysOf(x, fs)
  {
    if Abs(x) > Limit {
      LargeKeys(x, fs);
    } else {
      FactorizationKeys(x, fs);
    }
  }

  lemma LargeKeys(x: int, fs: seq<Factor>)
    requires Abs(x) > Limit && fs == [Factor(x, 1)]
    ensures KeysOf(x, fs)
  {
    SingletonProduct(x);
    assert |fs| == 1 && fs[0] == Factor(x, 1);
    if x > 0 {
      MultipleMod(x, 1);
      assert x > 1 && x % x == 0;
    }
  }

  lemma SingletonProduct(x: int)
    ensures IntProduct([Factor(x, 1)]) == x
  {
    PowOne(x);
    AppendProduct([], Factor(x, 1));
    assert [] + [Factor(x, 1)] == [Factor(x, 1)];
  }

  lemma FactorizationKeys(x: int, fs: seq<Factor>)
    requires x != 0 && IsFactorization(x, fs)
    ensures KeysOf(x, fs)
  {
    forall j | 0 <= j < |fs| && fs[j].base > 0
      ensures fs[j].base > 1 && x % fs[j].base == 0
    {
      BaseDividesProduct(fs, j);
    }
  }

  predicate NonzeroBases(fs: seq<Factor>) {
    forall i :: 0 <= i < |fs| ==> fs[i].base != 0
  }

  /** The product of base^exponent over the entries, for any integer exponents. */
  function RProduct(fs: seq<Factor>): real
    requires NonzeroBases(fs)
  {
    if fs == [] then 1.0
    else RProduct(fs[..|fs| - 1]) * RPow(fs[|fs| - 1].base as real, fs[|fs| - 1].exponent)
  }

  lemma {:induction false} RProductOfNatural(fs: seq<Factor>)
    requires NonzeroBases(fs) && NaturalExponents(fs)
    ensures RProduct(fs) == IntProduct(fs) as real
    decreases |fs|
  {
    if fs != [] {
      var n := |fs| - 1;
      RProductOfNatural(fs[..n]);
      var b, e := fs[n].base, fs[n].exponent;
      PowAsReal(b, e);
      RPowUnfold(b as real, e);
      assert (IntProduct(fs[..n]) * Pow(b, e)) as real == IntProduct(fs[..n]) as real * Pow(b, e) as real;
    }
  }

  lemma RProductSnoc(fs: seq<Factor>, f: Factor)
    requires NonzeroBases(fs) && f.base != 0
    ensures NonzeroBases(fs + [f])
    ensures RProduct(fs + [f]) == RProduct(fs) * RPow(f.base as real, f.exponent)
  {
    assert (fs + [f])[..|fs|] == fs;
  }

  lemma {:induction false} RProductConcat(a: seq<Factor>, b: seq<Factor>)
    requires NonzeroBases(a) && NonzeroBases(b)
    ensures NonzeroBases(a + b)
    ensures RProduct(a + b) == RProduct(a) * RProduct(b)
    decreases |b|
  {
    hide *;
    if b == [] {
      assert a + b == a;
      EmptyProduct();
    } else {
      var n := |b| - 1;
      var f := b[n];
      NonzeroPrefix(b, n);
      assert b == b[..n] + [f];
      assert a + b == (a + b[..n]) + [f];
      RProductConcat(a, b[..n]);
      RProductSnoc(a + b[..n], f);
      RProductSnoc(b[..n], f);
      var x, y, z := RProduct(a), RProduct(b[..n]), RPow(f.base as real, f.exponent);
      assert (x * y) * z == x * (y * z);
    }
  }

  lemma EmptyProduct()
    ensures NonzeroBases([]) && RProduct([]) == 1.0
  {
  }

  lemma NonzeroPrefix(b: seq<Factor>, n: nat)
    requires NonzeroBases(b) && n < |b|
    ensures NonzeroBases(b[..n]) && b[n].base != 0
  {
  }

  /** The entries with every exponent negated: `res[p] = -exp`. */
  function Negated(fs: seq<Factor>): seq<Factor> {
    seq(|fs|, i requires 0 <= i < |fs| => Factor(fs[i].base, -fs[i].exponent))
  }

  /** Negating every exponent inverts the product. */
  lemma {:induction false} RProductNegated(fs: seq<Factor>)
    requires NonzeroBases(fs)
    ensures NonzeroBases(Negated(fs))
    ensures RProduct(Negated(fs)) * RProduct(fs) == 1.0
    decreases |fs|
  {
    hide *;
    if fs == [] {
      EmptyProduct();
      NegatedEmpty();
    } else {
      var n := |fs| - 1;
      var f := fs[n];
      NonzeroPrefix(fs, n);
      NegatedSnoc(fs, n);
      assert fs[..n + 1] == fs;
      assert fs == fs[..n] + [f];
      RProductNegated(fs[..n]);
      NegatedStep(fs[..n], f);
    }
  }

  lemma NegatedEmpty()
    ensures Negated([]) == []
  {
  }

  /** The inductive step of RProductNegated, with the products as atoms. */
  lemma NegatedStep(p: seq<Factor>, f: Factor)
    requires NonzeroBases(p) && NonzeroBases(Negated(p)) && f.base != 0
    requires RProduct(Negated(p)) * RProduct(p) == 1.0
    ensures NonzeroBases(Negated(p) + [Factor(f.base, -f.exponent)]) && NonzeroBases(p + [f])
    ensures RProduct(Negated(p) + [Factor(f.base, -f.exponent)]) * RProduct(p + [f]) == 1.0
  {
    hide *;
    var g := Factor(f.base, -f.exponent);
    RProductSnoc(Negated(p), g);
    RProductSnoc(p, f);
    var x := f.base as real;
    RPowAdd(x, -f.exponent, f.exponent);
    RPowUnfold(x, 0);
    RPowNatZero(x);
    var a, b := RProduct(Negated(p)), RProduct(p);
    var u, v := RPow(x, -f.exponent), RPow(x, f.exponent);
    assert (a * u) * (b * v) == (a * b) * (u * v);
  }

  lemma RPowNatZero(x: real)
    ensures RPowNat(x, 0) == 1.0
  {
  }

  /** Negated of a prefix extended by one entry. */
  lemma NegatedSnoc(fs: seq<Factor>, n: nat)
    requires n < |fs|
    ensures Negated(fs[..n + 1]) == Negated(fs[..n]) + [Factor(fs[n].base, -fs[n].exponent)]
  {
    var a, b := Negated(fs[..n + 1]), Negated(fs[..n]) + [Factor(fs[n].base, -fs[n].exponent)];
    assert |a| == |b|;
    forall i | 0 <= i < |a|
      ensures a[i] == b[i]
    {
      if i < n {
        assert a[i] == Factor(fs[i].base, -fs[i].exponent);
      }
    }
  }

  /** A common divisor above 1 of coprime numbers does not exist. */
  lemma NoCommonDivisor(a: int, b: int, q: int)
    requires IntGcd(a, b) == 1 && q > 1
    ensures !(a % q == 0 && b % q == 0)
  {
    if a % q == 0 && b % q == 0 {
      OneModulo(q);
      AbsDivides(a, q);
      AbsDivides(b, q);
      GcdGreatest(Abs(a), Abs(b), q);
    }
  }

  lemma AbsDivides(a: int, q: int)
    requires q > 0 && a % q == 0
    ensures Abs(a) % q == 0
  {
    if a < 0 {
      DividesLinear(q, a, 0, -1);
    }
  }

  /** `primes` of a Const (utils/numeric.py): a Fraction factors its
      numerator and gives each prime of its denominator the negated exponent. */
  method Primes(c: Const) returns (res: seq<Factor>)
    requires Valid(c)
    ensures c.denominator == 1 ==> PrimesOf(c.numerator, res)
    ensures c.numerator != 0 ==> DistinctKeys(res) && NonzeroBases(res) && RProduct(res) == Value(c)
    ensures forall j :: 0 <= j < |res| ==>
      (res[j].exponent < 0 <==> res[j].base > 1 && c.denominator % res[j].base == 0)
  {
    hide *;
    if c.denominator != 1 {
      res := IntegerPrimes(c.numerator);
      PrimesOfIntro(c.numerator, res);
      var den := IntegerPrimes(c.denominator);
      PrimesOfIntro(c.denominator, den);
      NumeratorNonzero(c);
      PrimesKeys(c.numerator, res);
      ValidDenominator(c);
      PrimesKeys(c.denominator, den);
      ghost var num := res;
      Disjoint(c, num, den);
      KeysDistinct(c.denominator, den);
      res := AssignNegated(res, den);
      FractionPrimes(c, num, den, res);
    } else {
      res := IntegerPrimes(c.numerator);
      PrimesOfIntro(c.numerator, res);
      IntegerCase(c, res);
    }
  }

  /** The loop of `primes` over the denominator's entries: with no key shared,
      every entry is appended to the numerator's dict with its exponent negated. */
  method AssignNegated(num: seq<Factor>, den: seq<Factor>) returns (res: seq<Factor>)
    requires NoSharedKey(num, den) && DistinctKeys(den)
    ensures res == num + Negated(den)
  {
    res := num;
    NegatedEmpty();
    assert den[..0] == [];
    for k := 0 to |den|
      invariant res == num + Negated(den[..k])
    {
      AbsentKey(num, den, k);
      NegatedSnoc(den, k);
      res := Assign(res, den[k].base, -den[k].exponent);
    }
    assert den[..|den|] == den;
  }

  lemma NumeratorNonzero(c: Const)
    requires Valid(c) && c.denominator != 1
    ensures c.numerator != 0
  {
    var d := c.denominator;
    assert Gcd(0, d) == Gcd(d, 0) == d;
  }

  predicate NoSharedKey(a: seq<Factor>, b: seq<Factor>) {
    forall j, l :: 0 <= j < |a| && 0 <= l < |b| ==> a[j].base != b[l].base
  }

  /** The numerator and the denominator of a Fraction in lowest terms share no key. */
  lemma Disjoint(c: Const, num: seq<Factor>, den: seq<Factor>)
    requires Valid(c) && KeysOf(c.numerator, num) && KeysOf(c.denominator, den)
    ensures NoSharedKey(num, den)
  {
    forall j, l | 0 <= j < |num| && 0 <= l < |den|
      ensures num[j].base != den[l].base
    {
      var q := den[l].base;
      if num[j].base == q {
        NoCommonDivisor(c.numerator, c.denominator, q);
      }
    }
  }

  /** Each key of the denominator is new when it is assigned. */
  lemma AbsentKey(num: seq<Factor>, den: seq<Factor>, k: nat)
    requires NoSharedKey(num, den) && DistinctKeys(den) && k < |den|
    ensures var r := num + Negated(den[..k]);
      Assign(r, den[k].base, -den[k].exponent) == r + [Factor(den[k].base, -den[k].exponent)]
  {
    var r := num + Negated(den[..k]);
    forall l | 0 <= l < |r|
      ensures r[l].base != den[k].base
    {
      if l >= |num| {
        assert r[l].base == den[l - |num|].base;
      }
    }
    FindFirst(r, den[k].base, |r|);
  }

  lemma FractionPrimes(c: Const, num: seq<Factor>, den: seq<Factor>, res: seq<Factor>)
    requires Valid(c) && c.numerator != 0
    requires KeysOf(c.numerator, num) && KeysOf(c.denominator, den) && NoSharedKey(num, den)
    requires res == num + Negated(den)
    ensures DistinctKeys(res) && NonzeroBases(res) && RProduct(res) == Value(c)
    ensures forall j :: 0 <= j < |res| ==>
      (res[j].exponent < 0 <==> res[j].base > 1 && c.denominator % res[j].base == 0)
  {
    FractionKeys(c, num, den, res);
    FractionProduct(c, num, den, res);
  }

  lemma FractionKeys(c: Const, num: seq<Factor>, den: seq<Factor>, res: seq<Factor>)
    requires Valid(c)
    requires KeysOf(c.numerator, num) && KeysOf(c.denominator, den) && NoSharedKey(num, den)
    requires res == num + Negated(den)
    ensures DistinctKeys(res) && NonzeroBases(res)
    ensures forall j :: 0 <= j < |res| ==>
      (res[j].exponent < 0 <==> res[j].base > 1 && c.denominator % res[j].base == 0)
  {
    forall j | 0 <= j < |res|
      ensures res[j].base != 0
      ensures res[j].exponent < 0 <==> res[j].base > 1 && c.denominator % res[j].base == 0
    {
      if j < |num| {
        if res[j].base > 1 {
          NoCommonDivisor(c.numerator, c.denominator, res[j].base);
        }
      } else {
        assert res[j] == Factor(den[j - |num|].base, -den[j - |num|].exponent);
      }
    }
    forall i, j | 0 <= i < j < |res|
      ensures res[i].base != res[j].base
    {
      if i >= |num| {
        assert res[i].base == den[i - |num|].base && res[j].base == den[j - |num|].base;
      } else if j >= |num| {
        assert res[j].base == den[j - |num|].base;
      }
    }
  }

  lemma FractionProduct(c: Const, num: seq<Factor>, den: seq<Factor>, res: seq<Factor>)
    requires Valid(c) && c.numerator != 0
    requires KeysOf(c.numerator, num) && KeysOf(c.denominator, den)
    requires res == num + Negated(den)
    ensures NonzeroBases(res) && RProduct(res) == Value(c)
  {
    hide *;
    KeysNonzero(c.numerator, num);
    KeysNonzero(c.denominator, den);
    RProductNegated(den);
    RProductConcat(num, Negated(den));
    RProductOfNatural(num);
    RProductOfNatural(den);
    KeysProduct(c.numerator, num);
    KeysProduct(c.denominator, den);
    ValidDenominator(c);
    ValueOfConst(c);
    var x, y := c.numerator as real, c.denominator as real;
    InverseProduct(RProduct(Negated(den)), y, x);
  }

  lemma ValidDenominator(c: Const)
    requires Valid(c)
    ensures c.denominator > 0
  {
  }

  lemma KeysDistinct(x: int, fs: seq<Factor>)
    requires KeysOf(x, fs)
    ensures DistinctKeys(fs)
  {
  }

  lemma KeysNonzero(x: int, fs: seq<Factor>)
    requires KeysOf(x, fs)
    ensures NonzeroBases(fs) && NaturalExponents(fs)
  {
  }

  lemma KeysProduct(x: int, fs: seq<Factor>)
    requires KeysOf(x, fs)
    ensures NaturalExponents(fs) && IntProduct(fs) == x
  {
  }

  lemma ValueOfConst(c: Const)
    requires c.denominator > 0
    ensures Value(c) == c.numerator as real / c.denominator as real
  {
  }

  lemma InverseProduct(r: real, y: real, x: real)
    requires y > 0.0 && r * y == 1.0
    ensures x * r == x / y
  {
  }

  lemma IntegerCase(c: Const, res: seq<Factor>)
    requires Valid(c) && c.denominator == 1 && PrimesOf(c.numerator, res)
    ensures c.numerator != 0 ==> DistinctKeys(res) && NonzeroBases(res) && RProduct(res) == Value(c)
    ensures forall j :: 0 <= j < |res| ==>
      (res[j].exponent < 0 <==> res[j].base > 1 && c.denominator % res[j].base == 0)
  {
    if c.numerator != 0 {
      PrimesKeys(c.numerator, res);
      RProductOfNatural(res);
    }
    PositiveExponents(c.numerator, res);
  }

  /** Every exponent of `primes(x)` for an integer x is at least 1. */
  lemma PositiveExponents(x: int, fs: seq<Factor>)
    requires PrimesOf(x, fs)
    ensures forall j :: 0 <= j < |fs| ==> fs[j].exponent >= 1
  {
  }
}
