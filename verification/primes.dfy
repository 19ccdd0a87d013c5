/** Trial-division prime counting, as written identically in the C++ and the Java
    serial prime finders.

    `IsPrime` is checked against the definition of a prime (no divisor between 2
    and n - 1), which the loop only tests up to the square root; `CountPrimesInRange`
    is checked against the size of the set of primes in the range. Integers are
    mathematical: the 32-bit overflow of `i * i` and `i++` is not modelled. */
module PrimeCounting {
  import opened Arith

  /** n is a prime: at least 2, with no divisor in [2, n). C++ and Java `%`
      agree with Dafny's on the positive operands used here. */
  predicate Prime(n: int)
  {
    n >= 2 && forall d :: 2 <= d < n ==> n % d != 0
  }

  /** A divisor d of n with `d >= i` and `i * i > n` has a cofactor below i that
      divides n too. */
  lemma SmallCofactor(n: int, d: int, i: int)
    requires 2 <= i <= d < n && n % d == 0 && i * i > n
    ensures 2 <= n / d < i && n % (n / d) == 0
  {
    var q := n / d;
    assert n == d * q;
    MulMono(q, 1, d);
    MulMono(i, q, i);
    MulMono(i, d, q);
    assert q * d == d * q && q * i == i * q;
    DivModUnique(n, q, d, 0);
  }

  /** `isPrime(n)`: false below 2; otherwise try every i with `i * i <= n`. */
  method IsPrime(n: int) returns (r: bool)
    ensures r <==> Prime(n)
  {
    if n < 2 {
      return false;
    }
    var i := 2;
    while i * i <= n
      invariant 2 <= i
      invariant forall d :: 2 <= d < i ==> n % d != 0
      decreases n - i
    {
      if n % i == 0 {
        assert i < i * i <= n;
        return false;
      }
      i := i + 1;
    }
    forall d | i <= d < n ensures n % d != 0 {
      if n % d == 0 {
        SmallCofactor(n, d, i);
      }
    }
    return true;
  }

  /** The number of primes in [s, e], counted from the top. */
  function Count(s: int, e: int): (c: nat)
    decreases if s > e then 0 else e - s + 1
  {
    if s > e then 0 else Count(s, e - 1) + (if Prime(e) then 1 else 0)
  }

  /** The primes in [s, e]. */
  ghost function PrimesIn(s: int, e: int): set<int>
  {
    set i | s <= i <= e && Prime(i)
  }

  /** `Count` is the number of primes in the range. */
  lemma {:induction false} CountIsCardinality(s: int, e: int)
    ensures Count(s, e) == |PrimesIn(s, e)|
    decreases if s > e then 0 else e - s + 1
  {
    if s > e {
      assert PrimesIn(s, e) == {};
    } else {
      CountIsCardinality(s, e - 1);
      if Prime(e) {
        assert PrimesIn(s, e) == PrimesIn(s, e - 1) + {e};
      } else {
        assert PrimesIn(s, e) == PrimesIn(s, e - 1);
      }
    }
  }

  /** `countPrimesInRange(start, end)`: try every i from start to end. */
  method CountPrimesInRange(start: int, end: int) returns (count: nat)
    ensures count == |PrimesIn(start, end)|
    ensures start > end ==> count == 0
  {
    count := 0;
    var i := start;
    while i <= end
      invariant start <= i <= if start <= end then end + 1 else start
      invariant count == Count(start, i - 1)
      decreases end - i
    {
      var p := IsPrime(i);
      if p {
        count := count + 1;
      }
      i := i + 1;
    }
    assert count == Count(start, end);
    CountIsCardinality(start, end);
  }

  /** The count lies between 0 and the length of the range. */
  lemma {:induction false} CountBounds(s: int, e: int)
    ensures s <= e ==> Count(s, e) <= e - s + 1
    ensures s > e ==> Count(s, e) == 0
    decreases if s > e then 0 else e - s + 1
  {
    if s <= e {
      CountBounds(s, e - 1);
    }
  }

  /** Splitting the range at m and adding the two counts gives the whole count. */
  lemma {:induction false} CountSplit(s: int, m: int, e: int)
    requires s - 1 <= m <= e
    ensures Count(s, m) + Count(m + 1, e) == Count(s, e)
    decreases e - m
  {
    if m < e {
      CountSplit(s, m, e - 1);
    }
  }
}
