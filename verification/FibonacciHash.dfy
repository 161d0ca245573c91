/** The multiplicative hash of the 16-bit build and the distance it keeps between distinct tokens.

    The multiplier is 2^64 divided by the golden ratio. A product wraps modulo 2^64 and its top 20
    bits are the home slot, so two homes are close only if some multiple d * MULTIPLIER with
    d = |k1 - k2| lies close to a multiple of 2^64. Writing (d, m) in the basis of two consecutive
    Fibonacci convergents shows that no d below 75025 comes closer than the first of them. */
module FibonacciHash {
  const MULTIPLIER: int := 11400714819323198485
  const WORD: int := 0x1_0000_0000_0000_0000
  const HOME_UNIT: int := 0x1000_0000_0000   // 2^44: what the shift by 64 - 20 discards
  const HOMES: nat := 0x10_0000              // 2^20

  newtype Token16 = k: int | 0 <= k < 0x1_0000

  function HashFunction(shkey: Token16): (home: nat)
    ensures home < HOMES
  {
    shkey as int * MULTIPLIER % WORD / HOME_UNIT
  }

  /** The product, less so many multiples of 2^64, lies in the home's slice of 2^44 numbers. */
  predicate InSlice(shkey: Token16, home: nat, wraps: int) {
    && home * 0x1000_0000_0000 <= shkey as int * 11400714819323198485 - wraps * 0x1_0000_0000_0000_0000
    && shkey as int * 11400714819323198485 - wraps * 0x1_0000_0000_0000_0000 < (home + 1) * 0x1000_0000_0000
  }

  /** The home is given by the top 20 of the 64 bits of the wrapped product, and by nothing else. */
  lemma HomeIsTopBits(shkey: Token16) returns (wraps: nat)
    ensures HashFunction(shkey) * 0x1000_0000_0000
         <= shkey as int * 11400714819323198485 - wraps * 0x1_0000_0000_0000_0000
          < (HashFunction(shkey) + 1) * 0x1000_0000_0000
    ensures forall home, q :: home < 0x10_0000 && InSlice(shkey, home, q) ==> home == HashFunction(shkey)
  {
    var product := shkey as int * MULTIPLIER;
    wraps := product / WORD;
    forall home, q | home < 0x10_0000 && InSlice(shkey, home, q)
      ensures home == HashFunction(shkey)
    {
      assert q == wraps;
    }
  }

  /** Distance on the circle of HOMES slots. */
  function CircularDistance(a: nat, b: nat): nat
    requires a < HOMES && b < HOMES
  {
    var gap := if a <= b then b - a else a - b;
    if gap <= HOMES - gap then gap else HOMES - gap
  }

  /** No multiple of the multiplier below the 25th Fibonacci number comes within ten home units of
      a multiple of the word size. */
  lemma MultiplesStayApart(d: int, m: int)
    requires 0 < d < 75025
    ensures d * MULTIPLIER - m * WORD >= 10 * HOME_UNIT || m * WORD - d * MULTIPLIER >= 10 * HOME_UNIT
  {
    // Cassini: 46368^2 - 28657 * 75025 = -1, so the change of basis is over the integers.
    var x := 75025 * m - 46368 * d;
    var y := 28657 * d - 46368 * m;
    assert d == 46368 * x + 75025 * y && m == 28657 * x + 46368 * y;
    var e1 := 46368 * MULTIPLIER - 28657 * WORD;
    var e2 := 75025 * MULTIPLIER - 46368 * WORD;
    assert e1 < 0 < e2;
    assert d * MULTIPLIER - m * WORD == x * e1 + y * e2;
    assert x > 0 ==> y <= 0;
    assert x < 0 ==> y > 0;
    assert x != 0;
  }

  /** Distinct 16-bit tokens have homes at circular distance at least ten. */
  lemma DistinctTokensAreTenApart(k1: Token16, k2: Token16)
    requires k1 != k2
    ensures CircularDistance(HashFunction(k1), HashFunction(k2)) >= 10
  {
    if k1 < k2 {
      OrderedTokensAreTenApart(k2, k1);
    } else {
      OrderedTokensAreTenApart(k1, k2);
    }
  }

  lemma OrderedTokensAreTenApart(k1: Token16, k2: Token16)
    requires k2 < k1
    ensures CircularDistance(HashFunction(k1), HashFunction(k2)) >= 10
  {
    var p1, p2 := k1 as int * MULTIPLIER, k2 as int * MULTIPLIER;
    var d := k1 as int - k2 as int;
    var m := p1 / WORD - p2 / WORD;
    assert p1 % WORD - p2 % WORD == d * MULTIPLIER - m * WORD;
    MultiplesStayApart(d, m);
    MultiplesStayApart(d, m + 1);
    MultiplesStayApart(d, m - 1);
  }

  /** The bound is met: neither ten nor the circular metric can be improved. */
  lemma TenIsTight()
    ensures HashFunction(0) == 0 && HashFunction(1) == 648055 && HashFunction(46369) == 648045
    ensures CircularDistance(HashFunction(1), HashFunction(46369)) == 10
  {
    assert 46369 * MULTIPLIER % WORD / HOME_UNIT == 648045;
  }
}
