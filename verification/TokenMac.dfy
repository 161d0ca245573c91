/** Token generation in the 16-bit build. With the MAC switched on, a 32-bit FNV-1a loop runs over the
    four bytes of the token id and the cast to 16 bits keeps the low half of its result. Words are
    numbers; exclusive-or is spelled out bit by bit. */
module TokenMac {
  import opened Memory
  import FibonacciHash

  const M32: int := 0x1_0000_0000
  const M16: int := 0x1_0000
  const FNV_OFFSET: int := 2166136261
  const FNV_PRIME: int := 16777619
  const FNV_PRIME_INVERSE: int := 0x359C_449B   // modulo 2^32
  const KEY_SPACE: int := 0x10_0000

  /** 0xA5B35791, low byte first. */
  const SHKEY_SECRET_KEY: Bytes := [0x91, 0x57, 0xB3, 0xA5]

  function Xor(x: nat, y: nat, bits: nat): nat {
    if bits == 0 then 0 else (x % 2 + y % 2) % 2 + 2 * Xor(x / 2, y / 2, bits - 1)
  }

  function Power2(n: nat): nat {
    if n == 0 then 1 else 2 * Power2(n - 1)
  }

  lemma XorUnfolds(x: nat, y: nat, bits: nat)
    ensures bits == 0 ==> Xor(x, y, bits) == 0
    ensures bits > 0 ==> Xor(x, y, bits) == (x % 2 + y % 2) % 2 + 2 * Xor(x / 2, y / 2, bits - 1)
  {
  }

  lemma {:induction false} XorTwice(x: nat, y: nat, bits: nat)
    requires x < Power2(bits)
    ensures Xor(x, y, bits) < Power2(bits)
    ensures Xor(Xor(x, y, bits), y, bits) == x
  {
    hide Xor;
    XorUnfolds(x, y, bits);
    if bits == 0 {
      XorUnfolds(0, y, 0);
    } else {
      XorTwice(x / 2, y / 2, bits - 1);
      var bit, rest := (x % 2 + y % 2) % 2, Xor(x / 2, y / 2, bits - 1);
      XorStep(bit, rest, y, bits);
      BitTwice(x % 2, y % 2);
    }
  }

  lemma XorStep(bit: nat, rest: nat, y: nat, bits: nat)
    requires bits > 0 && bit < 2
    ensures Xor(bit + 2 * rest, y, bits) == (bit + y % 2) % 2 + 2 * Xor(rest, y / 2, bits - 1)
  {
    assert (bit + 2 * rest) % 2 == bit && (bit + 2 * rest) / 2 == rest;
  }

  lemma BitTwice(x: nat, y: nat)
    requires x < 2 && y < 2
    ensures ((x + y) % 2 + y) % 2 == x
  {
  }

  function XorByte(x: byte, y: byte): byte {
    XorTwice(x as int, y as int, 8);
    Xor(x as int, y as int, 8) as byte
  }

  lemma XorByteTwice(x: byte, y: byte)
    ensures XorByte(XorByte(x, y), y) == x
  {
    XorTwice(x as int, y as int, 8);
  }

  lemma {:induction false} XorCommutes(x: nat, y: nat, bits: nat)
    ensures Xor(x, y, bits) == Xor(y, x, bits)
  {
    if bits > 0 {
      XorCommutes(x / 2, y / 2, bits - 1);
    }
  }

  lemma XorByteCancels(x: byte, y: byte, z: byte)
    ensures XorByte(x, z) == XorByte(y, z) <==> x == y
    ensures XorByte(z, x) == XorByte(z, y) <==> x == y
  {
    XorByteTwice(x, z);
    XorByteTwice(y, z);
    XorCommutes(x as int, z as int, 8);
    XorCommutes(y as int, z as int, 8);
  }

  /** hash ^ b: a byte meets only the low byte of the state. */
  function Mix(hash: nat, b: byte): nat {
    hash - hash % 0x100 + XorByte((hash % 0x100) as byte, b) as int
  }

  lemma MixTwice(hash: nat, b: byte)
    ensures Mix(Mix(hash, b), b) == hash
    ensures hash < M32 ==> Mix(hash, b) < M32
    ensures Mix(hash, b) % M16 == Mix(hash % M16, b) < M16
  {
    XorByteTwice((hash % 0x100) as byte, b);
    var high, x := hash / 0x100, XorByte((hash % 0x100) as byte, b) as int;
    Remainder(Mix(hash, b), high, 0x100, x);
    Remainder(hash, high / 0x100, M16, 0x100 * (high % 0x100) + hash % 0x100);
    Remainder(hash % M16, high % 0x100, 0x100, hash % 0x100);
    Remainder(Mix(hash, b), high / 0x100, M16, 0x100 * (high % 0x100) + x);
  }

  /** One loop iteration. */
  function Round(hash: nat, b: byte): (r: nat)
    ensures r < M32
  {
    Mix(hash, b) * FNV_PRIME % M32
  }

  function HashUpTo(data: Bytes, n: nat): (hash: nat)
    requires n <= |data|
    ensures hash < M32
  {
    if n == 0 then FNV_OFFSET else Round(HashUpTo(data, n - 1), data[n - 1])
  }

  method SimpleHash32(data: Bytes) returns (hash: nat)
    requires |data| == 4
    ensures hash == HashUpTo(data, 4)
  {
    hash := FNV_OFFSET;
    for i := 0 to 4
      invariant hash == HashUpTo(data, i)
    {
      hash := Mix(hash, data[i]);
      hash := hash * FNV_PRIME % M32;
    }
  }

  function Masked(tokenId: Bytes): (r: Bytes)
    requires |tokenId| == 4
    ensures |r| == 4
  {
    seq(4, i requires 0 <= i < 4 => XorByte(tokenId[i], SHKEY_SECRET_KEY[i]))
  }

  /** The token: the cast drops the token id and the high half of the MAC. Without the MAC it is the
      low half of a random number below the key space. */
  method GenerateShkey(random: Bytes, useMac: bool) returns (shkey: FibonacciHash.Token16)
    requires |random| == 4
    ensures useMac ==> shkey as int == HashUpTo(Masked(random), 4) % M16
    ensures !useMac ==> shkey as int == Decode(random) % M16
  {
    if useMac {
      var tokenId := Decode(random);
      var hmac := SimpleHash32(Masked(random));
      var word := tokenId * M32 + hmac;
      Remainder(word, tokenId * M16 + hmac / M16, M16, hmac % M16);
      return (word % M16) as FibonacciHash.Token16;
    } else {
      var number := Decode(random);
      Remainder(number % KEY_SPACE, number / M16 - 16 * (number / KEY_SPACE), M16, number % M16);
      return (number % KEY_SPACE % M16) as FibonacciHash.Token16;
    }
  }

  // ----- Known values -----

  type Bit = b: nat | b < 2

  lemma XorCons(x: nat, y: nat, b: Bit, c: Bit, bits: nat)
    ensures Xor(b + 2 * x, c + 2 * y, bits + 1) == (b + c) % 2 + 2 * Xor(x, y, bits)
  {
    assert (b + 2 * x) % 2 == b && (b + 2 * x) / 2 == x && (c + 2 * y) % 2 == c && (c + 2 * y) / 2 == y;
  }

  /** Four more bits below x and y. */
  lemma XorFour(x: nat, y: nat, x3: Bit, x2: Bit, x1: Bit, x0: Bit, y3: Bit, y2: Bit, y1: Bit, y0: Bit, bits: nat)
    ensures Xor(x0 + 2 * (x1 + 2 * (x2 + 2 * (x3 + 2 * x))), y0 + 2 * (y1 + 2 * (y2 + 2 * (y3 + 2 * y))), bits + 4)
         == (x0 + y0) % 2 + 2 * ((x1 + y1) % 2 + 2 * ((x2 + y2) % 2 + 2 * ((x3 + y3) % 2 + 2 * Xor(x, y, bits))))
  {
    hide Xor;
    XorCons(x, y, x3, y3, bits);
    var u3, v3 := x3 + 2 * x, y3 + 2 * y;
    XorCons(u3, v3, x2, y2, bits + 1);
    var u2, v2 := x2 + 2 * u3, y2 + 2 * v3;
    XorCons(u2, v2, x1, y1, bits + 2);
    XorCons(x1 + 2 * u2, y1 + 2 * v2, x0, y0, bits + 3);
  }

  lemma {:induction false} XorNothing(x: nat, bits: nat)
    requires x < Power2(bits)
    ensures Xor(x, 0, bits) == x
  {
    if bits > 0 {
      XorNothing(x / 2, bits - 1);
    }
  }

  // The four exclusive-ors that hashing the secret word meets, bit by bit.

  lemma SecretXor0(n: nat)
    requires n == 8
    ensures Xor(0xC5, 0x91, n) == 0x54
  {
    hide Xor;
    XorUnfolds(0, 0, n - 8);
    XorFour(0, 0, 1, 1, 0, 0, 1, 0, 0, 1, n - 8);
    XorFour(0xC, 0x9, 0, 1, 0, 1, 0, 0, 0, 1, n - 4);
  }

  lemma SecretXor1(n: nat)
    requires n == 8
    ensures Xor(0x3C, 0x57, n) == 0x6B
  {
    hide Xor;
    XorUnfolds(0, 0, n - 8);
    XorFour(0, 0, 0, 0, 1, 1, 0, 1, 0, 1, n - 8);
    XorFour(0x3, 0x5, 1, 1, 0, 0, 0, 1, 1, 1, n - 4);
  }

  lemma SecretXor2(n: nat)
    requires n == 8
    ensures Xor(0x71, 0xB3, n) == 0xC2
  {
    hide Xor;
    XorUnfolds(0, 0, n - 8);
    XorFour(0, 0, 0, 1, 1, 1, 1, 0, 1, 1, n - 8);
    XorFour(0x7, 0xB, 0, 0, 0, 1, 0, 0, 1, 1, n - 4);
  }

  lemma SecretXor3(n: nat)
    requires n == 8
    ensures Xor(0x66, 0xA5, n) == 0xC3
  {
    hide Xor;
    XorUnfolds(0, 0, n - 8);
    XorFour(0, 0, 0, 1, 1, 0, 1, 0, 1, 0, n - 8);
    XorFour(0x6, 0xA, 0, 1, 1, 0, 0, 1, 0, 1, n - 4);
  }

  /** Appending one byte to data of known digest: only the low byte of the digest meets it, and the product
      wraps so many times. */
  lemma DigestStep(data: Bytes, n: nat, high: nat, low: nat, mixed: nat, wraps: nat, after: nat)
    requires n < |data| && HashUpTo(data, n) == 0x100 * high + low && low < 0x100
    requires Xor(low, data[n] as int, 8) == mixed < 0x100
    requires (0x100 * high + mixed) * 16777619 == after + wraps * 0x1_0000_0000 && after < 0x1_0000_0000
    ensures HashUpTo(data, n + 1) == after
  {
    hide Xor;
    Remainder(0x100 * high + low, high, 0x100, low);
    Remainder((0x100 * high + mixed) * 16777619, wraps, 0x1_0000_0000, after);
  }

  lemma NoBytes(data: Bytes, n: nat)
    requires n == 0
    ensures HashUpTo(data, n) == 0x811C_9DC5
  {
  }

  /** The digest of the word 0. */
  lemma KnownDigest(data: Bytes)
    requires data == [0, 0, 0, 0]
    ensures HashUpTo(data, |data|) == 0x4B95_F515
  {
    hide HashUpTo, Xor;
    var n := |data|;
    ByteXorNothing(0xC5);
    ByteXorNothing(0x1F);
    ByteXorNothing(0xCD);
    ByteXorNothing(0xB7);
    NoBytes(data, n - 4);
    DigestStep(data, n - 4, 0x81_1C9D, 0xC5, 0xC5, 8461673, 0x050C_5D1F);
    DigestStep(data, n - 3, 0x05_0C5D, 0x1F, 0x1F, 330853, 0x1176_97CD);
    DigestStep(data, n - 2, 0x11_7697, 0xCD, 0xCD, 1144499, 0x4AB0_F7B7);
    DigestStep(data, n - 1, 0x4A_B0F7, 0xB7, 0xB7, 4895085, 0x4B95_F515);
  }

  lemma ByteXorNothing(x: byte)
    ensures Xor(x as int, 0, 8) == x as int == Xor(0, x as int, 8)
  {
    XorNothing(x as int, 8);
    XorCommutes(x as int, 0, 8);
  }

  /** Token id 0 leaves the secret word 0xA5B35791 itself to be hashed. */
  lemma ZeroIdIsSecret(tokenId: Bytes)
    requires tokenId == [0, 0, 0, 0]
    ensures Masked(tokenId) == [0x91, 0x57, 0xB3, 0xA5]
  {
    hide Xor;
    forall i | 0 <= i < 4
      ensures Masked(tokenId)[i] == SHKEY_SECRET_KEY[i]
    {
      ByteXorNothing(SHKEY_SECRET_KEY[i]);
    }
  }

  /** So with the MAC switched on token id 0 gives token 0x56F9. */
  lemma KnownToken(tokenId: Bytes)
    requires tokenId == [0, 0, 0, 0]
    ensures HashUpTo(Masked(tokenId), |tokenId|) == 0xD832_56F9
    ensures HashUpTo(Masked(tokenId), |tokenId|) % 0x1_0000 == 0x56F9
  {
    hide HashUpTo, Masked, Xor;
    var data, n := Masked(tokenId), |tokenId|;
    ZeroIdIsSecret(tokenId);
    SecretXor0(8);
    SecretXor1(8);
    SecretXor2(8);
    SecretXor3(8);
    NoBytes(data, n - 4);
    DigestStep(data, n - 4, 0x81_1C9D, 0xC5, 0x54, 8461672, 0x940B_AB3C);
    DigestStep(data, n - 3, 0x94_0BAB, 0x3C, 0x6B, 9702548, 0x795E_D971);
    DigestStep(data, n - 2, 0x79_5ED9, 0x71, 0xC2, 7954328, 0xD250_CC66);
    DigestStep(data, n - 1, 0xD2_50CC, 0x66, 0xC3, 13783575, 0xD832_56F9);
  }

  // ----- Rounds are bijections, also of the low half -----

  lemma PrimeCancels(x: nat)
    ensures x < M32 ==> x * FNV_PRIME % M32 * FNV_PRIME_INVERSE % M32 == x
    ensures x < M32 ==> x * FNV_PRIME_INVERSE % M32 * FNV_PRIME % M32 == x
    ensures x < M16 ==> x * FNV_PRIME % M16 * FNV_PRIME_INVERSE % M16 == x
  {
    var k := FNV_PRIME * FNV_PRIME_INVERSE / M32;
    assert FNV_PRIME * FNV_PRIME_INVERSE == 1 + k * M32;
    CancelsModulo(x, FNV_PRIME, FNV_PRIME_INVERSE, k, M32);
    CancelsModulo(x, FNV_PRIME_INVERSE, FNV_PRIME, k, M32);
    CancelsModulo(x, FNV_PRIME, FNV_PRIME_INVERSE, k * M16, M16);
  }

  lemma CancelsModulo(x: nat, p: nat, q: nat, k: nat, m: nat)
    requires m > 0 && p * q == 1 + k * m
    ensures x < m ==> x * p % m * q % m == x
  {
    var r, d := x * p % m, x * p / m;
    assert x * p == d * m + r;
    assert r * q == x + (x * k - d * q) * m by {
      assert r * q == (x * p - d * m) * q;
      assert (x * p - d * m) * q == x * (p * q) - d * q * m;
      assert x * (1 + k * m) == x + x * k * m;
      assert (x * k - d * q) * m == x * k * m - d * q * m;
    }
    if x < m {
      Remainder(r * q, x * k - d * q, m, x);
    }
  }

  /** For each fixed byte the round is a bijection of the 32-bit states. */
  lemma RoundIsBijective(hash: nat, b: byte)
    requires hash < M32
    ensures Mix(Round(hash, b) * FNV_PRIME_INVERSE % M32, b) == hash
    ensures Round(Mix(hash * FNV_PRIME_INVERSE % M32, b), b) == hash
  {
    MixTwice(hash, b);
    PrimeCancels(Mix(hash, b));
    PrimeCancels(hash);
    MixTwice(hash * FNV_PRIME_INVERSE % M32, b);
  }

  /** The low half of the state evolves on its own. */
  lemma LowHalfEvolvesAlone(hash: nat, b: byte)
    ensures Round(hash, b) % M16 == Mix(hash % M16, b) * FNV_PRIME % M16
  {
    MixTwice(hash, b);
    LowHalfOfProduct(Mix(hash, b));
  }

  lemma LowHalfOfProduct(x: nat)
    ensures x * FNV_PRIME % M32 % M16 == x % M16 * FNV_PRIME % M16
  {
    var low, high := x % M16, x / M16;
    var q := x * FNV_PRIME / M32;
    var y := low * FNV_PRIME;
    Remainder(x * FNV_PRIME % M32, high * FNV_PRIME - M16 * q + y / M16, M16, y % M16);
  }

  /** A round keeps different low halves apart for the same byte, and separates equal low halves
      exactly for different bytes. */
  lemma LowHalfSeparates(h1: nat, b1: byte, h2: nat, b2: byte)
    requires b1 == b2 || h1 % M16 == h2 % M16
    ensures Round(h1, b1) % M16 == Round(h2, b2) % M16 <==> h1 % M16 == h2 % M16 && b1 == b2
  {
    LowHalfEvolvesAlone(h1, b1);
    LowHalfEvolvesAlone(h2, b2);
    MixTwice(h1, b1);
    MixTwice(h2, b2);
    MixTwice(h1 % M16, b1);
    MixTwice(h2 % M16, b2);
    PrimeCancels(Mix(h1 % M16, b1));
    PrimeCancels(Mix(h2 % M16, b2));
    XorByteCancels(b1, b2, (h1 % M16 % 0x100) as byte);
  }

  // ----- Tokens -----

  predicate DifferOnlyAt(a: Bytes, b: Bytes, j: nat) {
    |a| == |b| == 4 && j < 4 && forall i :: 0 <= i < 4 ==> (a[i] == b[i] <==> i != j)
  }

  lemma {:induction false} LowHalvesApart(a: Bytes, b: Bytes, j: nat, n: nat)
    requires n <= 4 && DifferOnlyAt(a, b, j)
    ensures HashUpTo(a, n) % M16 == HashUpTo(b, n) % M16 <==> n <= j
  {
    if n > 0 {
      LowHalvesApart(a, b, j, n - 1);
      LowHalfSeparates(HashUpTo(a, n - 1), a[n - 1], HashUpTo(b, n - 1), b[n - 1]);
    }
  }

  /** Token ids that differ in exactly one byte give different 16-bit tokens. */
  lemma OneByteChangesToken(a: Bytes, b: Bytes, j: nat)
    requires DifferOnlyAt(a, b, j)
    ensures HashUpTo(Masked(a), 4) % M16 != HashUpTo(Masked(b), 4) % M16
  {
    forall i | 0 <= i < 4
      ensures Masked(a)[i] == Masked(b)[i] <==> i != j
    {
      XorByteCancels(a[i], b[i], SHKEY_SECRET_KEY[i]);
    }
    LowHalvesApart(Masked(a), Masked(b), j, 4);
  }
}
