/** The flat byte memory behind the stores, and 64-bit little-endian words in it. */
module Memory {
  newtype byte = b: int | 0 <= b < 0x100
  type Bytes = seq<byte>

  const U64: int := 0x1_0000_0000_0000_0000

  function Read(m: Bytes, offset: nat, size: nat): (r: Bytes)
    requires offset + size <= |m|
    ensures |r| == size
  {
    m[offset..offset + size]
  }

  function Write(m: Bytes, offset: nat, data: Bytes): (r: Bytes)
    requires offset + |data| <= |m|
    ensures |r| == |m|
    ensures forall a :: 0 <= a < |m| ==> r[a] == if offset <= a < offset + |data| then data[a - offset] else m[a]
  {
    m[..offset] + data + m[offset + |data|..]
  }

  lemma ReadBack(m: Bytes, offset: nat, data: Bytes)
    requires offset + |data| <= |m|
    ensures Read(Write(m, offset, data), offset, |data|) == data
  {
  }

  lemma ReadWritten(m: Bytes, offset: nat, data: Bytes, p: nat, n: nat)
    requires offset + |data| <= |m| && offset <= p && p + n <= offset + |data|
    ensures Read(Write(m, offset, data), p, n) == data[p - offset..p - offset + n]
  {
    var r := Write(m, offset, data);
    forall i | 0 <= i < n
      ensures Read(r, p, n)[i] == data[p - offset..p - offset + n][i]
    {
      assert Read(r, p, n)[i] == r[p + i];
    }
  }

  /** Reading depends only on the bytes read. */
  lemma ReadSame(m: Bytes, m': Bytes, p: nat, n: nat)
    requires |m| == |m'| && p + n <= |m|
    requires forall a :: p <= a < p + n ==> m'[a] == m[a]
    ensures Read(m', p, n) == Read(m, p, n)
  {
  }

  // ----- Words -----

  /** Division with remainder is unique. */
  lemma Remainder(value: nat, quotient: int, m: nat, rest: nat)
    requires rest < m && value == rest + quotient * m
    ensures value % m == rest
  {
    var d := value / m - quotient;
    assert value == value / m * m + value % m;
    assert d * m == rest - value % m;
    assert d >= 1 ==> d * m >= m;
    assert d <= -1 ==> d * m + m <= 0;
  }

  function Power256(n: nat): (p: nat)
    ensures p > 0
  {
    if n == 0 then 1 else 0x100 * Power256(n - 1)
  }

  function Decode(bs: Bytes): (v: nat)
    ensures v < Power256(|bs|)
  {
    if bs == [] then 0 else bs[0] as int + 0x100 * Decode(bs[1..])
  }

  function Encode(v: nat, n: nat): (bs: Bytes)
    ensures |bs| == n
  {
    if n == 0 then [] else [(v % 0x100) as byte] + Encode(v / 0x100, n - 1)
  }

  lemma {:induction false} DecodeEncode(v: nat, n: nat)
    requires v < Power256(n)
    ensures Decode(Encode(v, n)) == v
  {
    if n > 0 {
      DecodeEncode(v / 0x100, n - 1);
      assert Encode(v, n)[1..] == Encode(v / 0x100, n - 1);
    }
  }

  lemma {:induction false} EncodeDecode(bs: Bytes)
    ensures Encode(Decode(bs), |bs|) == bs
  {
    if bs != [] {
      EncodeDecode(bs[1..]);
      assert Decode(bs) % 0x100 == bs[0] as int && Decode(bs) / 0x100 == Decode(bs[1..]);
    }
  }

  lemma WordPower()
    ensures Power256(8) == U64
  {
    assert Power256(4) == 0x1_0000_0000;
    assert Power256(8) == 0x100 * (0x100 * (0x100 * (0x100 * Power256(4))));
  }

  function WordAt(m: Bytes, offset: nat): (v: nat)
    requires offset + 8 <= |m|
    ensures v < U64
  {
    WordPower();
    Decode(Read(m, offset, 8))
  }

  /** A word is eight bytes, the lowest first. */
  lemma WordBytes(m: Bytes, p: nat)
    requires p + 8 <= |m|
    ensures WordAt(m, p)
         == m[p] as int + 0x100 * (m[p + 1] as int + 0x100 * (m[p + 2] as int + 0x100 * (m[p + 3] as int
            + 0x100 * (m[p + 4] as int + 0x100 * (m[p + 5] as int + 0x100 * (m[p + 6] as int
            + 0x100 * m[p + 7] as int))))))
  {
    hide Decode;
    DecodedNone(m, p + 8);
    DecodeStep(m, p, 8);
    DecodeStep(m, p + 1, 7);
    DecodeStep(m, p + 2, 6);
    DecodeStep(m, p + 3, 5);
    DecodeStep(m, p + 4, 4);
    DecodeStep(m, p + 5, 3);
    DecodeStep(m, p + 6, 2);
    DecodeStep(m, p + 7, 1);
  }

  lemma DecodedNone(m: Bytes, p: nat)
    requires p <= |m|
    ensures Decode(Read(m, p, 0)) == 0
  {
  }

  lemma DecodeStep(m: Bytes, p: nat, n: nat)
    requires 1 <= n && p + n <= |m|
    ensures Decode(Read(m, p, n)) == m[p] as int + 0x100 * Decode(Read(m, p + 1, n - 1))
  {
    assert Read(m, p, n)[1..] == Read(m, p + 1, n - 1);
  }

  function PutWord(m: Bytes, offset: nat, v: nat): (r: Bytes)
    requires offset + 8 <= |m|
    ensures |r| == |m|
    ensures forall a :: 0 <= a < |m| && !(offset <= a < offset + 8) ==> r[a] == m[a]
    ensures v < U64 ==> WordAt(r, offset) == v
  {
    ReadBack(m, offset, Encode(v, 8));
    WordPower();
    assert v < U64 ==> Decode(Encode(v, 8)) == v by {
      if v < U64 {
        DecodeEncode(v, 8);
      }
    }
    Write(m, offset, Encode(v, 8))
  }

  lemma WordSame(m: Bytes, m': Bytes, p: nat)
    requires |m| == |m'| && p + 8 <= |m|
    requires forall a :: p <= a < p + 8 ==> m'[a] == m[a]
    ensures WordAt(m', p) == WordAt(m, p)
  {
    ReadSame(m, m', p, 8);
  }
}
