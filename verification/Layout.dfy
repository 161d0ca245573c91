/** Where the index tables and the host partitions lie in the data area. */
module Layout {
  import opened Memory

  const KV_HASH_TABLE_START: nat := 0x400_0000   // 2^26
  const KV_HASH_TABLE_SIZE: nat := 0x10_0000     // 2^20
  const DATA_SEG_START: nat := 0x800_0000        // 2^27
  const DATA_PARTITION_SIZE: nat := 0x4000_0000  // 2^30
  const KEY_SIZE: nat := 64
  const PUT_VALUE_SIZE: nat := 256

  function EntrySize(valueSize: nat): nat { KEY_SIZE + 8 + valueSize }

  function TableStart(partitionId: nat): nat { KV_HASH_TABLE_START + partitionId * KV_HASH_TABLE_SIZE }

  function PartitionStart(host: nat): nat { DATA_SEG_START + host * DATA_PARTITION_SIZE }

  function PartitionEnd(host: nat): nat { PartitionStart(host) + DATA_PARTITION_SIZE }

  /** The first eight key bytes as the machine reads them: a little-endian word. */
  function KeyWord(key: Bytes): nat
    requires |key| == KEY_SIZE
  {
    WordAt(key, 0)
  }

  function PartitionId(key: Bytes): nat
    requires |key| == KEY_SIZE
  {
    KeyWord(key) / 0x100_0000_0000_0000   // >> 56
  }

  function HashOffset(key: Bytes): nat
    requires |key| == KEY_SIZE
  {
    KeyWord(key) % 0x2_0000   // & (2^17 - 1)
  }

  /** The data-area offset of the head word of a key's bucket. */
  function Bucket(key: Bytes): nat
    requires |key| == KEY_SIZE
  {
    TableStart(PartitionId(key)) + HashOffset(key) * 8
  }

  lemma KeyWordBytes(key: Bytes)
    requires |key| == KEY_SIZE
    ensures PartitionId(key) == key[7] as int
    ensures HashOffset(key) == key[0] as int + 0x100 * key[1] as int + 0x1_0000 * (key[2] as int % 2)
  {
    hide WordAt;
    WordBytes(key, 0);
    var high := key[3] as int + 0x100 * (key[4] as int + 0x100 * (key[5] as int + 0x100 * (key[6] as int
                + 0x100 * key[7] as int)));
    LowBits(KeyWord(key), key[0] as int, key[1] as int, key[2] as int, high);
  }

  lemma LowBits(word: int, b0: nat, b1: nat, b2: nat, high: nat)
    requires b0 < 0x100 && b1 < 0x100 && b2 < 0x100
    requires word == b0 + 0x100 * (b1 + 0x100 * (b2 + 0x100 * high))
    ensures word % 0x2_0000 == b0 + 0x100 * b1 + 0x1_0000 * (b2 % 2)
  {
    var low := b0 + 0x100 * b1 + 0x1_0000 * (b2 % 2);
    Remainder(word, b2 / 2 + 0x80 * high, 0x2_0000, low);
  }

  /** Where the head word lies, in key bytes: 2^20 bytes apart by byte 7, 8 bytes apart by the low 17 bits. */
  lemma BucketIs(key: Bytes)
    requires |key| == 64
    ensures Bucket(key)
         == 0x400_0000 + 0x10_0000 * key[7] as int
            + 8 * (key[0] as int + 0x100 * key[1] as int + 0x1_0000 * (key[2] as int % 2))
  {
    KeyWordBytes(key);
  }

  /** Every head word lies, aligned, inside the 2^20-byte table that key byte 7 selects. */
  lemma BucketInTable(key: Bytes)
    requires |key| == KEY_SIZE
    ensures PartitionId(key) < 256
    ensures TableStart(PartitionId(key)) <= Bucket(key)
    ensures Bucket(key) + 8 <= TableStart(PartitionId(key)) + KV_HASH_TABLE_SIZE
    ensures Bucket(key) % 8 == 0
  {
    KeyWordBytes(key);
  }

  lemma SameBucketSameBits(k1: Bytes, k2: Bytes)
    requires |k1| == KEY_SIZE && |k2| == KEY_SIZE
    ensures Bucket(k1) == Bucket(k2) <==> PartitionId(k1) == PartitionId(k2) && HashOffset(k1) == HashOffset(k2)
  {
    var d := PartitionId(k1) - PartitionId(k2);
    assert Bucket(k1) - Bucket(k2) == d * KV_HASH_TABLE_SIZE + 8 * (HashOffset(k1) - HashOffset(k2));
  }

  lemma SameLowBytes(a0: nat, a1: nat, a2: nat, b0: nat, b1: nat, b2: nat)
    requires a0 < 0x100 && a1 < 0x100 && a2 < 2 && b0 < 0x100 && b1 < 0x100 && b2 < 2
    ensures a0 + 0x100 * a1 + 0x1_0000 * a2 == b0 + 0x100 * b1 + 0x1_0000 * b2 <==> a0 == b0 && a1 == b1 && a2 == b2
  {
  }

  /** Two keys share a bucket exactly when they agree on byte 7 and on their low 17 bits; otherwise
      their head words do not overlap. */
  lemma BucketsEqualOrDisjoint(k1: Bytes, k2: Bytes)
    requires |k1| == KEY_SIZE && |k2| == KEY_SIZE
    ensures Bucket(k1) == Bucket(k2) <==>
              k1[7] == k2[7] && k1[0] == k2[0] && k1[1] == k2[1] && k1[2] as int % 2 == k2[2] as int % 2
    ensures Bucket(k1) == Bucket(k2) || Bucket(k1) + 8 <= Bucket(k2) || Bucket(k2) + 8 <= Bucket(k1)
  {
    KeyWordBytes(k1);
    KeyWordBytes(k2);
    SameBucketSameBits(k1, k2);
    SameLowBytes(k1[0] as int, k1[1] as int, k1[2] as int % 2, k2[0] as int, k2[1] as int, k2[2] as int % 2);
    BucketInTable(k1);
    BucketInTable(k2);
  }

  /** Every key shares its bucket with other keys: most key bytes are not hashed. */
  lemma CollidingKey(key: Bytes) returns (other: Bytes)
    requires |key| == KEY_SIZE
    ensures |other| == KEY_SIZE && other != key
    ensures Bucket(other) == Bucket(key) && PartitionId(other) == PartitionId(key)
  {
    other := key[8 := if key[8] == 0 then 1 else 0];
    assert other[8] != key[8];
    BucketsEqualOrDisjoint(key, other);
    KeyWordBytes(key);
    KeyWordBytes(other);
  }

  predicate DisjointRanges(a: nat, n: nat, b: nat, k: nat) {
    a + n <= b || b + k <= a
  }

  /** Host partitions follow each other from 2^27 on, 2^30 bytes each, so different ones are disjoint. */
  lemma PartitionsDisjoint(h1: nat, h2: nat)
    requires h1 != h2
    ensures PartitionStart(h1) == 0x800_0000 + 0x4000_0000 * h1
    ensures PartitionEnd(h1) == PartitionStart(h1 + 1)
    ensures PartitionStart(0) == 0x800_0000 && PartitionStart(1) == 0x4800_0000
    ensures DisjointRanges(PartitionStart(h1), DATA_PARTITION_SIZE, PartitionStart(h2), DATA_PARTITION_SIZE)
  {
  }

  /** An index table and a host's data partition are disjoint exactly when the table's id is below
      64 or the host id is at least 1: host 0's partition begins inside the index area. */
  predicate ClearOf(host: nat, partitionId: nat) {
    host >= 1 || partitionId < 64
  }

  lemma TableAndPartition(host: nat, partitionId: nat)
    requires partitionId < 256
    ensures DisjointRanges(TableStart(partitionId), KV_HASH_TABLE_SIZE, PartitionStart(host), DATA_PARTITION_SIZE)
       <==> ClearOf(host, partitionId)
  {
  }

  /** An aligned word of the index tables. */
  predicate IsIndexWord(b: nat) {
    TableStart(0) <= b && b + 8 <= TableStart(256) && b % 8 == 0
  }

  lemma IndexWordsApart(b1: nat, b2: nat)
    requires IsIndexWord(b1) && IsIndexWord(b2) && b1 != b2
    ensures DisjointRanges(b1, 8, b2, 8)
  {
  }

  lemma BucketIsIndexWord(key: Bytes)
    requires |key| == KEY_SIZE
    ensures IsIndexWord(Bucket(key))
  {
    BucketInTable(key);
  }

  lemma BucketClearOfPartition(key: Bytes, host: nat)
    requires |key| == KEY_SIZE && ClearOf(host, PartitionId(key))
    ensures Bucket(key) + 8 <= PartitionStart(host)
  {
    BucketInTable(key);
    TableAndPartition(host, PartitionId(key));
  }
}
