/** Why a store needs its keys outside the index tables that its partition covers: publishing an entry
    leaves that entry complete, wherever the allocator stands, exactly when the head word cannot lie
    inside the partition. */
module PartitionClash {
  import opened Memory
  import opened Layout
  import opened Chains
  import opened UnprotectedStore

  /** The entry just published reads as the pair, and ends its chain. */
  ghost predicate Reads(m: Bytes, vs: nat, entry: nat, pair: Pair)
    requires WellFormedPair(pair, vs) && Fits(m, vs, entry) && Bucket(pair.key) + 8 <= |m|
  {
    var r := Publish(m, vs, entry, pair);
    PairAt(r, vs, entry) == pair && NextAt(r, vs, entry) == 0
  }

  predicate Placed(host: nat, vs: nat, m: Bytes, entry: nat, value: Bytes) {
    && Mapped(|m|, host) && |value| == vs
    && PartitionStart(host) <= entry && entry + EntrySize(vs) <= PartitionEnd(host)
  }

  /** The same, unless the entry does not lie in the host's partition of that memory. */
  ghost predicate ReadsAt(host: nat, vs: nat, key: Bytes, m: Bytes, entry: nat, value: Bytes)
    requires |key| == KEY_SIZE
  {
    Placed(host, vs, m, entry, value) ==>
      Bucket(key) + 8 <= |m| && Reads(m, vs, entry, Pair(key, value))
  }

  ghost predicate AlwaysReads(host: nat, vs: nat, key: Bytes)
    requires |key| == KEY_SIZE
  {
    forall m: Bytes, entry: nat, value: Bytes :: ReadsAt(host, vs, key, m, entry, value)
  }

  /** The bound on the entry size only says that an entry fits behind the index tables in a partition. */
  lemma AlwaysReadsIffClear(host: nat, vs: nat, key: Bytes)
    requires |key| == KEY_SIZE && host < 256 && EntrySize(vs) <= 0x3000_0000
    ensures AlwaysReads(host, vs, key) <==> ClearOf(host, PartitionId(key))
  {
    hide ClearOf, PartitionId, ReadsAt;
    if ClearOf(host, PartitionId(key)) {
      forall m: Bytes, entry: nat, value: Bytes
        ensures ReadsAt(host, vs, key, m, entry, value)
      {
        ClearReadsAt(host, vs, key, m, entry, value);
      }
    } else {
      var m, entry, value := ClashReadsNot(host, vs, key);
      assert !ReadsAt(host, vs, key, m, entry, value);
    }
  }

  lemma ClearReadsAt(host: nat, vs: nat, key: Bytes, m: Bytes, entry: nat, value: Bytes)
    requires |key| == KEY_SIZE && ClearOf(host, PartitionId(key))
    ensures ReadsAt(host, vs, key, m, entry, value)
  {
    hide Bucket, PartitionId, Reads;
    if Placed(host, vs, m, entry, value) {
      BucketMapped(key, |m|, host);
      ClearReads(m, host, vs, entry, Pair(key, value));
    }
  }

  lemma ClashReadsNot(host: nat, vs: nat, key: Bytes) returns (m: Bytes, entry: nat, value: Bytes)
    requires |key| == KEY_SIZE && host < 256 && EntrySize(vs) <= 0x3000_0000 && !ClearOf(host, PartitionId(key))
    ensures !ReadsAt(host, vs, key, m, entry, value)
  {
    hide Bucket, PartitionId, Publish, KeyAt, ValueAt, NextAt;
    m, entry, value := seq(PartitionEnd(host), _ => 0), Bucket(key), seq(vs, _ => 0);
    BucketMapped(key, |m|, host);
    BucketInPartition(host, key);
    ClashingHead(m, vs, Pair(key, value));
  }

  lemma ClearReads(m: Bytes, host: nat, vs: nat, entry: nat, pair: Pair)
    requires WellFormedPair(pair, vs) && Mapped(|m|, host) && ClearOf(host, PartitionId(pair.key))
    requires PartitionStart(host) <= entry && entry + EntrySize(vs) <= PartitionEnd(host) && Bucket(pair.key) + 8 <= |m|
    ensures Reads(m, vs, entry, pair)
  {
    hide Bucket, PartitionId, WordAt, PutWord, Read, Write;
    BucketClearOfPartition(pair.key, host);
    EntryWritten(m, vs, entry, pair);
    EntrySame(WriteEntry(m, vs, entry, pair), Publish(m, vs, entry, pair), vs, entry);
  }

  /** Otherwise the head word lies inside the partition, with room for an entry behind it. */
  lemma BucketInPartition(host: nat, key: Bytes)
    requires |key| == KEY_SIZE && !ClearOf(host, PartitionId(key))
    ensures host == 0 && PartitionStart(host) <= Bucket(key) && Bucket(key) + 0x3000_0000 <= PartitionEnd(host)
    ensures Bucket(key) % 8 == 0
  {
    BucketInTable(key);
  }

  /** An entry laid out at its own head word loses its key to the head word. */
  lemma ClashingHead(m: Bytes, vs: nat, pair: Pair)
    requires WellFormedPair(pair, vs) && Fits(m, vs, Bucket(pair.key)) && PartitionId(pair.key) >= 64
    ensures var r := Publish(m, vs, Bucket(pair.key), pair);
            && WordAt(r, Bucket(pair.key)) == Bucket(pair.key)
            && KeyAt(r, vs, Bucket(pair.key)) != pair.key && NextAt(r, vs, Bucket(pair.key)) == 0
  {
    hide Bucket, Read, Write, Decode, Encode;
    var b := Bucket(pair.key);
    BucketInTable(pair.key);
    var m1 := WriteEntry(m, vs, b, pair);
    var r := PutWord(m1, b, b);
    EntryWritten(m, vs, b, pair);
    WordSame(m1, r, b + KEY_SIZE + vs);
    KeyWordOf(r, vs, b);
    assert KeyWord(pair.key) >= 64 * 0x100_0000_0000_0000;
  }

  /** The key word of an entry is the word at its start. */
  lemma KeyWordOf(m: Bytes, vs: nat, entry: nat)
    requires Fits(m, vs, entry)
    ensures KeyWord(KeyAt(m, vs, entry)) == WordAt(m, entry)
  {
    assert Read(KeyAt(m, vs, entry), 0, 8) == Read(m, entry, 8);
  }

  /** A run on the real constants: the first insert of host 0, for a key with byte 7 equal to 64 and low
      17 bits zero, is reported as done, and the get that follows does not find the key. */
  lemma HostZeroLosesItsInsert(m: Bytes, vs: nat, pair: Pair, buffer: Bytes)
    requires Mapped(|m|, 0) && WellFormedPair(pair, vs) && EntrySize(vs) <= DATA_PARTITION_SIZE
    requires pair.key[7] == 64 && pair.key[0] == 0 && pair.key[1] == 0 && pair.key[2] as int % 2 == 0
    ensures var (st, ok) := InsertPair(Store(m, PartitionStart(0)), 0, vs, pair);
            var chain := [PartitionStart(0)];
            && ok && Bucket(pair.key) == PartitionStart(0)
            && Chain(st.mem, vs, Bucket(pair.key), chain)
            && GetPair(st.mem, vs, chain, pair.key, buffer) == (false, buffer)
  {
    hide Read, Write, WordAt, PutWord, Decode, Encode, KeyWord;
    KeyWordBytes(pair.key);
    BucketMapped(pair.key, |m|, 0);
    ClashingHead(m, vs, pair);
    var r := Publish(m, vs, PartitionStart(0), pair);
    assert Find(Pairs(r, vs, [PartitionStart(0)]), pair.key, 0) == 1;
  }
}
