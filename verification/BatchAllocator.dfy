/** Where batched inserts go. The constructor starts with a full batch of slots at the partition
    start, and the first refill hands out the partition start again, so one pair of inserts shares a
    slot; no other pair does. */
module BatchAllocator {
  import opened Memory
  import opened Layout
  import opened Chains
  import opened TableSpec
  import opened UnprotectedStore

  /** The allocator before the n-th batched insert (counting from 0). */
  function AllocatorAt(start: nat, batch: nat, kvSize: nat, n: nat): (al: Allocator)
    requires 1 <= batch
    ensures al.available <= batch
  {
    if n == 0 then Allocator(start, batch)
    else BatchStep(AllocatorAt(start, batch, kvSize, n - 1), batch, kvSize).1
  }

  /** Where the n-th batched insert puts its entry. */
  function OffsetAt(start: nat, batch: nat, kvSize: nat, n: nat): nat
    requires 1 <= batch
  {
    BatchStep(AllocatorAt(start, batch, kvSize, n), batch, kvSize).0
  }

  lemma {:induction false} AllocatorIs(start: nat, batch: nat, kvSize: nat, r: nat, j: nat)
    requires 1 <= j <= batch
    ensures AllocatorAt(start, batch, kvSize, r * batch + j) == Allocator(start + r * (batch * kvSize), batch - j)
    decreases r, j
  {
    if j > 1 {
      AllocatorIs(start, batch, kvSize, r, j - 1);
    } else if r > 0 {
      AllocatorIs(start, batch, kvSize, r - 1, batch);
      assert (r - 1) * batch + batch == r * batch;
      assert (r - 1) * (batch * kvSize) + batch * kvSize == r * (batch * kvSize);
      assert kvSize * batch == batch * kvSize;
    }
  }

  /** The closed form, with r = n / batch and j = n % batch. */
  lemma OffsetIs(start: nat, batch: nat, kvSize: nat, r: nat, j: nat)
    requires j < batch
    ensures OffsetAt(start, batch, kvSize, r * batch + j) ==
              if j == 0 then start + (if r == 0 then 0 else (r - 1) * (batch * kvSize))
              else start + r * (batch * kvSize) + j * kvSize
  {
    if j > 0 {
      AllocatorIs(start, batch, kvSize, r, j);
    } else if r > 0 {
      AllocatorIs(start, batch, kvSize, r - 1, batch);
      assert (r - 1) * batch + batch == r * batch;
    }
  }

  /** The allocator's base trails the insert count by the slots already used of the batch. */
  lemma {:induction false} BaseTrails(start: nat, batch: nat, kvSize: nat, n: nat)
    requires 1 <= batch
    ensures var al := AllocatorAt(start, batch, kvSize, n);
            batch - al.available <= n && al.next == start + (n - (batch - al.available)) * kvSize
  {
    if n > 0 {
      BaseTrails(start, batch, kvSize, n - 1);
      var al := AllocatorAt(start, batch, kvSize, n - 1);
      Distribute(n - 1 - batch, batch, kvSize);
      assert kvSize * batch == batch * kvSize;
    }
  }

  lemma Distribute(x: int, y: int, z: int)
    ensures (x + y) * z == x * z + y * z
  {
  }

  /** The same in slot numbers: every refill but the initial one is entered one batch too low. */
  function SlotAt(batch: nat, n: nat): nat
    requires 1 <= batch
  {
    BaseTrails(0, batch, 1, n);
    if AllocatorAt(0, batch, 1, n).available == 0 then n - batch else n
  }

  lemma {:induction false} AvailableIs(start: nat, batch: nat, kvSize: nat, n: nat)
    requires 1 <= batch
    ensures AllocatorAt(start, batch, kvSize, n).available == AllocatorAt(0, batch, 1, n).available
  {
    if n > 0 {
      AvailableIs(start, batch, kvSize, n - 1);
    }
  }

  lemma OffsetIsSlot(start: nat, batch: nat, kvSize: nat, n: nat)
    requires 1 <= batch
    ensures OffsetAt(start, batch, kvSize, n) == start + SlotAt(batch, n) * kvSize
    ensures SlotAt(batch, n) <= n
  {
    BaseTrails(start, batch, kvSize, n);
    AvailableIs(start, batch, kvSize, n);
    var al := AllocatorAt(start, batch, kvSize, n);
    Distribute(n - (batch - al.available), batch - al.available, kvSize);
  }

  lemma {:induction false} AvailableDrops(batch: nat, n: nat, i: nat)
    requires 1 <= batch && i <= AllocatorAt(0, batch, 1, n).available
    ensures AllocatorAt(0, batch, 1, n + i).available == AllocatorAt(0, batch, 1, n).available - i
  {
    if i > 0 {
      AvailableDrops(batch, n, i - 1);
    }
  }

  /** Refills come exactly one batch apart. */
  lemma RefillBefore(batch: nat, n: nat)
    requires 1 <= batch < n && AllocatorAt(0, batch, 1, n).available == 0
    ensures AllocatorAt(0, batch, 1, n - batch).available == 0
  {
    var left := AllocatorAt(0, batch, 1, n - batch).available;
    BelowFull(batch, n - batch);
    if left > 0 {
      AvailableDrops(batch, n - batch, left);
      var zero := n - batch + left;
      AvailableDrops(batch, zero + 1, batch - left - 1);
    }
  }

  lemma BelowFull(batch: nat, n: nat)
    requires 1 <= batch && 1 <= n
    ensures AllocatorAt(0, batch, 1, n).available < batch
  {
  }

  /** Two inserts share a slot exactly when they are the first and the one after the first batch. */
  lemma SlotsCollideOnce(batch: nat, n1: nat, n2: nat)
    requires 1 <= batch && n1 < n2
    ensures SlotAt(batch, n1) == SlotAt(batch, n2) <==> n1 == 0 && n2 == batch
  {
    if SlotAt(batch, n1) == SlotAt(batch, n2) && n1 > 0 {
      RefillBefore(batch, n2);
    }
    AvailableDrops(batch, 0, batch);
  }

  ghost predicate OffsetsApart(start: nat, batch: nat, kvSize: nat, size: nat, n1: nat, n2: nat)
    requires 1 <= batch
  {
    DisjointRanges(OffsetAt(start, batch, kvSize, n1), size, OffsetAt(start, batch, kvSize, n2), size)
  }

  lemma SlotsApart(start: nat, batch: nat, kvSize: nat, n1: nat, n2: nat)
    requires 1 <= batch && SlotAt(batch, n1) < SlotAt(batch, n2)
    ensures OffsetAt(start, batch, kvSize, n1) + kvSize <= OffsetAt(start, batch, kvSize, n2)
  {
    OffsetIsSlot(start, batch, kvSize, n1);
    OffsetIsSlot(start, batch, kvSize, n2);
    NextMultiple(SlotAt(batch, n1), SlotAt(batch, n2), kvSize);
  }

  lemma NextMultiple(x: nat, y: nat, z: nat)
    requires x < y
    ensures x * z + z <= y * z
  {
    Distribute(x + 1, y - x - 1, z);
    Distribute(x, 1, z);
    assert (y - x - 1) * z >= 0;
  }

  lemma ApartIfFitting(start: nat, batch: nat, kvSize: nat, size: nat, n1: nat, n2: nat)
    requires 1 <= batch && size <= kvSize && n1 < n2 && !(n1 == 0 && n2 == batch)
    ensures OffsetsApart(start, batch, kvSize, size, n1, n2)
  {
    SlotsCollideOnce(batch, n1, n2);
    if SlotAt(batch, n1) < SlotAt(batch, n2) {
      SlotsApart(start, batch, kvSize, n1, n2);
    } else {
      SlotsApart(start, batch, kvSize, n2, n1);
    }
  }

  /** Apart from that one pair, entries of any two batched inserts are disjoint exactly when an entry
      fits into kv_size: kv_size keeps its constructor value when the value size is changed. */
  lemma EntriesApartIffTheyFit(start: nat, batch: nat, kvSize: nat, size: nat)
    requires 1 <= batch && 1 <= size
    ensures (forall n1: nat, n2: nat :: n1 < n2 && !(n1 == 0 && n2 == batch) ==>
             OffsetsApart(start, batch, kvSize, size, n1, n2))
       <==> size <= kvSize
  {
    if size <= kvSize {
      forall n1: nat, n2: nat | n1 < n2 && !(n1 == 0 && n2 == batch)
        ensures OffsetsApart(start, batch, kvSize, size, n1, n2)
      {
        ApartIfFitting(start, batch, kvSize, size, n1, n2);
      }
    } else {
      NeighboursTouch(start, batch, kvSize);
      assert !OffsetsApart(start, batch, kvSize, size, 1, 2);
    }
  }

  lemma NeighboursTouch(start: nat, batch: nat, kvSize: nat)
    requires 1 <= batch
    ensures var a, b := OffsetAt(start, batch, kvSize, 1), OffsetAt(start, batch, kvSize, 2);
            b == a + kvSize || a == b + kvSize
  {
    hide OffsetAt, SlotAt, AllocatorAt;
    OffsetIsSlot(start, batch, kvSize, 1);
    OffsetIsSlot(start, batch, kvSize, 2);
    FirstSlots(batch);
    var s1, s2 := SlotAt(batch, 1), SlotAt(batch, 2);
    if s1 < s2 {
      Distribute(s1, 1, kvSize);
    } else {
      Distribute(s2, 1, kvSize);
    }
  }

  lemma FirstSlots(batch: nat)
    requires 1 <= batch
    ensures SlotAt(batch, 1) == if batch == 1 then 0 else 1
    ensures SlotAt(batch, 2) == if batch == 1 then 1 else if batch == 2 then 0 else 2
  {
    assert AllocatorAt(0, batch, 1, 0) == Allocator(0, batch);
    assert AllocatorAt(0, batch, 1, 1).available == batch - 1;
  }

  /** After n + 1 batched inserts nothing beyond n + 1 slots has been used, so with r full batches
      before it, insert n stays below the end of batch r. */
  lemma OffsetBound(start: nat, batch: nat, kvSize: nat, n: nat, r: nat)
    requires 1 <= batch && n < (r + 1) * batch
    ensures start <= OffsetAt(start, batch, kvSize, n)
    ensures OffsetAt(start, batch, kvSize, n) + kvSize <= start + (r + 1) * batch * kvSize
  {
    OffsetIsSlot(start, batch, kvSize, n);
    NextMultiple(SlotAt(batch, n), (r + 1) * batch, kvSize);
  }

  // ----- Partition and tokens -----

  /** The slot number in closed form. */
  lemma SlotIs(batch: nat, n: nat)
    requires 1 <= batch
    ensures SlotAt(batch, n) == if n > 0 && n % batch == 0 then n - batch else n
  {
    var r, j := n / batch, n % batch;
    assert n == r * batch + j;
    if j > 0 {
      AllocatorIs(0, batch, 1, r, j);
    } else if r > 0 {
      AllocatorIs(0, batch, 1, r - 1, batch);
      Distribute(r - 1, 1, batch);
    }
  }

  /** Nothing checks the partition. Insert n leaves it exactly when its slot does. */
  lemma LeavesPartitionIff(host: nat, batch: nat, kvSize: nat, vs: nat, n: nat)
    requires 1 <= batch
    ensures OffsetAt(PartitionStart(host), batch, kvSize, n) + EntrySize(vs) > PartitionEnd(host)
       <==> (if n > 0 && n % batch == 0 then n - batch else n) * kvSize + EntrySize(vs) > DATA_PARTITION_SIZE
  {
    hide OffsetAt, SlotAt;
    OffsetIsSlot(PartitionStart(host), batch, kvSize, n);
    SlotIs(batch, n);
  }

  // ----- What batched inserts leave in memory -----

  predicate PairFits(m: Bytes, vs: nat, start: nat, offset: nat, pair: Pair) {
    WellFormedPair(pair, vs) && Bucket(pair.key) + 8 <= start <= |m| && Fits(m, vs, offset)
  }

  ghost predicate BatchFits(m: Bytes, vs: nat, start: nat, batch: nat, kvSize: nat, pairs: seq<Pair>)
    requires 1 <= batch
  {
    forall i :: 0 <= i < |pairs| ==> PairFits(m, vs, start, OffsetAt(start, batch, kvSize, i), pairs[i])
  }

  /** Memory after publishing the pairs at the batch allocator's offsets, in order. */
  ghost function BatchRun(m: Bytes, vs: nat, start: nat, batch: nat, kvSize: nat, pairs: seq<Pair>): (r: Bytes)
    requires 1 <= batch && BatchFits(m, vs, start, batch, kvSize, pairs)
    ensures |r| == |m|
    decreases |pairs|
  {
    if pairs == [] then m
    else
      var n := |pairs| - 1;
      assert PairFits(m, vs, start, OffsetAt(start, batch, kvSize, n), pairs[n]);
      Publish(BatchRun(m, vs, start, batch, kvSize, pairs[..n]), vs, OffsetAt(start, batch, kvSize, n), pairs[n])
  }

  /** When entries fit into kv_size, every batched entry stays complete through the whole run, except
      that the insert after the first batch overwrites the very first entry. */
  lemma {:induction false} BatchedEntriesSurvive(m: Bytes, vs: nat, start: nat, batch: nat, kvSize: nat,
                                                 pairs: seq<Pair>, i: nat)
    requires 1 <= batch && EntrySize(vs) <= kvSize && BatchFits(m, vs, start, batch, kvSize, pairs) && |m| <= U64
    requires i < |pairs| && !(i == 0 && |pairs| > batch)
    ensures var r := BatchRun(m, vs, start, batch, kvSize, pairs);
            && PairAt(r, vs, OffsetAt(start, batch, kvSize, i)) == pairs[i]
            && NextAt(r, vs, OffsetAt(start, batch, kvSize, i)) == 0
    decreases |pairs|
  {
    hide Bucket, OffsetAt, PairAt, NextAt, Publish, SlotAt;
    var n := |pairs| - 1;
    assert PairFits(m, vs, start, OffsetAt(start, batch, kvSize, n), pairs[n]);
    assert PairFits(m, vs, start, OffsetAt(start, batch, kvSize, i), pairs[i]);
    var before := BatchRun(m, vs, start, batch, kvSize, pairs[..n]);
    OffsetFromStart(start, batch, kvSize, n);
    OffsetFromStart(start, batch, kvSize, i);
    if i == n {
      PublishedEntry(before, vs, OffsetAt(start, batch, kvSize, n), pairs[n]);
    } else {
      BatchedEntriesSurvive(m, vs, start, batch, kvSize, pairs[..n], i);
      ApartIfFitting(start, batch, kvSize, EntrySize(vs), i, n);
      PublishKeepsEntry(before, vs, OffsetAt(start, batch, kvSize, n), pairs[n], OffsetAt(start, batch, kvSize, i));
    }
  }

  lemma OffsetFromStart(start: nat, batch: nat, kvSize: nat, n: nat)
    requires 1 <= batch
    ensures OffsetAt(start, batch, kvSize, n) >= start
  {
    OffsetIsSlot(start, batch, kvSize, n);
    assert SlotAt(batch, n) * kvSize >= 0;
  }

  lemma PublishedEntry(m: Bytes, vs: nat, entry: nat, pair: Pair)
    requires WellFormedPair(pair, vs) && Fits(m, vs, entry) && Bucket(pair.key) + 8 <= entry
    ensures var r := Publish(m, vs, entry, pair);
            PairAt(r, vs, entry) == pair && NextAt(r, vs, entry) == 0
  {
    EntryWritten(m, vs, entry, pair);
    EntrySame(WriteEntry(m, vs, entry, pair), Publish(m, vs, entry, pair), vs, entry);
  }

  lemma PublishKeepsEntry(m: Bytes, vs: nat, entry: nat, pair: Pair, other: nat)
    requires WellFormedPair(pair, vs) && Fits(m, vs, entry) && Fits(m, vs, other) && Bucket(pair.key) + 8 <= entry
    requires Bucket(pair.key) + 8 <= other && DisjointRanges(entry, EntrySize(vs), other, EntrySize(vs))
    ensures var r := Publish(m, vs, entry, pair);
            PairAt(r, vs, other) == PairAt(m, vs, other) && NextAt(r, vs, other) == NextAt(m, vs, other)
  {
    EntryWritten(m, vs, entry, pair);
    EntrySame(m, Publish(m, vs, entry, pair), vs, other);
  }

  lemma FitsPrefix(m: Bytes, vs: nat, start: nat, batch: nat, kvSize: nat, pairs: seq<Pair>, n: nat)
    requires 1 <= batch && BatchFits(m, vs, start, batch, kvSize, pairs) && n <= |pairs|
    ensures BatchFits(m, vs, start, batch, kvSize, pairs[..n])
  {
    hide PairFits, OffsetAt;
    forall i | 0 <= i < n
      ensures PairFits(m, vs, start, OffsetAt(start, batch, kvSize, i), pairs[..n][i])
    {
      assert PairFits(m, vs, start, OffsetAt(start, batch, kvSize, i), pairs[i]);
    }
  }

  /** A new object in batch mode, given these pairs to insert, publishes them at those offsets. */
  method ServeBatch(store: GshmUpr, pairs: seq<Pair>)
    requires store.Valid() && store.useBatch
    requires store.nextFreeOffset == PartitionStart(store.hostId) && store.availableSlots == store.batchKvs
    requires BatchFits(store.mem[..], store.valueSize, PartitionStart(store.hostId), store.batchKvs, store.kvSize,
                       pairs)
    modifies store, store.mem
    ensures store.Valid()
    ensures store.mem[..] == BatchRun(old(store.mem[..]), store.valueSize, PartitionStart(store.hostId),
                                      store.batchKvs, store.kvSize, pairs)
    ensures Allocator(store.nextFreeOffset, store.availableSlots)
         == AllocatorAt(PartitionStart(store.hostId), store.batchKvs, store.kvSize, |pairs|)
  {
    hide Publish, Bucket;
    ghost var m, start := store.mem[..], PartitionStart(store.hostId);
    var n := 0;
    FitsPrefix(m, store.valueSize, start, store.batchKvs, store.kvSize, pairs, 0);
    while n < |pairs|
      invariant n <= |pairs| && store.Valid()
      invariant Allocator(store.nextFreeOffset, store.availableSlots)
                == AllocatorAt(start, store.batchKvs, store.kvSize, n)
      invariant BatchFits(m, store.valueSize, start, store.batchKvs, store.kvSize, pairs[..n])
      invariant store.mem[..] == BatchRun(m, store.valueSize, start, store.batchKvs, store.kvSize, pairs[..n])
    {
      assert PairFits(m, store.valueSize, start, OffsetAt(start, store.batchKvs, store.kvSize, n), pairs[n]);
      FitsPrefix(m, store.valueSize, start, store.batchKvs, store.kvSize, pairs, n + 1);
      assert pairs[..n + 1][..n] == pairs[..n];
      var _ := store.Insert(pairs[n]);
      n := n + 1;
    }
    assert pairs[..n] == pairs;
  }
}
