/** Batched inserts of the protected store: which of them write their entry, and what the others leave.

    A refill acquires one token for a batch that starts at its own entry, but moves the allocator past
    the batch, so that the later inserts of the batch write behind the region their token covers. */
module BatchedProtection {
  import opened Memory
  import opened Layout
  import opened Chains
  import opened UnprotectedStore
  import opened TableSpec
  import opened ProtectedStore
  import opened GshmObject
  import opened BatchAllocator

  /** The accepted tokens of a batched insert: the head word's and, at a refill, the whole batch's. */
  lemma BatchTokens<T>(b: Build<T>, source: nat -> T, table: seq<Slot<T>>, drawn: nat, head: nat, refill: bool,
                       offset: nat, size: nat)
    requires |table| == HASH_TABLE_SIZE
             && Accepted(b, source, table, drawn, BatchRegions(head, refill, offset, size))
    ensures var t := Acquires(b, source, table, drawn, BatchRegions(head, refill, offset, size));
            && |BatchRegions(head, refill, offset, size)| == (if refill then 2 else 1)
            && HeldFor(b, t, source(drawn), Region(head, 8, 3))
            && (refill ==> HeldFor(b, t, source(drawn + 1), Region(offset, size, 3)))
  {
    hide Accepted, Acquires, Lookup;
    AcceptedIsFound(b, source, table, drawn, BatchRegions(head, refill, offset, size), 0);
    if refill {
      AcceptedIsFound(b, source, table, drawn, BatchRegions(head, refill, offset, size), 1);
    }
  }

  /** A token found with a region that permits everything opens what lies inside. */
  lemma HeldMayWrite<T>(b: Build<T>, t: seq<Slot<T>>, k: T, region: Region, p: nat, n: nat)
    requires |t| == HASH_TABLE_SIZE && HeldFor(b, t, k, region) && region.permission == 3 && Inside(region, p, n)
    ensures Granted(b, t, k, p, n, WRITE)
  {
    hide Lookup;
  }

  /** A refill, with accepted tokens, leaves what the unprotected refill leaves. */
  lemma RefillPublishes<T>(b: Build<T>, source: nat -> T, table: seq<Slot<T>>, drawn: nat, m: Bytes, vs: nat,
                           offset: nat, size: nat, pair: Pair)
    requires |table| == HASH_TABLE_SIZE && WellFormedPair(pair, vs) && Bucket(pair.key) + 8 <= |m| < U64
    requires Fits(m, vs, offset) && EntrySize(vs) <= size && offset + size < U64
    requires Accepted(b, source, table, drawn, BatchRegions(Bucket(pair.key), true, offset, size))
    ensures var t := Acquires(b, source, table, drawn, BatchRegions(Bucket(pair.key), true, offset, size));
            && GuardedPublish(b, t, m, vs, offset, pair, source(drawn), source(drawn + 1))
               == Publish(m, vs, offset, pair)
            && HeldFor(b, t, source(drawn + 1), Region(offset, size, 3))
  {
    hide Acquires, Accepted, Granted, Bucket, GuardedPublish, Publish, HeldFor;
    var t := Acquires(b, source, table, drawn, BatchRegions(Bucket(pair.key), true, offset, size));
    BatchTokens(b, source, table, drawn, Bucket(pair.key), true, offset, size);
    HeldMayWrite(b, t, source(drawn), Region(Bucket(pair.key), 8, 3), Bucket(pair.key), 8);
    HeldMayWrite(b, t, source(drawn + 1), Region(offset, size, 3), offset, KEY_SIZE);
    HeldMayWrite(b, t, source(drawn + 1), Region(offset, size, 3), offset + KEY_SIZE, vs);
    HeldMayWrite(b, t, source(drawn + 1), Region(offset, size, 3), offset + KEY_SIZE + vs, 8);
    PublishWhenGranted(b, t, m, vs, offset, pair, source(drawn), source(drawn + 1));
  }

  /** The token writes nothing of an entry: it is not found, or with a region that ends before. */
  ghost predicate Misses<T>(b: Build<T>, t: seq<Slot<T>>, k: T, entry: nat)
    requires |t| == HASH_TABLE_SIZE
  {
    && k != b.global
    && (Lookup(b, t, k).Some? ==>
          Lookup(b, t, k).value.offset + Lookup(b, t, k).value.size <= entry)
  }

  /** An insert under such a token, with an accepted index token, redirects the head word and does
      nothing else: the head leads to the bytes that lay there before. */
  lemma MissingTokenMovesHead<T>(b: Build<T>, source: nat -> T, table: seq<Slot<T>>, drawn: nat, m: Bytes, vs: nat,
                                 entry: nat, pair: Pair, k: T, offset: nat, size: nat)
    requires |table| == HASH_TABLE_SIZE && WellFormedPair(pair, vs) && Bucket(pair.key) + 8 <= |m| < U64
    requires Fits(m, vs, entry)
    requires Accepted(b, source, table, drawn, BatchRegions(Bucket(pair.key), false, offset, size))
    requires var t := Acquires(b, source, table, drawn, BatchRegions(Bucket(pair.key), false, offset, size));
             Misses(b, t, k, entry)
    ensures var t := Acquires(b, source, table, drawn, BatchRegions(Bucket(pair.key), false, offset, size));
            GuardedPublish(b, t, m, vs, entry, pair, source(drawn), k) == PutWord(m, Bucket(pair.key), entry)
  {
    hide Acquires, Accepted, Bucket, HeldFor, Lookup, Write, Encode, WordAt;
    var t := Acquires(b, source, table, drawn, BatchRegions(Bucket(pair.key), false, offset, size));
    BatchTokens(b, source, table, drawn, Bucket(pair.key), false, offset, size);
    HeldMayWrite(b, t, source(drawn), Region(Bucket(pair.key), 8, 3), Bucket(pair.key), 8);
    MissesAll(b, t, k, entry, entry, KEY_SIZE);
    MissesAll(b, t, k, entry, entry + KEY_SIZE, vs);
    MissesAll(b, t, k, entry, entry + KEY_SIZE + vs, 8);
  }

  lemma MissesAll<T>(b: Build<T>, t: seq<Slot<T>>, k: T, entry: nat, p: nat, n: nat)
    requires |t| == HASH_TABLE_SIZE && Misses(b, t, k, entry) && entry <= p && p + n > entry && p + n < U64
    ensures !Granted(b, t, k, p, n, WRITE)
  {
    hide Lookup;
  }

  /** From the second batch on: where the batch's token ends and where its later entries begin. */
  lemma LaterEntryIsBehind(start: nat, batch: nat, kvSize: nat, r: nat, j: nat)
    requires 1 <= r && 0 < j < batch
    ensures OffsetAt(start, batch, kvSize, r * batch) + kvSize * batch
         <= OffsetAt(start, batch, kvSize, r * batch + j)
  {
    OffsetIs(start, batch, kvSize, r, j);
    OffsetIs(start, batch, kvSize, r, 0);
    Distribute(r - 1, 1, batch * kvSize);
    assert kvSize * batch == batch * kvSize && j * kvSize >= 0;
  }

  /** The token a refill acquired, over its whole batch: of all reads and writes of insert r * batch + j
      exactly those of j == 0 are granted. */
  lemma BatchTokenCoversOnlyItsRefill<T>(b: Build<T>, source: nat -> T, table: seq<Slot<T>>, drawn: nat, head: nat,
                                         start: nat, batch: nat, kvSize: nat, es: nat, r: nat, j: nat, p: nat, n: nat,
                                         bit: nat)
    requires 1 <= r && j < batch && es <= kvSize && (bit == READ || bit == WRITE)
    requires var entry := OffsetAt(start, batch, kvSize, r * batch + j);
             entry <= p && 0 < n && p + n <= entry + es && entry + es < U64
    requires OffsetAt(start, batch, kvSize, r * batch) + kvSize * batch < U64
    requires |table| == HASH_TABLE_SIZE && source(drawn + 1) != b.global
    requires Accepted(b, source, table, drawn,
                      BatchRegions(head, true, OffsetAt(start, batch, kvSize, r * batch), kvSize * batch))
    ensures var t := Acquires(b, source, table, drawn,
                              BatchRegions(head, true, OffsetAt(start, batch, kvSize, r * batch), kvSize * batch));
            Granted(b, t, source(drawn + 1), p, n, bit) <==> j == 0
  {
    hide OffsetAt, Permits, Acquires, Accepted, Lookup, BatchRegions;
    BatchTokens(b, source, table, drawn, head, true, OffsetAt(start, batch, kvSize, r * batch), kvSize * batch);
    OffsetIs(start, batch, kvSize, r, j);
    OffsetIs(start, batch, kvSize, r, 0);
    NextMultiple(0, batch, kvSize);
    assert kvSize * batch == batch * kvSize;
    if j > 0 {
      LaterEntryIsBehind(start, batch, kvSize, r, j);
    }
    InOrBehind(OffsetAt(start, batch, kvSize, r * batch), kvSize * batch, p, n, bit);
  }

  /** A range that starts at or behind the end of a region is not permitted, one inside is. */
  lemma InOrBehind(offset: nat, size: nat, p: nat, n: nat, bit: nat)
    requires offset + size < U64 && offset <= p && 0 < n && p + n < U64 && (bit == READ || bit == WRITE)
    ensures p + n <= offset + size ==> Permits(Region(offset, size, 3), p, n, bit)
    ensures p >= offset + size ==> !Permits(Region(offset, size, 3), p, n, bit)
  {
  }

  // ----- The object's inserts -----

  /** The refill of a batch: bytes, token and allocator. */
  method RefillInsert<T>(store: Gshm<T>, pair: Pair) returns (token: Option<T>)
    requires store.Valid() && store.useBatch && store.availableSlots == 0 && WellFormedPair(pair, store.valueSize)
    requires store.nextFreeOffset + EntrySize(store.valueSize) <= store.mem.Length
    requires EntrySize(store.valueSize) <= store.kvSize * store.batchKvs
             && store.nextFreeOffset + store.kvSize * store.batchKvs < U64
    requires Accepted(store.build, store.source, store.table[..], store.drawn,
                      BatchRegions(Bucket(pair.key), true, store.nextFreeOffset, store.kvSize * store.batchKvs))
    modifies store, store.table, store.mem
    ensures store.Valid() && Bucket(pair.key) + 8 <= store.mem.Length
    ensures store.mem[..] == Publish(old(store.mem[..]), store.valueSize, old(store.nextFreeOffset), pair)
    ensures token == Some(store.batchKey) && store.batchKey == store.source(old(store.drawn) + 1)
            && store.drawn == old(store.drawn) + 2
    ensures HeldFor(store.build, store.table[..], store.batchKey,
                    Region(old(store.nextFreeOffset), store.kvSize * store.batchKvs, 3))
    ensures store.table[..] == Acquires(store.build, store.source, old(store.table[..]), old(store.drawn),
                                        BatchRegions(Bucket(pair.key), true, old(store.nextFreeOffset),
                                                     store.kvSize * store.batchKvs))
    ensures Allocator(store.nextFreeOffset, store.availableSlots)
         == BatchStep(Allocator(old(store.nextFreeOffset), 0), store.batchKvs, store.kvSize).1
  {
    hide Bucket, Acquires, Accepted, GuardedPublish, Publish, HeldFor;
    BucketMapped(pair.key, store.mem.Length, store.hostId);
    RefillPublishes(store.build, store.source, store.table[..], store.drawn, store.mem[..], store.valueSize,
                    store.nextFreeOffset, store.kvSize * store.batchKvs, pair);
    token := store.Insert(pair);
  }

  /** Insert r * batch + j of a run, for r >= 1 and j > 0, under the token its refill acquired. */
  method LaterInsert<T>(store: Gshm<T>, pair: Pair, ghost start: nat, ghost r: nat, ghost j: nat)
    returns (token: Option<T>)
    requires store.Valid() && store.useBatch && WellFormedPair(pair, store.valueSize)
    requires 1 <= r && 0 < j < store.batchKvs
    requires Allocator(store.nextFreeOffset, store.availableSlots)
          == AllocatorAt(start, store.batchKvs, store.kvSize, r * store.batchKvs + j)
    requires OffsetAt(start, store.batchKvs, store.kvSize, r * store.batchKvs + j) + EntrySize(store.valueSize)
          <= store.mem.Length
    requires store.batchKey != store.build.global
             && Lookup(store.build, store.table[..], store.batchKey)
                == Some(Region(OffsetAt(start, store.batchKvs, store.kvSize, r * store.batchKvs),
                               store.kvSize * store.batchKvs, 3))
    requires Accepted(store.build, store.source, store.table[..], store.drawn,
                      BatchRegions(Bucket(pair.key), false, 0, 0))
    modifies store, store.table, store.mem
    ensures store.Valid() && Bucket(pair.key) + 8 <= store.mem.Length
    ensures store.mem[..] == PutWord(old(store.mem[..]), Bucket(pair.key),
                                     OffsetAt(start, store.batchKvs, store.kvSize, r * store.batchKvs + j))
    ensures token == Some(store.batchKey) && store.batchKey == old(store.batchKey)
            && store.drawn == old(store.drawn) + 1
    ensures Lookup(store.build, store.table[..], store.batchKey)
         == Lookup(store.build, old(store.table[..]), store.batchKey)
    ensures store.table[..] == Acquires(store.build, store.source, old(store.table[..]), old(store.drawn),
                                        BatchRegions(Bucket(pair.key), false, 0, 0))
    ensures Allocator(store.nextFreeOffset, store.availableSlots)
         == AllocatorAt(start, store.batchKvs, store.kvSize, r * store.batchKvs + j + 1)
  {
    hide Bucket, Acquires, Accepted, GuardedPublish, PutWord, Lookup;
    BucketMapped(pair.key, store.mem.Length, store.hostId);
    ghost var entry := OffsetAt(start, store.batchKvs, store.kvSize, r * store.batchKvs + j);
    AllocatorIs(start, store.batchKvs, store.kvSize, r, j);
    LaterEntryIsBehind(start, store.batchKvs, store.kvSize, r, j);
    assert BatchRegions(Bucket(pair.key), false, 0, 0)
        == BatchRegions(Bucket(pair.key), false, entry, store.kvSize * store.batchKvs);
    AcquiresKeepLookup(store.build, store.source, store.table[..], store.drawn,
                       BatchRegions(Bucket(pair.key), false, 0, 0), store.batchKey);
    MissingTokenMovesHead(store.build, store.source, store.table[..], store.drawn, store.mem[..], store.valueSize,
                          entry, pair, store.batchKey, 0, 0);
    token := store.Insert(pair);
  }

  /** Insert j of the first batch, whose token no refill acquired: batch_key holds what it held before. If
      that is the reserved token it publishes, and if it opens nothing only the head word moves. */
  method FirstBatchInsert<T>(store: Gshm<T>, pair: Pair, ghost start: nat, ghost j: nat) returns (token: Option<T>)
    requires store.Valid() && store.useBatch && WellFormedPair(pair, store.valueSize) && j < store.batchKvs
    requires Allocator(store.nextFreeOffset, store.availableSlots)
          == AllocatorAt(start, store.batchKvs, store.kvSize, j)
    requires OffsetAt(start, store.batchKvs, store.kvSize, j) + EntrySize(store.valueSize) <= store.mem.Length
    requires var regions := BatchRegions(Bucket(pair.key), false, 0, 0);
             && Accepted(store.build, store.source, store.table[..], store.drawn, regions)
             && (store.batchKey != store.build.global ==>
                   Misses(store.build, Acquires(store.build, store.source, store.table[..], store.drawn, regions),
                          store.batchKey, OffsetAt(start, store.batchKvs, store.kvSize, j)))
    modifies store, store.table, store.mem
    ensures store.Valid() && Bucket(pair.key) + 8 <= store.mem.Length
    ensures var entry := OffsetAt(start, store.batchKvs, store.kvSize, j);
            store.mem[..] == if store.batchKey == store.build.global
            then Publish(old(store.mem[..]), store.valueSize, entry, pair)
            else PutWord(old(store.mem[..]), Bucket(pair.key), entry)
    ensures token == Some(store.batchKey) && store.batchKey == old(store.batchKey)
            && store.drawn == old(store.drawn) + 1
    ensures store.table[..] == Acquires(store.build, store.source, old(store.table[..]), old(store.drawn),
                                        BatchRegions(Bucket(pair.key), false, 0, 0))
    ensures Allocator(store.nextFreeOffset, store.availableSlots)
         == AllocatorAt(start, store.batchKvs, store.kvSize, j + 1)
  {
    hide Bucket, Acquires, Accepted, GuardedPublish, Publish, PutWord, Misses;
    BucketMapped(pair.key, store.mem.Length, store.hostId);
    ghost var entry := OffsetAt(start, store.batchKvs, store.kvSize, j);
    FirstAllocator(start, store.batchKvs, store.kvSize, j);
    assert BatchRegions(Bucket(pair.key), false, 0, 0)
        == BatchRegions(Bucket(pair.key), false, entry, store.kvSize * store.batchKvs);
    if store.batchKey == store.build.global {
      ReservedBatchPublishes(store.build, store.source, store.table[..], store.drawn, store.mem[..], store.valueSize,
                             entry, pair);
    } else {
      MissingTokenMovesHead(store.build, store.source, store.table[..], store.drawn, store.mem[..], store.valueSize,
                            entry, pair, store.batchKey, 0, 0);
    }
    token := store.Insert(pair);
  }

  lemma FirstAllocator(start: nat, batch: nat, kvSize: nat, j: nat)
    requires j < batch
    ensures AllocatorAt(start, batch, kvSize, j) == Allocator(start, batch - j)
  {
    if j > 0 {
      AllocatorIs(start, batch, kvSize, 0, j);
    }
  }

  lemma ReservedBatchPublishes<T>(b: Build<T>, source: nat -> T, table: seq<Slot<T>>, drawn: nat, m: Bytes, vs: nat,
                                  entry: nat, pair: Pair)
    requires |table| == HASH_TABLE_SIZE && WellFormedPair(pair, vs) && Bucket(pair.key) + 8 <= |m| < U64
    requires Fits(m, vs, entry)
    requires Accepted(b, source, table, drawn, BatchRegions(Bucket(pair.key), false, 0, 0))
    ensures var t := Acquires(b, source, table, drawn, BatchRegions(Bucket(pair.key), false, 0, 0));
            GuardedPublish(b, t, m, vs, entry, pair, source(drawn), b.global) == Publish(m, vs, entry, pair)
  {
    hide Acquires, Accepted, Bucket, HeldFor, GuardedPublish, Publish, Lookup;
    var t := Acquires(b, source, table, drawn, BatchRegions(Bucket(pair.key), false, 0, 0));
    BatchTokens(b, source, table, drawn, Bucket(pair.key), false, 0, 0);
    HeldMayWrite(b, t, source(drawn), Region(Bucket(pair.key), 8, 3), Bucket(pair.key), 8);
    PublishWhenGranted(b, t, m, vs, entry, pair, source(drawn), b.global);
  }

  // ----- Whole runs -----

  /** The next n tokens to be drawn are ordinary, distinct and in no valid slot, and there is room for them. */
  ghost predicate Supply<T(!new)>(b: Build<T>, source: nat -> T, table: seq<Slot<T>>, drawn: nat, n: nat) {
    && |ValidSlots(table)| + n <= HASH_TABLE_SIZE
    && (forall i :: 0 <= i < n ==> Absent(table, Upcoming(source, drawn, i)) && Upcoming(source, drawn, i) != b.global)
    && (forall i, j :: 0 <= i < j < n ==> Upcoming(source, drawn, i) != Upcoming(source, drawn, j))
  }

  /** k is none of the next n tokens. */
  ghost predicate NotComing<T(!new)>(source: nat -> T, drawn: nat, n: nat, k: T) {
    forall i :: 0 <= i < n ==> Upcoming(source, drawn, i) != k
  }

  lemma SupplyAfter<T(!new)>(b: Build<T>, source: nat -> T, table: seq<Slot<T>>, drawn: nat, n: nat,
                             regions: seq<Region>, k: T)
    requires |table| == HASH_TABLE_SIZE && Supply(b, source, table, drawn, n) && |regions| <= n
    ensures Accepted(b, source, table, drawn, regions)
    ensures var t := Acquires(b, source, table, drawn, regions);
            && Supply(b, source, t, drawn + |regions|, n - |regions|)
            && (NotComing(source, drawn, n, k) ==> NotComing(source, drawn + |regions|, n - |regions|, k))
            && (Absent(table, k) && NotComing(source, drawn, n, k) ==> Absent(t, k))
  {
    hide Absent, ValidSlots, Accepted, Acquires;
    FreshTokensAreAccepted(b, source, table, drawn, regions);
    var t := Acquires(b, source, table, drawn, regions);
    var c := |regions|;
    var d := drawn + c;
    forall i | 0 <= i < n - c
      ensures Absent(t, Upcoming(source, d, i)) && Upcoming(source, d, i) != b.global
      ensures NotComing(source, drawn, n, k) ==> Upcoming(source, d, i) != k
    {
      assert Upcoming(source, d, i) == Upcoming(source, drawn, c + i);
    }
    forall i, j | 0 <= i < j < n - c
      ensures Upcoming(source, d, i) != Upcoming(source, d, j)
    {
      assert Upcoming(source, d, i) == Upcoming(source, drawn, c + i);
      assert Upcoming(source, d, j) == Upcoming(source, drawn, c + j);
    }
  }

  /** Which inserts of a run write their entry: refills do, and those of the first batch do if batch_key
      happens to hold the reserved token from the start. */
  predicate Writes(batch: nat, open: bool, n: nat)
    requires 1 <= batch
  {
    if n < batch then open else n % batch == 0
  }

  /** Memory after a run of batched inserts of the protected store. */
  ghost function GuardedBatchRun(m: Bytes, vs: nat, start: nat, batch: nat, kvSize: nat, open: bool, pairs: seq<Pair>):
      (r: Bytes)
    requires 1 <= batch && BatchFits(m, vs, start, batch, kvSize, pairs)
    ensures |r| == |m|
    decreases |pairs|
  {
    if pairs == [] then m
    else
      var n := |pairs| - 1;
      var entry := OffsetAt(start, batch, kvSize, n);
      assert PairFits(m, vs, start, entry, pairs[n]);
      var before := GuardedBatchRun(m, vs, start, batch, kvSize, open, pairs[..n]);
      if Writes(batch, open, n) then Publish(before, vs, entry, pairs[n])
      else PutWord(before, Bucket(pairs[n].key), entry)
  }

  /** What such a run leaves at the entries: the pairs of the refills, and everywhere else, though the
      heads lead there, the bytes from before the run. */
  lemma {:induction false} OnlyRefillsAreStored(m: Bytes, vs: nat, start: nat, batch: nat, kvSize: nat,
                                                pairs: seq<Pair>, i: nat)
    requires 1 <= batch && EntrySize(vs) <= kvSize && BatchFits(m, vs, start, batch, kvSize, pairs) && |m| <= U64
    requires i < |pairs| && !(i == 0 && |pairs| > batch)
    ensures var r := GuardedBatchRun(m, vs, start, batch, kvSize, false, pairs);
            var entry := OffsetAt(start, batch, kvSize, i);
            && Fits(m, vs, entry)
            && PairAt(r, vs, entry) == (if i >= batch && i % batch == 0 then pairs[i] else PairAt(m, vs, entry))
            && NextAt(r, vs, entry) == (if i >= batch && i % batch == 0 then 0 else NextAt(m, vs, entry))
    decreases |pairs|
  {
    hide Bucket, OffsetAt, PairAt, NextAt, Publish, SlotAt, PutWord;
    var n := |pairs| - 1;
    assert PairFits(m, vs, start, OffsetAt(start, batch, kvSize, n), pairs[n]);
    assert PairFits(m, vs, start, OffsetAt(start, batch, kvSize, i), pairs[i]);
    var before := GuardedBatchRun(m, vs, start, batch, kvSize, false, pairs[..n]);
    OffsetFromStart(start, batch, kvSize, n);
    OffsetFromStart(start, batch, kvSize, i);
    if i == n {
      UntouchedSoFar(m, vs, start, batch, kvSize, pairs, n);
    } else {
      OnlyRefillsAreStored(m, vs, start, batch, kvSize, pairs[..n], i);
      ApartIfFitting(start, batch, kvSize, EntrySize(vs), i, n);
      StepKeepsEntry(before, vs, OffsetAt(start, batch, kvSize, n), pairs[n], OffsetAt(start, batch, kvSize, i));
    }
    if i == n && Writes(batch, false, n) {
      PublishedEntry(before, vs, OffsetAt(start, batch, kvSize, n), pairs[n]);
    }
    if i == n && !Writes(batch, false, n) {
      MovedHeadKeepsEntry(before, vs, OffsetAt(start, batch, kvSize, n), pairs[n], OffsetAt(start, batch, kvSize, n));
    }
  }

  /** Before its own insert nothing has touched an entry's bytes, unless it is the one slot used twice. */
  lemma {:induction false} UntouchedSoFar(m: Bytes, vs: nat, start: nat, batch: nat, kvSize: nat, pairs: seq<Pair>,
                                          n: nat)
    requires 1 <= batch && EntrySize(vs) <= kvSize && BatchFits(m, vs, start, batch, kvSize, pairs) && |m| <= U64
    requires n < |pairs|
    ensures BatchFits(m, vs, start, batch, kvSize, pairs[..n])
    ensures var r := GuardedBatchRun(m, vs, start, batch, kvSize, false, pairs[..n]);
            var entry := OffsetAt(start, batch, kvSize, n);
            && Fits(m, vs, entry)
            && PairAt(r, vs, entry) == PairAt(m, vs, entry) && NextAt(r, vs, entry) == NextAt(m, vs, entry)
  {
    hide Bucket, OffsetAt, PairAt, NextAt, Publish, SlotAt, PutWord;
    assert PairFits(m, vs, start, OffsetAt(start, batch, kvSize, n), pairs[n]);
    UntouchedAt(m, vs, start, batch, kvSize, pairs, n, n);
  }

  lemma {:induction false} UntouchedAt(m: Bytes, vs: nat, start: nat, batch: nat, kvSize: nat, pairs: seq<Pair>,
                                       n: nat, l: nat)
    requires 1 <= batch && EntrySize(vs) <= kvSize && BatchFits(m, vs, start, batch, kvSize, pairs) && |m| <= U64
    requires l <= n < |pairs| && Fits(m, vs, OffsetAt(start, batch, kvSize, n))
    ensures BatchFits(m, vs, start, batch, kvSize, pairs[..l])
    ensures var r := GuardedBatchRun(m, vs, start, batch, kvSize, false, pairs[..l]);
            var entry := OffsetAt(start, batch, kvSize, n);
            PairAt(r, vs, entry) == PairAt(m, vs, entry) && NextAt(r, vs, entry) == NextAt(m, vs, entry)
    decreases l
  {
    hide Bucket, OffsetAt, PairAt, NextAt, Publish, SlotAt, PutWord, PairFits;
    FitsPrefix(m, vs, start, batch, kvSize, pairs, l);
    if l > 0 {
      UntouchedAt(m, vs, start, batch, kvSize, pairs, n, l - 1);
      assert pairs[..l][..l - 1] == pairs[..l - 1] && pairs[..l][l - 1] == pairs[l - 1];
      var before := GuardedBatchRun(m, vs, start, batch, kvSize, false, pairs[..l - 1]);
      TouchedElsewhere(m, before, vs, start, batch, kvSize, pairs, n, l - 1);
    }
  }

  lemma TouchedElsewhere(m: Bytes, before: Bytes, vs: nat, start: nat, batch: nat, kvSize: nat, pairs: seq<Pair>,
                         n: nat, l: nat)
    requires 1 <= batch && EntrySize(vs) <= kvSize && BatchFits(m, vs, start, batch, kvSize, pairs)
    requires |before| == |m| <= U64 && l < n < |pairs| && Fits(m, vs, OffsetAt(start, batch, kvSize, n))
    ensures PairFits(m, vs, start, OffsetAt(start, batch, kvSize, l), pairs[l])
    ensures var entry := OffsetAt(start, batch, kvSize, n);
            var other := OffsetAt(start, batch, kvSize, l);
            var r := if Writes(batch, false, l) then Publish(before, vs, other, pairs[l])
                else PutWord(before, Bucket(pairs[l].key), other);
            PairAt(r, vs, entry) == PairAt(before, vs, entry) && NextAt(r, vs, entry) == NextAt(before, vs, entry)
  {
    hide Bucket, OffsetAt, PairAt, NextAt, Publish, SlotAt, PutWord;
    assert PairFits(m, vs, start, OffsetAt(start, batch, kvSize, l), pairs[l]);
    OffsetFromStart(start, batch, kvSize, n);
    OffsetFromStart(start, batch, kvSize, l);
    if Writes(batch, false, l) {
      ApartIfFitting(start, batch, kvSize, EntrySize(vs), l, n);
      PublishKeepsEntry(before, vs, OffsetAt(start, batch, kvSize, l), pairs[l], OffsetAt(start, batch, kvSize, n));
    } else {
      MovedHeadKeepsEntry(before, vs, OffsetAt(start, batch, kvSize, l), pairs[l], OffsetAt(start, batch, kvSize, n));
    }
  }

  lemma MovedHeadKeepsEntry(m: Bytes, vs: nat, entry: nat, pair: Pair, other: nat)
    requires |pair.key| == KEY_SIZE && Bucket(pair.key) + 8 <= other && Fits(m, vs, other)
    ensures var r := PutWord(m, Bucket(pair.key), entry);
            PairAt(r, vs, other) == PairAt(m, vs, other) && NextAt(r, vs, other) == NextAt(m, vs, other)
  {
    EntrySame(m, PutWord(m, Bucket(pair.key), entry), vs, other);
  }

  lemma StepKeepsEntry(m: Bytes, vs: nat, entry: nat, pair: Pair, other: nat)
    requires WellFormedPair(pair, vs) && Fits(m, vs, entry) && Fits(m, vs, other)
    requires Bucket(pair.key) + 8 <= entry && Bucket(pair.key) + 8 <= other
    requires DisjointRanges(entry, EntrySize(vs), other, EntrySize(vs))
    ensures var r := Publish(m, vs, entry, pair);
            PairAt(r, vs, other) == PairAt(m, vs, other) && NextAt(r, vs, other) == NextAt(m, vs, other)
    ensures var r := PutWord(m, Bucket(pair.key), entry);
            PairAt(r, vs, other) == PairAt(m, vs, other) && NextAt(r, vs, other) == NextAt(m, vs, other)
  {
    hide Publish, PutWord, PairAt, NextAt, Bucket;
    PublishKeepsEntry(m, vs, entry, pair, other);
    MovedHeadKeepsEntry(m, vs, entry, pair, other);
  }

  // ----- The object serves such a run -----

  /** What batch_key is worth before insert r * batch + j: in the first batch what it was worth at the start,
      later the token of the last refill. */
  ghost predicate KeyIs<T(!new)>(b: Build<T>, source: nat -> T, table: seq<Slot<T>>, drawn: nat, n: nat, start: nat,
                                 batch: nat, kvSize: nat, r: nat, j: nat, k: T)
    requires |table| == HASH_TABLE_SIZE && 1 <= batch
  {
    if r == 0 || (r == 1 && j == 0) then k == b.global || (Absent(table, k) && NotComing(source, drawn, n, k))
    else
      k != b.global
      && var refill := if j == 0 then r - 1 else r;
         Lookup(b, table, k) == Some(Region(OffsetAt(start, batch, kvSize, refill * batch), kvSize * batch, 3))
  }

  lemma AbsentMisses<T>(b: Build<T>, table: seq<Slot<T>>, k: T, entry: nat)
    requires |table| == HASH_TABLE_SIZE && Absent(table, k) && k != b.global
    ensures Misses(b, table, k, entry)
  {
  }

  lemma KeyKept<T(!new)>(b: Build<T>, source: nat -> T, table: seq<Slot<T>>, drawn: nat, n: nat, start: nat,
                         batch: nat, kvSize: nat, r: nat, j: nat, k: T, regions: seq<Region>)
    requires |table| == HASH_TABLE_SIZE && j < batch && Supply(b, source, table, drawn, n) && |regions| <= n
    requires r == 0 || j > 0
    requires KeyIs(b, source, table, drawn, n, start, batch, kvSize, r, j, k)
    ensures var t := Acquires(b, source, table, drawn, regions);
            var (r', j') := if j + 1 == batch then (r + 1, 0) else (r, j + 1);
            && KeyIs(b, source, t, drawn + |regions|, n - |regions|, start, batch, kvSize, r', j', k)
            && (r == 0 && k != b.global ==> Absent(t, k))
  {
    hide Supply, Acquires, Absent, NotComing, Lookup, OffsetAt;
    SupplyAfter(b, source, table, drawn, n, regions, k);
    if r > 0 {
      AcquiresKeepLookup(b, source, table, drawn, regions, k);
    }
  }

  lemma NextNumber(batch: nat, r: nat, j: nat)
    requires j < batch
    ensures var n := r * batch + j; n % batch == j && (n < batch <==> r == 0)
    ensures var (r', j') := if j + 1 == batch then (r + 1, 0) else (r, j + 1); r' * batch + j' == r * batch + j + 1
  {
    Remainder(r * batch + j, r, batch, j);
    Distribute(r, 1, batch);
    if r > 0 {
      NextMultiple(0, r, batch);
    }
  }

  lemma RunStarts<T(!new)>(b: Build<T>, source: nat -> T, table: seq<Slot<T>>, drawn: nat, n: nat, m: Bytes, vs: nat,
                           start: nat, batch: nat, kvSize: nat, pairs: seq<Pair>, k: T)
    requires |table| == HASH_TABLE_SIZE && 1 <= batch
    requires k == b.global || (Absent(table, k) && NotComing(source, drawn, n, k))
    ensures KeyIs(b, source, table, drawn, n, start, batch, kvSize, 0, 0, k)
    ensures BatchFits(m, vs, start, batch, kvSize, pairs[..0])
    ensures GuardedBatchRun(m, vs, start, batch, kvSize, k == b.global, pairs[..0]) == m
  {
  }

  lemma RunGoesOn(m: Bytes, vs: nat, start: nat, batch: nat, kvSize: nat, open: bool, pairs: seq<Pair>, n: nat)
    requires 1 <= batch && n < |pairs| && BatchFits(m, vs, start, batch, kvSize, pairs)
    ensures BatchFits(m, vs, start, batch, kvSize, pairs[..n]) && BatchFits(m, vs, start, batch, kvSize, pairs[..n + 1])
    ensures var entry := OffsetAt(start, batch, kvSize, n);
            var before := GuardedBatchRun(m, vs, start, batch, kvSize, open, pairs[..n]);
            && PairFits(before, vs, start, entry, pairs[n])
            && |pairs[n].key| == KEY_SIZE && WellFormedPair(pairs[n], vs)
            && Fits(before, vs, entry) && Bucket(pairs[n].key) + 8 <= |before|
            && GuardedBatchRun(m, vs, start, batch, kvSize, open, pairs[..n + 1])
               == if Writes(batch, open, n) then Publish(before, vs, entry, pairs[n])
               else PutWord(before, Bucket(pairs[n].key), entry)
  {
    hide Publish, PutWord, Bucket, OffsetAt;
    assert PairFits(m, vs, start, OffsetAt(start, batch, kvSize, n), pairs[n]);
    FitsPrefix(m, vs, start, batch, kvSize, pairs, n);
    FitsPrefix(m, vs, start, batch, kvSize, pairs, n + 1);
    assert pairs[..n + 1][..n] == pairs[..n];
  }

  /** A new object in batch mode, given these pairs to insert and a supply of unused tokens: the run's
      bytes, from its refills alone unless batch_key held the reserved token. */
  method ServeGuardedBatches<T(!new)>(store: Gshm<T>, pairs: seq<Pair>)
    requires store.Valid() && store.useBatch
    requires store.nextFreeOffset == PartitionStart(store.hostId) && store.availableSlots == store.batchKvs
    requires BatchFits(store.mem[..], store.valueSize, PartitionStart(store.hostId), store.batchKvs, store.kvSize,
                       pairs)
    requires EntrySize(store.valueSize) <= store.kvSize * store.batchKvs
             && PartitionStart(store.hostId) + |pairs| / store.batchKvs * (store.batchKvs * store.kvSize) < U64
    requires Supply(store.build, store.source, store.table[..], store.drawn, 2 * |pairs|)
    requires store.batchKey == store.build.global
             || (Absent(store.table[..], store.batchKey)
                 && NotComing(store.source, store.drawn, 2 * |pairs|, store.batchKey))
    modifies store, store.table, store.mem
    ensures store.Valid()
    ensures store.mem[..] == GuardedBatchRun(old(store.mem[..]), store.valueSize, PartitionStart(store.hostId),
                                             store.batchKvs, store.kvSize,
                                             old(store.batchKey) == store.build.global, pairs)
    ensures Allocator(store.nextFreeOffset, store.availableSlots)
         == AllocatorAt(PartitionStart(store.hostId), store.batchKvs, store.kvSize, |pairs|)
  {
    hide Publish, PutWord, Bucket, Acquires, Accepted, Supply, Absent, NotComing, Lookup, OffsetAt, AllocatorAt,
         GuardedBatchRun, BatchFits, KeyIs, PairFits;
    ghost var m, start, open := store.mem[..], PartitionStart(store.hostId), store.batchKey == store.build.global;
    ghost var left := 2 * |pairs|;
    var n, r, j := 0, 0, 0;
    FirstAllocator(start, store.batchKvs, store.kvSize, 0);
    RunStarts(store.build, store.source, store.table[..], store.drawn, left, m, store.valueSize, start,
              store.batchKvs, store.kvSize, pairs, store.batchKey);
    while n < |pairs|
      invariant n <= |pairs| && store.Valid() && n == r * store.batchKvs + j && j < store.batchKvs
      invariant left >= 2 * (|pairs| - n)
                && Supply(store.build, store.source, store.table[..], store.drawn, left)
      invariant KeyIs(store.build, store.source, store.table[..], store.drawn, left, start, store.batchKvs,
                      store.kvSize, r, j, store.batchKey)
      invariant r == 0 ==> (open <==> store.batchKey == store.build.global)
      invariant Allocator(store.nextFreeOffset, store.availableSlots)
                == AllocatorAt(start, store.batchKvs, store.kvSize, n)
      invariant BatchFits(m, store.valueSize, start, store.batchKvs, store.kvSize, pairs[..n])
      invariant store.mem[..] == GuardedBatchRun(m, store.valueSize, start, store.batchKvs, store.kvSize, open,
                                                 pairs[..n])
    {
      NextNumber(store.batchKvs, r, j);
      RunGoesOn(m, store.valueSize, start, store.batchKvs, store.kvSize, open, pairs, n);
      if r > 0 && j == 0 {
        WithinRun(r, store.batchKvs, |pairs|, store.kvSize);
        ServeRefill(store, pairs[n], start, r, left);
        left := left - 2;
      } else {
        ServeInBatch(store, pairs[n], start, r, j, left);
        left := left - 1;
      }
      n := n + 1;
      if j + 1 == store.batchKvs {
        r, j := r + 1, 0;
      } else {
        j := j + 1;
      }
    }
    assert pairs[..n] == pairs;
  }

  /** The refill that opens batch r of such a run. */
  method ServeRefill<T(!new)>(store: Gshm<T>, pair: Pair, ghost start: nat, ghost r: nat, ghost left: nat)
    requires store.Valid() && store.useBatch && 1 <= r && left >= 2
    requires PairFits(store.mem[..], store.valueSize, start,
                      OffsetAt(start, store.batchKvs, store.kvSize, r * store.batchKvs), pair)
    requires EntrySize(store.valueSize) <= store.kvSize * store.batchKvs
             && start + r * (store.batchKvs * store.kvSize) < U64
    requires Supply(store.build, store.source, store.table[..], store.drawn, left)
    requires Allocator(store.nextFreeOffset, store.availableSlots)
          == AllocatorAt(start, store.batchKvs, store.kvSize, r * store.batchKvs)
    modifies store, store.table, store.mem
    ensures store.Valid()
    ensures Supply(store.build, store.source, store.table[..], store.drawn, left - 2)
    ensures var (r', j') := if 1 == store.batchKvs then (r + 1, 0) else (r, 1);
            KeyIs(store.build, store.source, store.table[..], store.drawn, left - 2, start, store.batchKvs,
                  store.kvSize, r', j', store.batchKey)
    ensures store.batchKey != store.build.global
            && Lookup(store.build, store.table[..], store.batchKey)
               == Some(Region(OffsetAt(start, store.batchKvs, store.kvSize, r * store.batchKvs),
                              store.kvSize * store.batchKvs, 3))
    ensures Allocator(store.nextFreeOffset, store.availableSlots)
         == AllocatorAt(start, store.batchKvs, store.kvSize, r * store.batchKvs + 1)
    ensures Bucket(pair.key) + 8 <= store.mem.Length
    ensures store.mem[..] == Publish(old(store.mem[..]), store.valueSize,
                                     OffsetAt(start, store.batchKvs, store.kvSize, r * store.batchKvs), pair)
  {
    hide Publish, Bucket, Acquires, Accepted, Supply, Lookup, OffsetAt;
    AtRefill(start, store.batchKvs, store.kvSize, r);
    SupplyAfter(store.build, store.source, store.table[..], store.drawn, left,
                BatchRegions(Bucket(pair.key), true, store.nextFreeOffset, store.kvSize * store.batchKvs),
                store.batchKey);
    SecondIsOrdinary(store.build, store.source, store.table[..], store.drawn, left);
    var _ := RefillInsert(store, pair);
  }

  /** Any other insert of such a run. */
  method ServeInBatch<T(!new)>(store: Gshm<T>, pair: Pair, ghost start: nat, r: nat, j: nat, ghost left: nat)
    requires store.Valid() && store.useBatch && j < store.batchKvs && (r == 0 || j > 0) && left >= 1
    requires PairFits(store.mem[..], store.valueSize, start,
                      OffsetAt(start, store.batchKvs, store.kvSize, r * store.batchKvs + j), pair)
    requires Supply(store.build, store.source, store.table[..], store.drawn, left)
    requires KeyIs(store.build, store.source, store.table[..], store.drawn, left, start, store.batchKvs, store.kvSize,
                   r, j, store.batchKey)
    requires Allocator(store.nextFreeOffset, store.availableSlots)
          == AllocatorAt(start, store.batchKvs, store.kvSize, r * store.batchKvs + j)
    modifies store, store.table, store.mem
    ensures store.Valid() && store.batchKey == old(store.batchKey)
    ensures Supply(store.build, store.source, store.table[..], store.drawn, left - 1)
    ensures var (r', j') := if j + 1 == store.batchKvs then (r + 1, 0) else (r, j + 1);
            KeyIs(store.build, store.source, store.table[..], store.drawn, left - 1, start, store.batchKvs,
                  store.kvSize, r', j', store.batchKey)
    ensures Allocator(store.nextFreeOffset, store.availableSlots)
         == AllocatorAt(start, store.batchKvs, store.kvSize, r * store.batchKvs + j + 1)
    ensures Bucket(pair.key) + 8 <= store.mem.Length
    ensures var entry := OffsetAt(start, store.batchKvs, store.kvSize, r * store.batchKvs + j);
            store.mem[..] == if r == 0 && old(store.batchKey) == store.build.global
            then Publish(old(store.mem[..]), store.valueSize, entry, pair)
            else PutWord(old(store.mem[..]), Bucket(pair.key), entry)
  {
    hide Publish, PutWord, Bucket, Acquires, Accepted, Supply, Absent, NotComing, Lookup, OffsetAt, AllocatorAt, Misses;
    ghost var table0, drawn0 := store.table[..], store.drawn;
    ghost var one := BatchRegions(Bucket(pair.key), false, 0, 0);
    SupplyAfter(store.build, store.source, table0, drawn0, left, one, store.batchKey);
    KeyKept(store.build, store.source, table0, drawn0, left, start, store.batchKvs, store.kvSize, r, j, store.batchKey,
            one);
    if r == 0 {
      ghost var key0 := store.batchKey;
      if key0 != store.build.global {
        AbsentMisses(store.build, Acquires(store.build, store.source, table0, drawn0, one), key0,
                     OffsetAt(start, store.batchKvs, store.kvSize, j));
      }
      var _ := FirstBatchInsert(store, pair, start, j);
    } else {
      var _ := LaterInsert(store, pair, start, r, j);
    }
  }

  lemma WithinRun(r: nat, batch: nat, count: nat, kvSize: nat)
    requires 1 <= batch && r * batch < count
    ensures r * (batch * kvSize) <= count / batch * (batch * kvSize)
  {
    var q := count / batch;
    if r > q {
      NextMultiple(q, r, batch);
    } else if r < q {
      NextMultiple(r, q, batch * kvSize);
    }
  }

  lemma AtRefill(start: nat, batch: nat, kvSize: nat, r: nat)
    requires 1 <= batch && 1 <= r
    ensures AllocatorAt(start, batch, kvSize, r * batch)
         == Allocator(OffsetAt(start, batch, kvSize, r * batch), 0)
    ensures OffsetAt(start, batch, kvSize, r * batch) + kvSize * batch == start + r * (batch * kvSize)
  {
    AllocatorIs(start, batch, kvSize, r - 1, batch);
    Distribute(r - 1, 1, batch);
    Distribute(r - 1, 1, batch * kvSize);
    assert kvSize * batch == batch * kvSize;
  }

  lemma SecondIsOrdinary<T(!new)>(b: Build<T>, source: nat -> T, table: seq<Slot<T>>, drawn: nat, n: nat)
    requires Supply(b, source, table, drawn, n) && n >= 2
    ensures source(drawn + 1) != b.global
  {
    hide Absent, ValidSlots;
    assert Upcoming(source, drawn, 1) == source(drawn + 1);
  }
}
