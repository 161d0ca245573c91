/** The protected store object, method by method: table operations, guarded memory accesses and the
    key-value operations on top of them. Each method is proved against the functions of TableSpec and
    ProtectedStore. The two builds differ only in their Build value and in what a clear resets. */
module GshmObject {
  import opened Memory
  import opened Layout
  import opened Chains
  import opened UnprotectedStore
  import opened TableSpec
  import opened ProtectedStore

  /** Stands for an access that is granted but leaves the data area, as a range whose end wraps at 64 bits
      does. What it reads or overwrites then, slots of the table among it, is not modelled. */
  const OUTSIDE: int := 0x1000

  class Gshm<T(==)> {
    const build: Build<T>
    const source: nat -> T
    const table: array<Slot<T>>
    const mem: array<byte>
    const hostId: nat
    const valueSize: nat
    const useBatch: bool
    const kvSize: nat
    const batchKvs: nat
    var nextFreeOffset: nat
    var availableSlots: nat
    var batchKey: T
    var drawn: nat

    ghost predicate Valid()
      reads this
    {
      && table.Length == HASH_TABLE_SIZE && (table as object) != (mem as object)
      && Mapped(mem.Length, hostId) && PartitionStart(hostId) <= nextFreeOffset
      && 1 <= batchKvs && availableSlots <= batchKvs
    }

    /** batchKey is whatever the program's uninitialised field holds. */
    constructor (build: Build<T>, source: nat -> T, table: array<Slot<T>>, mem: array<byte>, hostId: nat,
                 valueSize: nat, useBatch: bool, kvSize: nat, batchKvs: nat, batchKey: T)
      requires table.Length == HASH_TABLE_SIZE && (table as object) != (mem as object) && Mapped(mem.Length, hostId)
               && 1 <= batchKvs
      modifies table
      ensures Valid() && nextFreeOffset == PartitionStart(hostId) && availableSlots == batchKvs && drawn == 0
      ensures this.build == build && this.source == source && this.table == table && this.mem == mem
      ensures this.hostId == hostId && this.valueSize == valueSize
      ensures this.useBatch == useBatch && this.kvSize == kvSize && this.batchKvs == batchKvs
              && this.batchKey == batchKey
      ensures forall i :: 0 <= i < table.Length ==> table[i] == Slot(false, build.global, Region(0, 0, 0))
    {
      this.build, this.source, this.table, this.mem := build, source, table, mem;
      this.hostId, this.valueSize := hostId, valueSize;
      this.useBatch, this.kvSize, this.batchKvs, this.batchKey := useBatch, kvSize, batchKvs, batchKey;
      nextFreeOffset := PartitionStart(hostId);
      availableSlots := batchKvs;
      drawn := 0;
      new;
      forall i | 0 <= i < table.Length {
        table[i] := Slot(false, build.global, Region(0, 0, 0));
      }
    }

    // ----- The protection table -----

    /** The slot where a token is or would go; None stands for the exit on a full table. */
    method FindAvailableSlot(k: T) returns (slot: Option<nat>)
      requires Valid()
      ensures var d := Probe(table[..], build.hash(k), k);
              slot == if d == HASH_TABLE_SIZE then None else Some(At(build.hash(k), d))
    {
      var original := build.hash(k);
      var index: nat := original;
      ghost var d := 0;
      ReachedStart(table[..], original, k);
      while table[index].valid && table[index].token != k
        invariant index < HASH_TABLE_SIZE && Reached(table[..], original, k, index, d)
        decreases HASH_TABLE_SIZE - d
      {
        ReachedNext(table[..], original, k, index, d);
        index := (index + 1) % HASH_TABLE_SIZE;
        if index == original {
          return None;
        }
        d := d + 1;
      }
      ReachedStop(table[..], original, k, index, d);
      return Some(index);
    }

    method InsertProtectionEntry(k: T, region: Region) returns (code: int)
      requires Valid()
      modifies table
      ensures (table[..], code) == TableSpec.Insert(build, old(table[..]), k, region)
    {
      var original := build.hash(k);
      var index: nat := original;
      ghost var d := 0;
      ReachedStart(table[..], original, k);
      while true
        invariant table[..] == old(table[..])
        invariant index < HASH_TABLE_SIZE && Reached(table[..], original, k, index, d)
        decreases HASH_TABLE_SIZE - d
      {
        if !table[index].valid {
          ReachedStop(table[..], original, k, index, d);
          table[index] := table[index].(valid := true);
          table[index] := table[index].(token := k);
          table[index] := table[index].(region := region);
          assert table[..] == old(table[..])[index := Slot(true, k, region)];
          return 0;
        } else if table[index].token == k {
          ReachedStop(table[..], original, k, index, d);
          return -2;
        }
        ReachedNext(table[..], original, k, index, d);
        index := (index + 1) % HASH_TABLE_SIZE;
        if index == original {
          return -1;
        }
        d := d + 1;
      }
    }

    /** The probe shared by the access paths and revoke, with the guard on the number of probes that
        write and revoke carry; the reserved token stops at once. None means the circle closed. */
    method ProbeLoop(k: T) returns (slot: Option<nat>)
      requires Valid()
      ensures k == build.global ==> slot == Some(build.hash(k))
      ensures k != build.global ==>
                var d := Probe(table[..], build.hash(k), k);
                slot == if d == HASH_TABLE_SIZE then None else Some(At(build.hash(k), d))
    {
      var original := build.hash(k);
      var index: nat := original;
      var probeCount := 0;
      ReachedStart(table[..], original, k);
      while table[index].valid && table[index].token != k && k != build.global
        invariant index < HASH_TABLE_SIZE && Reached(table[..], original, k, index, probeCount)
        invariant k == build.global ==> index == original
        decreases HASH_TABLE_SIZE - probeCount
      {
        ReachedNext(table[..], original, k, index, probeCount);
        index := (index + 1) % HASH_TABLE_SIZE;
        probeCount := probeCount + 1;
        if probeCount > HASH_TABLE_SIZE {
          assert false;   // the guard never fires
        }
        if index == original {
          return None;
        }
      }
      if k != build.global {
        ReachedStop(table[..], original, k, index, probeCount);
      }
      return Some(index);
    }

    method RevokeCxl(k: T) returns (code: int)
      requires Valid()
      modifies table
      ensures (table[..], code) == Revoke(build, old(table[..]), k)
    {
      var slot := ProbeLoop(k);
      if slot.None? {
        return -1;
      }
      if (!table[slot.value].valid || table[slot.value].token != k) && k != build.global {
        return -1;
      }
      table[slot.value] := table[slot.value].(valid := false);
      return 0;
    }

    method ClearProtectionTable()
      requires Valid()
      modifies table
      ensures table[..] == Clear(build, old(table[..]))
    {
      var i := 0;
      while i < HASH_TABLE_SIZE
        invariant i <= HASH_TABLE_SIZE
        invariant forall j :: 0 <= j < i ==> table[j] == ClearedSlot(build, old(table[..])[j])
        invariant forall j :: i <= j < HASH_TABLE_SIZE ==> table[j] == old(table[..])[j]
      {
        table[i] := table[i].(valid := false);
        if build.wipes {
          table[i] := table[i].(token := build.global);
          table[i] := table[i].(region := Region(0, 0, 0));
        }
        i := i + 1;
      }
    }

    method Acquire(offset: nat, size: nat, permission: int) returns (k: T)
      requires Valid()
      modifies this`drawn, table
      ensures k == source(old(drawn)) && drawn == old(drawn) + 1
      ensures table[..] == TableSpec.Insert(build, old(table[..]), k, Region(offset, size, permission)).0
    {
      k := source(drawn);
      drawn := drawn + 1;
      var _ := InsertProtectionEntry(k, Region(offset, size, permission));
    }

    // ----- Guarded memory accesses -----

    /** The checks common to read_cxl, write_cxl and compare_cxl. */
    method Check(offset: nat, size: nat, bit: nat, k: T) returns (granted: bool)
      requires Valid() && (bit == READ || bit == WRITE)
      ensures granted == Granted(build, table[..], k, offset, size, bit)
    {
      var slot := ProbeLoop(k);
      if slot.None? {
        return false;
      }
      var entry := table[slot.value];
      if (!entry.valid || entry.token != k) && k != build.global {
        return false;
      }
      if entry.region.size == 0 && k != build.global {
        return false;
      }
      if (offset < entry.region.offset || (offset + size) % U64 > (entry.region.offset + entry.region.size) % U64)
          && k != build.global {
        return false;
      }
      if !HasBit(entry.region.permission, bit) && k != build.global {
        return false;
      }
      return true;
    }

    /** A refused read leaves the caller's buffer as it was. */
    method ReadCxl(offset: nat, size: nat, buffer: Bytes, k: T) returns (code: int, buf: Bytes)
      requires Valid()
      ensures code == if !Granted(build, table[..], k, offset, size, READ) then -1
                      else if offset + size <= mem.Length then 0 else OUTSIDE
      ensures code == 0 ==> buf == Read(mem[..], offset, size)
      ensures code == -1 ==> buf == buffer
    {
      hide Granted, Read;
      var granted := Check(offset, size, READ, k);
      if !granted {
        return -1, buffer;
      }
      if offset + size > mem.Length {
        return OUTSIDE, [];
      }
      buf := CopyOut(offset, size);
      code := 0;
    }

    method CopyOut(offset: nat, size: nat) returns (buf: Bytes)
      requires offset + size <= mem.Length
      ensures buf == Read(mem[..], offset, size)
    {
      buf := [];
      while |buf| < size
        invariant |buf| <= size && buf == mem[offset..offset + |buf|]
      {
        buf := buf + [mem[offset + |buf|]];
      }
    }

    method WriteCxl(offset: nat, buf: Bytes, k: T) returns (code: int)
      requires Valid()
      modifies mem, table
      ensures Valid()
      ensures code == if !old(Granted(build, table[..], k, offset, |buf|, WRITE)) then -1
                      else if offset + |buf| <= mem.Length then 0 else OUTSIDE
      ensures code == 0 ==> mem[..] == Write(old(mem[..]), offset, buf)
      ensures code == -1 ==> mem[..] == old(mem[..])
      ensures code != OUTSIDE ==> table[..] == old(table[..])
    {
      hide Granted;
      var granted := Check(offset, |buf|, WRITE, k);
      if !granted {
        return -1;
      }
      if offset + |buf| > mem.Length {
        return OUTSIDE;
      }
      var i := 0;
      while i < |buf|
        invariant i <= |buf| && table[..] == old(table[..])
        invariant forall j :: 0 <= j < i ==> mem[offset + j] == buf[j]
        invariant forall a :: 0 <= a < mem.Length && !(offset <= a < offset + i) ==> mem[a] == old(mem[a])
      {
        mem[offset + i] := buf[i];
        i := i + 1;
      }
      return 0;
    }

    /** -2 when refused; otherwise the difference at the first mismatch, or 0. */
    method CompareCxl(offset: nat, buf: Bytes, k: T) returns (result: int)
      requires Valid()
      ensures var granted := Granted(build, table[..], k, offset, |buf|, READ);
              && (!granted ==> result == -2)
              && (granted && offset + |buf| > mem.Length ==> result == OUTSIDE)
              && (granted && offset + |buf| <= mem.Length ==> (result == 0 <==> Read(mem[..], offset, |buf|) == buf))
      ensures result != 0 && result != OUTSIDE && Granted(build, table[..], k, offset, |buf|, READ) ==>
                DiffersBy(mem[..], offset, buf, result)
    {
      hide Granted;
      var granted := Check(offset, |buf|, READ, k);
      if !granted {
        return -2;
      }
      if offset + |buf| > mem.Length {
        return OUTSIDE;
      }
      var i := 0;
      while i < |buf|
        invariant i <= |buf|
        invariant forall j :: 0 <= j < i ==> mem[offset + j] == buf[j]
      {
        if mem[offset + i] != buf[i] {
          assert Read(mem[..], offset, |buf|)[i] != buf[i];
          assert mem[..][offset..offset + i] == buf[..i];
          return mem[offset + i] as int - buf[i] as int;
        }
        i := i + 1;
      }
      return 0;
    }

    /** A read into a local 64-bit variable that held prev. */
    method ReadWord(offset: nat, prev: nat, k: T) returns (word: nat)
      requires Valid() && prev < U64 && offset + 8 <= mem.Length
      ensures word == if Granted(build, table[..], k, offset, 8, READ) then WordAt(mem[..], offset) else prev
    {
      hide Granted;
      WordPower();
      DecodeEncode(prev, 8);
      var _, buf := ReadCxl(offset, 8, Encode(prev, 8), k);
      word := Decode(buf);
    }

    /** Under the reserved token the checks never refuse. */
    method ReadOpenWord(offset: nat, prev: nat) returns (word: nat)
      requires Valid() && prev < U64 && offset + 8 <= mem.Length
      ensures word == WordAt(mem[..], offset)
    {
      hide WordAt;
      word := ReadWord(offset, prev, build.global);
    }

    method CompareOpen(offset: nat, buf: Bytes) returns (result: int)
      requires Valid() && offset + |buf| <= mem.Length
      ensures result == 0 <==> Read(mem[..], offset, |buf|) == buf
    {
      hide Read;
      result := CompareCxl(offset, buf, build.global);
    }

    method WriteOpenWord(offset: nat, word: nat)
      requires Valid() && offset + 8 <= mem.Length
      modifies mem, table
      ensures Valid() && table[..] == old(table[..]) && mem[..] == PutWord(old(mem[..]), offset, word)
    {
      hide Write;
      var _ := WriteCxl(offset, Encode(word, 8), build.global);
    }

    // ----- Key-value operations -----

    ghost predicate Acquired(table0: seq<Slot<T>>, drawn0: nat, regions: seq<Region>)
      requires |table0| == HASH_TABLE_SIZE
      reads this`drawn, table
    {
      drawn == drawn0 + |regions| && table[..] == Acquires(build, source, table0, drawn0, regions)
    }

    /** One more acquisition. */
    method AcquireNext(ghost table0: seq<Slot<T>>, ghost drawn0: nat, ghost regions: seq<Region>, region: Region)
      returns (k: T)
      requires Valid() && |table0| == HASH_TABLE_SIZE && Acquired(table0, drawn0, regions)
      modifies this`drawn, table
      ensures k == source(drawn0 + |regions|)
      ensures Acquired(table0, drawn0, regions + [region])
    {
      hide TableSpec.Insert, Acquires;
      AcquiresMore(build, source, table0, drawn0, regions, region);
      k := Acquire(region.offset, region.size, region.permission);
    }

    /** The acquisition for the head word, which starts every walk. */
    method AcquireHead(head: nat, size: nat, ghost chain: seq<nat>, permission: int) returns (k: T)
      requires Valid()
      modifies this`drawn, table
      ensures k == source(old(drawn))
      ensures Acquired(old(table[..]), old(drawn), WalkRegions(head, size, chain, 0, permission))
    {
      hide TableSpec.Insert, Acquires;
      AcquiresNone(build, source, table[..], drawn);
      k := AcquireNext(table[..], drawn, [], Region(head, 8, permission));
      assert [] + [Region(head, 8, permission)] == WalkRegions(head, size, chain, 0, permission);
    }

    /** The acquisition for the entry a walk has reached. */
    method AcquireEntry(ghost table0: seq<Slot<T>>, ghost drawn0: nat, ghost head: nat, entry: nat, size: nat,
                        ghost chain: seq<nat>, ghost i: nat, permission: int) returns (k: T)
      requires Valid() && |table0| == HASH_TABLE_SIZE && i < |chain| && entry == chain[i]
      requires Acquired(table0, drawn0, WalkRegions(head, size, chain, i, permission))
      modifies this`drawn, table
      ensures k == source(drawn0 + i + 1)
      ensures Acquired(table0, drawn0, WalkRegions(head, size, chain, i + 1, permission))
    {
      k := AcquireNext(table0, drawn0, WalkRegions(head, size, chain, i, permission), Region(entry, size, permission));
    }

    method Get(key: Bytes, buffer: Bytes, k: T, ghost chain: seq<nat>) returns (found: bool, value: Bytes)
      requires Valid() && |key| == KEY_SIZE && Chain(mem[..], valueSize, Bucket(key), chain)
      modifies this`drawn, table
      ensures Valid()
      ensures var n := Visited(Pairs(mem[..], valueSize, chain), key);
              Acquired(old(table[..]), old(drawn), WalkRegions(Bucket(key), EntrySize(valueSize), chain, n, READ))
      ensures (found, value) == ProtectedGet(build, table[..], mem[..], valueSize, chain, key, buffer, k)
    {
      hide DiffersBy, Read, Write, WordAt, PutWord, Decode, Encode, Bucket, Find, Chain, AllFit, Pairs, PairAt, Granted,
           Acquires, WalkRegions;
      WalkStart(mem[..], valueSize, Bucket(key), chain);
      ghost var m, table0, drawn0 := mem[..], table[..], drawn;
      var _ := AcquireHead(Bucket(key), EntrySize(valueSize), chain, READ);
      var entry := ReadOpenWord(Bucket(key), 0);
      ghost var i := 0;
      while entry != 0
        invariant i <= |chain| && entry == Link(chain, i) && mem[..] == m
        invariant i <= Find(Pairs(m, valueSize, chain), key, 0)
        invariant Acquired(table0, drawn0, WalkRegions(Bucket(key), EntrySize(valueSize), chain, i, READ))
        decreases |chain| - i
      {
        WalkStep(m, valueSize, Bucket(key), chain, key, i);
        var _ := AcquireEntry(table0, drawn0, Bucket(key), entry, EntrySize(valueSize), chain, i, READ);
        var c := CompareOpen(entry, key);
        if c == 0 {
          var _, v := ReadCxl(entry + KEY_SIZE, valueSize, buffer, k);
          return true, v;
        }
        entry := ReadOpenWord(entry + KEY_SIZE + valueSize, entry);
        i := i + 1;
      }
      return false, buffer;
    }

    method Update(pair: Pair, k: T, ghost chain: seq<nat>) returns (found: bool)
      requires Valid() && WellFormedPair(pair, valueSize) && Chain(mem[..], valueSize, Bucket(pair.key), chain)
      modifies this`drawn, table, mem
      ensures Valid()
      ensures var n := Visited(Pairs(old(mem[..]), valueSize, chain), pair.key);
              Acquired(old(table[..]), old(drawn),
                       WalkRegions(Bucket(pair.key), EntrySize(valueSize), chain, n, READ_WRITE))
      ensures (mem[..], found) == ProtectedUpdate(build, table[..], old(mem[..]), valueSize, chain, pair, k)
    {
      hide DiffersBy, Read, Write, WordAt, PutWord, Decode, Encode, Bucket, Find, Chain, AllFit, Pairs, PairAt, Granted,
           Acquires, WalkRegions;
      WalkStart(mem[..], valueSize, Bucket(pair.key), chain);
      ghost var m, table0, drawn0 := mem[..], table[..], drawn;
      var _ := AcquireHead(Bucket(pair.key), EntrySize(valueSize), chain, READ_WRITE);
      var entry := ReadOpenWord(Bucket(pair.key), 0);
      ghost var i := 0;
      while entry != 0
        invariant i <= |chain| && entry == Link(chain, i) && mem[..] == m
        invariant i <= Find(Pairs(m, valueSize, chain), pair.key, 0)
        invariant Acquired(table0, drawn0, WalkRegions(Bucket(pair.key), EntrySize(valueSize), chain, i, READ_WRITE))
        decreases |chain| - i
      {
        WalkStep(m, valueSize, Bucket(pair.key), chain, pair.key, i);
        var _ := AcquireEntry(table0, drawn0, Bucket(pair.key), entry, EntrySize(valueSize), chain, i, READ_WRITE);
        var c := CompareOpen(entry, pair.key);
        if c == 0 {
          var _ := WriteCxl(entry + KEY_SIZE, pair.value, k);
          return true;
        }
        entry := ReadOpenWord(entry + KEY_SIZE + valueSize, entry);
        i := i + 1;
      }
      return false;
    }

    method Del(key: Bytes, k: T, ghost chain: seq<nat>) returns (found: bool)
      requires Valid() && |key| == KEY_SIZE && Chain(mem[..], valueSize, Bucket(key), chain)
      modifies mem, table
      ensures Valid() && table[..] == old(table[..])
      ensures (mem[..], found) == ProtectedDelete(build, table[..], old(mem[..]), valueSize, Bucket(key), chain, key, k)
    {
      hide DiffersBy, Read, Write, WordAt, PutWord, Decode, Encode, Bucket, Find, Chain, AllFit, Pairs, PairAt, Granted,
           Acquires, WalkRegions;
      WalkStart(mem[..], valueSize, Bucket(key), chain);
      ghost var m, table0 := mem[..], table[..];
      var entry := ReadOpenWord(Bucket(key), 0);
      var prevNextOffset := Bucket(key);
      ghost var i := 0;
      while entry != 0
        invariant i <= |chain| && entry == Link(chain, i) && mem[..] == m && table[..] == table0
        invariant prevNextOffset == LinkOffset(valueSize, Bucket(key), chain, i)
        invariant i <= Find(Pairs(m, valueSize, chain), key, 0)
        decreases |chain| - i
      {
        WalkStep(m, valueSize, Bucket(key), chain, key, i);
        var c := CompareOpen(entry, key);
        if c == 0 {
          var nextEntry := ReadWord(entry + KEY_SIZE + valueSize, 0, k);
          WriteOpenWord(prevNextOffset, nextEntry);
          return true;
        }
        prevNextOffset := entry + KEY_SIZE + valueSize;
        entry := ReadOpenWord(entry + KEY_SIZE + valueSize, entry);
        i := i + 1;
      }
      return false;
    }

    /** The four guarded writes of insert and of a missing put. */
    method WriteAndPublish(offset: nat, vs: nat, pair: Pair, kIndex: T, kEntry: T)
      requires Valid() && WellFormedPair(pair, vs) && offset + EntrySize(vs) <= mem.Length
      modifies mem, table
      ensures Valid() && table[..] == old(table[..]) && Bucket(pair.key) + 8 <= mem.Length
      ensures mem[..] == GuardedPublish(build, table[..], old(mem[..]), vs, offset, pair, kIndex, kEntry)
    {
      hide Read, Write, Decode, Encode, Bucket, Granted;
      BucketMapped(pair.key, mem.Length, hostId);
      var _ := WriteCxl(offset, pair.key, kEntry);
      var _ := WriteCxl(offset + KEY_SIZE, pair.value, kEntry);
      var _ := WriteCxl(offset + KEY_SIZE + vs, Encode(0, 8), kEntry);
      var _ := WriteCxl(Bucket(pair.key), Encode(offset, 8), kIndex);
    }

    /** Where a batched insert would go now. */
    function BatchOffset(): nat
      requires Valid()
      reads this
    {
      BatchStep(Allocator(nextFreeOffset, availableSlots), batchKvs, kvSize).0
    }

    /** None stands for the process exit on a full partition. A batched insert writes under the token
        of its batch, acquired at the refill. */
    method Insert(pair: Pair) returns (token: Option<T>)
      requires Valid() && WellFormedPair(pair, valueSize)
      requires useBatch ==> BatchOffset() + EntrySize(valueSize) <= mem.Length
      modifies this, table, mem
      ensures Valid() && Bucket(pair.key) + 8 <= mem.Length
      ensures !useBatch ==>
                var full := old(nextFreeOffset) + EntrySize(valueSize) > PartitionEnd(hostId);
                && Acquired(old(table[..]), old(drawn),
                            InsertRegions(Bucket(pair.key), old(nextFreeOffset), valueSize, hostId))
                && token == (if full then None else Some(source(old(drawn) + 1)))
                && nextFreeOffset == old(nextFreeOffset) + (if full then 0 else EntrySize(valueSize))
                && availableSlots == old(availableSlots) && batchKey == old(batchKey)
                && mem[..] == if full then old(mem[..]) else
                                GuardedPublish(build, table[..], old(mem[..]), valueSize, old(nextFreeOffset), pair,
                                               source(old(drawn)), source(old(drawn) + 1))
      ensures useBatch ==>
                var refill := old(availableSlots) == 0;
                var offset := old(BatchOffset());
                && Acquired(old(table[..]), old(drawn),
                            BatchRegions(Bucket(pair.key), refill, offset, kvSize * batchKvs))
                && batchKey == (if refill then source(old(drawn) + 1) else old(batchKey)) && token == Some(batchKey)
                && Allocator(nextFreeOffset, availableSlots)
                   == BatchStep(old(Allocator(nextFreeOffset, availableSlots)), batchKvs, kvSize).1
                && mem[..] == GuardedPublish(build, table[..], old(mem[..]), valueSize, offset, pair,
                                             source(old(drawn)), batchKey)
    {
      hide Bucket, Acquires, GuardedPublish, WalkRegions;
      BucketMapped(pair.key, mem.Length, hostId);
      ghost var table0, drawn0 := table[..], drawn;
      var kIndex := AcquireHead(Bucket(pair.key), EntrySize(valueSize), [], READ_WRITE);
      assert WalkRegions(Bucket(pair.key), EntrySize(valueSize), [], 0, READ_WRITE)
             == [Region(Bucket(pair.key), 8, READ_WRITE)];
      if useBatch {
        token := InsertBatched(pair, kIndex, table0, drawn0);
      } else {
        token := InsertOne(pair, kIndex, table0, drawn0);
      }
    }

    method InsertOne(pair: Pair, kIndex: T, ghost table0: seq<Slot<T>>, ghost drawn0: nat) returns (token: Option<T>)
      requires Valid() && WellFormedPair(pair, valueSize) && |table0| == HASH_TABLE_SIZE
               && Bucket(pair.key) + 8 <= mem.Length
      requires Acquired(table0, drawn0, [Region(Bucket(pair.key), 8, READ_WRITE)])
      modifies this`drawn, this`nextFreeOffset, table, mem
      ensures Valid()
      ensures Acquired(table0, drawn0, InsertRegions(Bucket(pair.key), old(nextFreeOffset), valueSize, hostId))
      ensures var full := old(nextFreeOffset) + EntrySize(valueSize) > PartitionEnd(hostId);
              && token == (if full then None else Some(source(drawn0 + 1)))
              && nextFreeOffset == old(nextFreeOffset) + (if full then 0 else EntrySize(valueSize))
              && mem[..] == if full then old(mem[..]) else
                              GuardedPublish(build, table[..], old(mem[..]), valueSize, old(nextFreeOffset), pair,
                                             kIndex, source(drawn0 + 1))
    {
      hide Bucket, Acquires, GuardedPublish;
      if nextFreeOffset + EntrySize(valueSize) > PartitionEnd(hostId) {
        return None;
      }
      ghost var head := Region(Bucket(pair.key), 8, READ_WRITE);
      var kEntry := AcquireNext(table0, drawn0, [head], Region(nextFreeOffset, EntrySize(valueSize), READ_WRITE));
      assert [head] + [Region(nextFreeOffset, EntrySize(valueSize), READ_WRITE)]
          == InsertRegions(Bucket(pair.key), nextFreeOffset, valueSize, hostId);
      WriteAndPublish(nextFreeOffset, valueSize, pair, kIndex, kEntry);
      nextFreeOffset := nextFreeOffset + EntrySize(valueSize);
      return Some(kEntry);
    }

    method InsertBatched(pair: Pair, kIndex: T, ghost table0: seq<Slot<T>>, ghost drawn0: nat)
      returns (token: Option<T>)
      requires Valid() && WellFormedPair(pair, valueSize) && |table0| == HASH_TABLE_SIZE
               && Bucket(pair.key) + 8 <= mem.Length
      requires Acquired(table0, drawn0, [Region(Bucket(pair.key), 8, READ_WRITE)])
      requires BatchOffset() + EntrySize(valueSize) <= mem.Length
      modifies this, table, mem
      ensures Valid()
      ensures Allocator(nextFreeOffset, availableSlots)
           == BatchStep(old(Allocator(nextFreeOffset, availableSlots)), batchKvs, kvSize).1
      ensures batchKey == (if old(availableSlots) == 0 then source(drawn0 + 1) else old(batchKey))
      ensures token == Some(batchKey)
      ensures Acquired(table0, drawn0,
                       BatchRegions(Bucket(pair.key), old(availableSlots) == 0, old(BatchOffset()), kvSize * batchKvs))
      ensures mem[..] == GuardedPublish(build, table[..], old(mem[..]), valueSize, old(BatchOffset()), pair, kIndex,
                                        batchKey)
    {
      hide Bucket, Acquires, GuardedPublish;
      ghost var head := Region(Bucket(pair.key), 8, READ_WRITE);
      if availableSlots == 0 {
        availableSlots := batchKvs - 1;
        var startOffset := nextFreeOffset;
        nextFreeOffset := nextFreeOffset + kvSize * batchKvs;
        batchKey := AcquireNext(table0, drawn0, [head], Region(startOffset, kvSize * batchKvs, READ_WRITE));
        assert [head] + [Region(startOffset, kvSize * batchKvs, READ_WRITE)]
               == BatchRegions(head.offset, true, startOffset, kvSize * batchKvs);
        WriteAndPublish(startOffset, valueSize, pair, kIndex, batchKey);
      } else {
        var startOffset := nextFreeOffset + (batchKvs - availableSlots) * kvSize;
        availableSlots := availableSlots - 1;
        assert [head] == BatchRegions(head.offset, false, startOffset, kvSize * batchKvs);
        WriteAndPublish(startOffset, valueSize, pair, kIndex, batchKey);
      }
      return Some(batchKey);
    }

    /** put walks under its own tokens, for as many rounds as those make it take. */
    method Put(pair: Pair, ghost rounds: nat) returns (ok: bool)
      requires Valid() && WellFormedPair(pair, PUT_VALUE_SIZE) && Bucket(pair.key) + 8 <= mem.Length
      requires !PutWalkFromHead(build, source, table[..], drawn, mem[..], pair.key, rounds).Unfinished?
      modifies this, table, mem
      ensures Valid()
      ensures var w := PutWalkFromHead(build, source, old(table[..]), old(drawn), old(mem[..]), pair.key, rounds);
              PutResult(Store(mem[..], nextFreeOffset), ok, table[..], drawn)
              == ProtectedPut(build, source, w, source(old(drawn)), old(Store(mem[..], nextFreeOffset)), hostId, pair)
    {
      hide DiffersBy, Read, Write, WordAt, PutWord, Decode, Encode, Bucket, Granted, TableSpec.Insert, GuardedPublish;
      ghost var m, w := mem[..], PutWalkFromHead(build, source, table[..], drawn, mem[..], pair.key, rounds);
      var kIndex := Acquire(Bucket(pair.key), 8, READ_WRITE);
      var entry: nat := ReadWord(Bucket(pair.key), 0, kIndex);
      ghost var left := rounds;
      while entry != 0
        invariant Valid() && nextFreeOffset == old(nextFreeOffset) && mem[..] == m && entry < U64
        invariant PutWalk(build, source, table[..], drawn, m, pair.key, entry, left) == w
        decreases left
      {
        var kData := Acquire(entry, EntrySize(PUT_VALUE_SIZE), READ_WRITE);
        var c := CompareCxl(entry, pair.key, kData);
        if c == 0 {
          var _ := WriteCxl(entry + KEY_SIZE, pair.value, kData);
          return true;
        }
        entry := ReadWord(entry + KEY_SIZE + PUT_VALUE_SIZE, entry, kData);
        left := left - 1;
      }
      ok := PutNew(pair, kIndex, w);
    }

    /** put's miss: refuse past the partition end, else acquire, write and publish a new entry. */
    method PutNew(pair: Pair, kIndex: T, ghost w: Walk<T>) returns (ok: bool)
      requires Valid() && WellFormedPair(pair, PUT_VALUE_SIZE) && w == Missed(table[..], drawn)
      modifies this, table, mem
      ensures Valid()
      ensures PutResult(Store(mem[..], nextFreeOffset), ok, table[..], drawn)
           == ProtectedPut(build, source, w, kIndex, old(Store(mem[..], nextFreeOffset)), hostId, pair)
    {
      hide Bucket, Granted, TableSpec.Insert, GuardedPublish;
      if nextFreeOffset + EntrySize(PUT_VALUE_SIZE) > PartitionEnd(hostId) {
        return false;
      }
      var kEntry := Acquire(nextFreeOffset, EntrySize(PUT_VALUE_SIZE), READ_WRITE);
      WriteAndPublish(nextFreeOffset, PUT_VALUE_SIZE, pair, kIndex, kEntry);
      nextFreeOffset := nextFreeOffset + EntrySize(PUT_VALUE_SIZE);
      return true;
    }
  }
}
