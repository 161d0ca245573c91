/** The protected store: every access to the byte memory names a token, and the protection table
    decides. Tokens come from a random source, modelled as a stream; the reserved token bypasses
    every check. Return codes are ignored by the store operations exactly where the program does. */
module ProtectedStore {
  import opened Memory
  import opened Layout
  import opened Chains
  import opened UnprotectedStore
  import opened TableSpec

  const READ_WRITE: int := 3

  // ----- Acquisitions -----

  /** The table after acquiring one token per region, drawn in order from the source. */
  ghost function Acquires<T>(b: Build<T>, source: nat -> T, table: seq<Slot<T>>, drawn: nat,
                             regions: seq<Region>): (r: seq<Slot<T>>)
    requires |table| == HASH_TABLE_SIZE
    ensures |r| == HASH_TABLE_SIZE
    decreases |regions|
  {
    if regions == [] then table
    else
      var n := |regions| - 1;
      Insert(b, Acquires(b, source, table, drawn, regions[..n]), source(drawn + n), regions[n]).0
  }

  lemma AcquiresNone<T>(b: Build<T>, source: nat -> T, table: seq<Slot<T>>, drawn: nat)
    requires |table| == HASH_TABLE_SIZE
    ensures Acquires(b, source, table, drawn, []) == table
  {
  }

  lemma AcquiresMore<T>(b: Build<T>, source: nat -> T, table: seq<Slot<T>>, drawn: nat, regions: seq<Region>,
                        region: Region)
    requires |table| == HASH_TABLE_SIZE
    ensures Acquires(b, source, table, drawn, regions + [region])
         == Insert(b, Acquires(b, source, table, drawn, regions), source(drawn + |regions|), region).0
  {
    hide Insert;
    var more := regions + [region];
    assert more != [] && more[..|more| - 1] == regions && more[|more| - 1] == region;
  }

  /** Every drawn token was accepted by the table, or is the reserved token, which needs no entry. */
  ghost predicate Accepted<T>(b: Build<T>, source: nat -> T, table: seq<Slot<T>>, drawn: nat, regions: seq<Region>)
    requires |table| == HASH_TABLE_SIZE
    decreases |regions|
  {
    regions != [] ==>
      var n := |regions| - 1;
      && Accepted(b, source, table, drawn, regions[..n])
      && (source(drawn + n) == b.global
          || Insert(b, Acquires(b, source, table, drawn, regions[..n]), source(drawn + n), regions[n]).1 == 0)
  }

  /** Acquisitions never change what an existing token permits. */
  lemma {:induction false} AcquiresKeepLookup<T>(b: Build<T>, source: nat -> T, table: seq<Slot<T>>, drawn: nat,
                                                 regions: seq<Region>, k: T)
    requires |table| == HASH_TABLE_SIZE && Lookup(b, table, k).Some?
    ensures Lookup(b, Acquires(b, source, table, drawn, regions), k) == Lookup(b, table, k)
    decreases |regions|
  {
    hide Lookup, Insert;
    if regions != [] {
      var n := |regions| - 1;
      AcquiresKeepLookup(b, source, table, drawn, regions[..n], k);
      InsertKeepsLookup(b, Acquires(b, source, table, drawn, regions[..n]), k, source(drawn + n), regions[n]);
    }
  }

  /** Each accepted token is found, after all acquisitions, with the region it was acquired for. */
  lemma {:induction false} AcceptedIsFound<T>(b: Build<T>, source: nat -> T, table: seq<Slot<T>>, drawn: nat,
                                              regions: seq<Region>, i: nat)
    requires |table| == HASH_TABLE_SIZE && Accepted(b, source, table, drawn, regions) && i < |regions|
    ensures source(drawn + i) == b.global
         || Lookup(b, Acquires(b, source, table, drawn, regions), source(drawn + i)) == Some(regions[i])
    decreases |regions|
  {
    hide Lookup, Insert;
    var n := |regions| - 1;
    var before := Acquires(b, source, table, drawn, regions[..n]);
    if source(drawn + i) != b.global {
      if i == n {
        InsertThenLookup(b, before, source(drawn + n), regions[n]);
      } else {
        AcceptedIsFound(b, source, table, drawn, regions[..n], i);
        InsertKeepsLookup(b, before, source(drawn + i), source(drawn + n), regions[n]);
      }
    }
  }

  /** Hence it may use any range inside that region, for what the region permits. */
  lemma AcceptedMayAccess<T>(b: Build<T>, source: nat -> T, table: seq<Slot<T>>, drawn: nat, regions: seq<Region>,
                             i: nat, offset: nat, size: nat, bit: nat)
    requires |table| == HASH_TABLE_SIZE && Accepted(b, source, table, drawn, regions) && i < |regions|
    requires bit == READ || bit == WRITE
    requires Inside(regions[i], offset, size) && regions[i].permission == READ_WRITE
    ensures Granted(b, Acquires(b, source, table, drawn, regions), source(drawn + i), offset, size, bit)
  {
    hide Acquires, Accepted, Lookup, Permits;
    AcceptedIsFound(b, source, table, drawn, regions, i);
    InsidePermits(regions[i], offset, size, bit);
  }

  lemma InsidePermits(region: Region, offset: nat, size: nat, bit: nat)
    requires bit == READ || bit == WRITE
    requires Inside(region, offset, size) && region.permission == READ_WRITE
    ensures Permits(region, offset, size, bit)
  {
  }

  predicate Inside(region: Region, offset: nat, size: nat) {
    region.size > 0 && region.offset <= offset && offset + size <= region.offset + region.size < U64
  }

  /** The acquisitions of a chain walk: the head word, then the first n entries. */
  ghost function WalkRegions(head: nat, size: nat, chain: seq<nat>, n: nat, permission: int): (r: seq<Region>)
    requires n <= |chain|
    ensures |r| == n + 1
    ensures r[0] == Region(head, 8, permission)
    ensures forall i :: 0 <= i < n ==> r[i + 1] == Region(chain[i], size, permission)
  {
    if n == 0 then [Region(head, 8, permission)]
    else WalkRegions(head, size, chain, n - 1, permission) + [Region(chain[n - 1], size, permission)]
  }

  /** Entries a walk visits: up to and including the first match. */
  ghost function Visited(ps: seq<Pair>, key: Bytes): (n: nat)
    ensures n <= |ps|
  {
    var i := Find(ps, key, 0);
    if i < |ps| then i + 1 else i
  }

  /** What put acquires: its walk and, on a miss with room left, the new entry. */
  ghost function PutRegions(m: Bytes, head: nat, chain: seq<nat>, key: Bytes, next: nat, host: nat): (r: seq<Region>)
    requires AllFit(m, PUT_VALUE_SIZE, chain)
    ensures |r| >= 1
  {
    var es := EntrySize(PUT_VALUE_SIZE);
    var ps := Pairs(m, PUT_VALUE_SIZE, chain);
    var walk := WalkRegions(head, es, chain, Visited(ps, key), READ_WRITE);
    if Find(ps, key, 0) < |ps| || next + es > PartitionEnd(host) then walk
    else walk + [Region(next, es, READ_WRITE)]
  }

  /** What insert acquires before it exits on a full partition, or else in all. */
  function InsertRegions(head: nat, next: nat, vs: nat, host: nat): seq<Region> {
    if next + EntrySize(vs) > PartitionEnd(host) then [Region(head, 8, READ_WRITE)]
    else [Region(head, 8, READ_WRITE), Region(next, EntrySize(vs), READ_WRITE)]
  }

  /** A batched insert acquires the head word and, at a refill, the batch. */
  function BatchRegions(head: nat, refill: bool, offset: nat, size: nat): seq<Region> {
    [Region(head, 8, READ_WRITE)] + if refill then [Region(offset, size, READ_WRITE)] else []
  }

  // ----- What the acquired tokens are worth -----

  /** k is the reserved token, or is found with this region. */
  predicate HeldFor<T(==)>(b: Build<T>, t: seq<Slot<T>>, k: T, region: Region)
    requires |t| == HASH_TABLE_SIZE
  {
    k == b.global || Lookup(b, t, k) == Some(region)
  }

  /** get and update draw one token for the eight bytes of the head word and one for every entry from the
      first up to the match, or for all; each covers exactly its entry. */
  lemma WalkTokens<T>(b: Build<T>, source: nat -> T, table: seq<Slot<T>>, drawn: nat, m: Bytes, vs: nat, head: nat,
                      chain: seq<nat>, key: Bytes, permission: int)
    requires |table| == HASH_TABLE_SIZE && AllFit(m, vs, chain)
    requires Accepted(b, source, table, drawn,
                      WalkRegions(head, EntrySize(vs), chain, Visited(Pairs(m, vs, chain), key), permission))
    ensures var regions := WalkRegions(head, EntrySize(vs), chain, Visited(Pairs(m, vs, chain), key), permission);
            var t := Acquires(b, source, table, drawn, regions);
            var f := Find(Pairs(m, vs, chain), key, 0);
            && |regions| == (if f < |chain| then f + 2 else |chain| + 1)
            && HeldFor(b, t, source(drawn), Region(head, 8, permission))
            && forall i :: 0 <= i < |chain| && i <= f ==>
                 HeldFor(b, t, source(drawn + (i + 1)), Region(chain[i], 72 + vs, permission))
  {
    hide Accepted, Acquires, Lookup, Find, Pairs;
    var regions := WalkRegions(head, EntrySize(vs), chain, Visited(Pairs(m, vs, chain), key), permission);
    var f := Find(Pairs(m, vs, chain), key, 0);
    AcceptedIsFound(b, source, table, drawn, regions, 0);
    forall i | 0 <= i < |chain| && i <= f
      ensures HeldFor(b, Acquires(b, source, table, drawn, regions), source(drawn + (i + 1)),
                      Region(chain[i], 72 + vs, permission))
    {
      AcceptedIsFound(b, source, table, drawn, regions, i + 1);
    }
  }

  /** So the tokens of a get open their entries for reading and nothing for writing, and those of an
      update open them for both. */
  lemma GetTokensOnlyRead<T>(b: Build<T>, source: nat -> T, table: seq<Slot<T>>, drawn: nat, m: Bytes, vs: nat,
                             head: nat, chain: seq<nat>, key: Bytes, i: nat)
    requires |table| == HASH_TABLE_SIZE && AllFit(m, vs, chain) && |m| < U64
    requires i < |chain| && i <= Find(Pairs(m, vs, chain), key, 0) && source(drawn + (i + 1)) != b.global
    ensures var regions := WalkRegions(head, EntrySize(vs), chain, Visited(Pairs(m, vs, chain), key), READ);
            var t := Acquires(b, source, table, drawn, regions);
            var k := source(drawn + (i + 1));
            Accepted(b, source, table, drawn, regions) ==>
              && Granted(b, t, k, chain[i], 72 + vs, 1)
              && forall p, n :: !Granted(b, t, k, p, n, 2)
    ensures var regions := WalkRegions(head, EntrySize(vs), chain, Visited(Pairs(m, vs, chain), key), READ_WRITE);
            var t := Acquires(b, source, table, drawn, regions);
            var k := source(drawn + (i + 1));
            Accepted(b, source, table, drawn, regions) ==>
              Granted(b, t, k, chain[i], 72 + vs, 1) && Granted(b, t, k, chain[i], 72 + vs, 2)
  {
    hide Accepted, Acquires, Lookup, Find, Pairs, WalkRegions, Visited;
    assert Fits(m, vs, chain[i]);
    forall permission | permission == READ || permission == READ_WRITE
      ensures var regions := WalkRegions(head, EntrySize(vs), chain, Visited(Pairs(m, vs, chain), key), permission);
              Accepted(b, source, table, drawn, regions) ==>
                HeldFor(b, Acquires(b, source, table, drawn, regions), source(drawn + (i + 1)),
                        Region(chain[i], 72 + vs, permission))
    {
      if Accepted(b, source, table, drawn,
                  WalkRegions(head, EntrySize(vs), chain, Visited(Pairs(m, vs, chain), key), permission)) {
        WalkTokens(b, source, table, drawn, m, vs, head, chain, key, permission);
      }
    }
  }

  /** insert draws a token for the eight bytes of the head word and, unless the partition is full, one
      for exactly the new entry, both for reading and writing. */
  lemma InsertTokens<T>(b: Build<T>, source: nat -> T, table: seq<Slot<T>>, drawn: nat, head: nat, next: nat, vs: nat,
                        host: nat)
    requires |table| == HASH_TABLE_SIZE && Accepted(b, source, table, drawn, InsertRegions(head, next, vs, host))
    ensures var regions := InsertRegions(head, next, vs, host);
            var t := Acquires(b, source, table, drawn, regions);
            var full := next + 72 + vs > 0x800_0000 + 0x4000_0000 * (host + 1);
            && |regions| == (if full then 1 else 2)
            && HeldFor(b, t, source(drawn), Region(head, 8, 3))
            && (!full ==> HeldFor(b, t, source(drawn + 1), Region(next, 72 + vs, 3)))
  {
    hide Accepted, Acquires, Lookup;
    var regions := InsertRegions(head, next, vs, host);
    AcceptedIsFound(b, source, table, drawn, regions, 0);
    if |regions| > 1 {
      AcceptedIsFound(b, source, table, drawn, regions, 1);
    }
  }

  /** put's accepted tokens: as for a walk over 328-byte entries and, on a miss with room left, one more
      for exactly the new entry. */
  lemma PutTokens<T>(b: Build<T>, source: nat -> T, table: seq<Slot<T>>, drawn: nat, m: Bytes, head: nat,
                     chain: seq<nat>, key: Bytes, next: nat, host: nat, i: nat)
    requires |table| == HASH_TABLE_SIZE && AllFit(m, 256, chain)
    requires Accepted(b, source, table, drawn, PutRegions(m, head, chain, key, next, host))
    ensures var regions := PutRegions(m, head, chain, key, next, host);
            var t := Acquires(b, source, table, drawn, regions);
            var f := Find(Pairs(m, 256, chain), key, 0);
            var full := next + 328 > 0x800_0000 + 0x4000_0000 * (host + 1);
            && |regions| == (if f < |chain| then f + 2 else if full then |chain| + 1 else |chain| + 2)
            && HeldFor(b, t, source(drawn), Region(head, 8, 3))
            && (i < |chain| && i <= f ==> HeldFor(b, t, source(drawn + (i + 1)), Region(chain[i], 328, 3)))
            && (f == |chain| && !full ==> HeldFor(b, t, source(drawn + (|chain| + 1)), Region(next, 328, 3)))
  {
    hide Accepted, Acquires, Lookup, Find, Pairs;
    var regions := PutRegions(m, head, chain, key, next, host);
    var f := Find(Pairs(m, 256, chain), key, 0);
    AcceptedIsFound(b, source, table, drawn, regions, 0);
    if i < |chain| && i <= f {
      AcceptedIsFound(b, source, table, drawn, regions, i + 1);
    }
    if f == |chain| && |regions| == |chain| + 2 {
      AcceptedIsFound(b, source, table, drawn, regions, |chain| + 1);
    }
  }

  lemma AcceptedPrefix<T>(b: Build<T>, source: nat -> T, table: seq<Slot<T>>, drawn: nat, regions: seq<Region>, n: nat)
    requires |table| == HASH_TABLE_SIZE && Accepted(b, source, table, drawn, regions) && n <= |regions|
    ensures Accepted(b, source, table, drawn, regions[..n])
    decreases |regions|
  {
    if n < |regions| {
      AcceptedPrefix(b, source, table, drawn, regions[..|regions| - 1], n);
      assert regions[..|regions| - 1][..n] == regions[..n];
    } else {
      assert regions[..n] == regions;
    }
  }

  lemma {:induction false} WalkPrefix(head: nat, size: nat, chain: seq<nat>, n: nat, permission: int, i: nat)
    requires i <= n <= |chain|
    ensures WalkRegions(head, size, chain, n, permission)[..i + 1] == WalkRegions(head, size, chain, i, permission)
  {
    if i < n {
      WalkPrefix(head, size, chain, n - 1, permission, i);
      assert WalkRegions(head, size, chain, n, permission)[..i + 1]
             == WalkRegions(head, size, chain, n - 1, permission)[..i + 1];
    } else {
      assert WalkRegions(head, size, chain, n, permission)[..i + 1] == WalkRegions(head, size, chain, n, permission);
    }
  }

  /** put's walk up to any visited entry is an accepted part of its acquisitions. */
  lemma PutWalkAccepted<T>(b: Build<T>, source: nat -> T, table: seq<Slot<T>>, drawn: nat, m: Bytes, head: nat,
                           chain: seq<nat>, key: Bytes, next: nat, host: nat, i: nat)
    requires |table| == HASH_TABLE_SIZE && AllFit(m, PUT_VALUE_SIZE, chain)
    requires Accepted(b, source, table, drawn, PutRegions(m, head, chain, key, next, host))
    requires i <= Visited(Pairs(m, PUT_VALUE_SIZE, chain), key)
    ensures Accepted(b, source, table, drawn, WalkRegions(head, EntrySize(PUT_VALUE_SIZE), chain, i, READ_WRITE))
  {
    hide Accepted, Visited, WalkRegions, Find;
    var n := Visited(Pairs(m, PUT_VALUE_SIZE, chain), key);
    var all := PutRegions(m, head, chain, key, next, host);
    AcceptedPrefix(b, source, table, drawn, all, i + 1);
    WalkPrefix(head, EntrySize(PUT_VALUE_SIZE), chain, n, READ_WRITE, i);
    assert all[..i + 1] == WalkRegions(head, EntrySize(PUT_VALUE_SIZE), chain, n, READ_WRITE)[..i + 1];
  }

  /** So put's own tokens open the head word and every entry it visits. */
  lemma PutMayWalk<T>(b: Build<T>, source: nat -> T, table: seq<Slot<T>>, drawn: nat, m: Bytes, head: nat,
                      chain: seq<nat>, i: nat)
    requires |table| == HASH_TABLE_SIZE && AllFit(m, PUT_VALUE_SIZE, chain) && i <= |chain| && head + 8 <= |m| < U64
    requires Accepted(b, source, table, drawn, WalkRegions(head, EntrySize(PUT_VALUE_SIZE), chain, i, READ_WRITE))
    ensures var t := Acquires(b, source, table, drawn,
                              WalkRegions(head, EntrySize(PUT_VALUE_SIZE), chain, i, READ_WRITE));
            && Granted(b, t, source(drawn), head, 8, READ)
            && (i > 0 ==>
                  && Granted(b, t, source(drawn + i), chain[i - 1], KEY_SIZE, READ)
                  && Granted(b, t, source(drawn + i), chain[i - 1] + KEY_SIZE, PUT_VALUE_SIZE, WRITE)
                  && Granted(b, t, source(drawn + i), chain[i - 1] + KEY_SIZE + PUT_VALUE_SIZE, 8, READ))
  {
    hide Accepted, Acquires, Granted, WalkRegions;
    var regions := WalkRegions(head, EntrySize(PUT_VALUE_SIZE), chain, i, READ_WRITE);
    assert regions[0] == Region(head, 8, READ_WRITE);
    AcceptedMayAccess(b, source, table, drawn, regions, 0, head, 8, READ);
    if i > 0 {
      assert regions[i] == Region(chain[i - 1], EntrySize(PUT_VALUE_SIZE), READ_WRITE);
      assert Fits(m, PUT_VALUE_SIZE, chain[i - 1]);
      AcceptedMayAccess(b, source, table, drawn, regions, i, chain[i - 1], KEY_SIZE, READ);
      AcceptedMayAccess(b, source, table, drawn, regions, i, chain[i - 1] + KEY_SIZE, PUT_VALUE_SIZE, WRITE);
      AcceptedMayAccess(b, source, table, drawn, regions, i, chain[i - 1] + KEY_SIZE + PUT_VALUE_SIZE, 8, READ);
    }
  }

  // ----- Guarded effects -----

  function GuardedWrite<T(==)>(b: Build<T>, table: seq<Slot<T>>, m: Bytes, offset: nat, data: Bytes, k: T): (r: Bytes)
    requires |table| == HASH_TABLE_SIZE && offset + |data| <= |m|
    ensures |r| == |m|
  {
    if Granted(b, table, k, offset, |data|, WRITE) then Write(m, offset, data) else m
  }

  function GuardedRead<T(==)>(b: Build<T>, table: seq<Slot<T>>, m: Bytes, offset: nat, size: nat, buffer: Bytes,
                              k: T): Bytes
    requires |table| == HASH_TABLE_SIZE && offset + size <= |m|
  {
    if Granted(b, table, k, offset, size, READ) then Read(m, offset, size) else buffer
  }

  /** insert's four writes: three under the entry's token, the head word under the index token. */
  function GuardedPublish<T(==)>(b: Build<T>, table: seq<Slot<T>>, m: Bytes, vs: nat, entry: nat, pair: Pair,
                                 kIndex: T, kEntry: T): (r: Bytes)
    requires |table| == HASH_TABLE_SIZE
    requires WellFormedPair(pair, vs) && Fits(m, vs, entry) && Bucket(pair.key) + 8 <= |m|
    ensures |r| == |m|
  {
    var m1 := GuardedWrite(b, table, m, entry, pair.key, kEntry);
    var m2 := GuardedWrite(b, table, m1, entry + KEY_SIZE, pair.value, kEntry);
    var m3 := GuardedWrite(b, table, m2, entry + KEY_SIZE + vs, Encode(0, 8), kEntry);
    GuardedWrite(b, table, m3, Bucket(pair.key), Encode(entry, 8), kIndex)
  }

  /** get: an unauthorised caller still learns that the key exists, but its buffer stays as it was. */
  ghost function ProtectedGet<T>(b: Build<T>, table: seq<Slot<T>>, m: Bytes, vs: nat, chain: seq<nat>, key: Bytes,
                                 buffer: Bytes, k: T): (bool, Bytes)
    requires |table| == HASH_TABLE_SIZE && AllFit(m, vs, chain)
  {
    var i := Find(Pairs(m, vs, chain), key, 0);
    if i == |chain| then (false, buffer)
    else (true, GuardedRead(b, table, m, chain[i] + KEY_SIZE, vs, buffer, k))
  }

  ghost function ProtectedUpdate<T>(b: Build<T>, table: seq<Slot<T>>, m: Bytes, vs: nat, chain: seq<nat>, pair: Pair,
                                    k: T): (r: (Bytes, bool))
    requires |table| == HASH_TABLE_SIZE && AllFit(m, vs, chain) && WellFormedPair(pair, vs)
    ensures |r.0| == |m|
  {
    var i := Find(Pairs(m, vs, chain), pair.key, 0);
    if i == |chain| then (m, false)
    else (GuardedWrite(b, table, m, chain[i] + KEY_SIZE, pair.value, k), true)
  }

  /** del: the next word is read under the caller's token and stays 0 when refused; the link is
      written under the reserved token in any case. */
  ghost function ProtectedDelete<T>(b: Build<T>, table: seq<Slot<T>>, m: Bytes, vs: nat, head: nat, chain: seq<nat>,
                                    key: Bytes, k: T): (r: (Bytes, bool))
    requires |table| == HASH_TABLE_SIZE && Chain(m, vs, head, chain)
    ensures |r.0| == |m|
  {
    var i := Find(Pairs(m, vs, chain), key, 0);
    if i == |chain| then (m, false)
    else
      var next := if Granted(b, table, k, chain[i] + KEY_SIZE + vs, 8, READ) then NextAt(m, vs, chain[i]) else 0;
      LinkIsWord(m, vs, head, chain, i);
      (PutWord(m, LinkOffset(vs, head, chain, i), next), true)
  }

  // ----- put, whatever its tokens are worth -----

  /** How put's walk ends. Unfinished: not within the rounds given, or at an address past the data area. */
  datatype Walk<T> =
    | Unfinished
    | Missed(table: seq<Slot<T>>, drawn: nat)
    | Hit(table: seq<Slot<T>>, drawn: nat, entry: nat, token: T)

  /** The walk draws a token for every round. A refused one compares as different and leaves the
      entry where it was, so that the next round tries the same entry with the next token. */
  function PutWalk<T(==)>(b: Build<T>, source: nat -> T, table: seq<Slot<T>>, drawn: nat, m: Bytes, key: Bytes,
                          entry: nat, rounds: nat): (w: Walk<T>)
    requires |table| == HASH_TABLE_SIZE && |key| == KEY_SIZE
    ensures !w.Unfinished? ==> |w.table| == HASH_TABLE_SIZE && drawn <= w.drawn
    ensures w.Hit? ==> Fits(m, PUT_VALUE_SIZE, w.entry)
    decreases rounds
  {
    if entry == 0 then Missed(table, drawn)
    else if rounds == 0 || !Fits(m, PUT_VALUE_SIZE, entry) then Unfinished
    else
      var k := source(drawn);
      var t := Insert(b, table, k, Region(entry, EntrySize(PUT_VALUE_SIZE), READ_WRITE)).0;
      if Granted(b, t, k, entry, KEY_SIZE, READ) && KeyAt(m, PUT_VALUE_SIZE, entry) == key
        then Hit(t, drawn + 1, entry, k)
      else
        var next := if Granted(b, t, k, entry + KEY_SIZE + PUT_VALUE_SIZE, 8, READ)
            then NextAt(m, PUT_VALUE_SIZE, entry) else entry;
        PutWalk(b, source, t, drawn + 1, m, key, next, rounds - 1)
  }

  /** The walk as put starts it: a refused index token leaves the local entry 0 and skips it. */
  function PutWalkFromHead<T(==)>(b: Build<T>, source: nat -> T, table: seq<Slot<T>>, drawn: nat, m: Bytes,
                                  key: Bytes, rounds: nat): (w: Walk<T>)
    requires |table| == HASH_TABLE_SIZE && |key| == KEY_SIZE && Bucket(key) + 8 <= |m|
    ensures !w.Unfinished? ==> |w.table| == HASH_TABLE_SIZE && drawn < w.drawn
    ensures w.Hit? ==> Fits(m, PUT_VALUE_SIZE, w.entry)
  {
    var t := Insert(b, table, source(drawn), Region(Bucket(key), 8, READ_WRITE)).0;
    var entry := if Granted(b, t, source(drawn), Bucket(key), 8, READ) then WordAt(m, Bucket(key)) else 0;
    PutWalk(b, source, t, drawn + 1, m, key, entry, rounds)
  }

  datatype PutResult<T> = PutResult(data: Store, ok: bool, table: seq<Slot<T>>, drawn: nat)

  /** What put leaves when its walk has ended as w. */
  function ProtectedPut<T(==)>(b: Build<T>, source: nat -> T, w: Walk<T>, kIndex: T, data: Store, host: nat,
                               pair: Pair): (r: PutResult<T>)
    requires !w.Unfinished? && |w.table| == HASH_TABLE_SIZE && (w.Hit? ==> Fits(data.mem, PUT_VALUE_SIZE, w.entry))
    requires WellFormedPair(pair, PUT_VALUE_SIZE) && Mapped(|data.mem|, host)
    ensures |r.table| == HASH_TABLE_SIZE && |r.data.mem| == |data.mem|
  {
    BucketMapped(pair.key, |data.mem|, host);
    var es := EntrySize(PUT_VALUE_SIZE);
    match w
    case Hit(table, drawn, entry, k) =>
      PutResult(Store(GuardedWrite(b, table, data.mem, entry + KEY_SIZE, pair.value, k), data.next), true, table, drawn)
    case Missed(table, drawn) =>
      if data.next + es > PartitionEnd(host) then PutResult(data, false, table, drawn)
      else
        var t := Insert(b, table, source(drawn), Region(data.next, es, READ_WRITE)).0;
        var m := GuardedPublish(b, t, data.mem, PUT_VALUE_SIZE, data.next, pair, kIndex, source(drawn));
        PutResult(Store(m, data.next + es), true, t, drawn + 1)
  }

  /** A walk that has ended does not depend on how many rounds more it was given. */
  lemma {:induction false} PutWalkStable<T>(b: Build<T>, source: nat -> T, table: seq<Slot<T>>, drawn: nat, m: Bytes,
                                            key: Bytes, entry: nat, r1: nat, r2: nat)
    requires |table| == HASH_TABLE_SIZE && |key| == KEY_SIZE && r1 <= r2
    requires !PutWalk(b, source, table, drawn, m, key, entry, r1).Unfinished?
    ensures PutWalk(b, source, table, drawn, m, key, entry, r2) == PutWalk(b, source, table, drawn, m, key, entry, r1)
    decreases r1
  {
    hide Insert, Granted, KeyAt, NextAt;
    if entry != 0 {
      var k := source(drawn);
      var t := Insert(b, table, k, Region(entry, EntrySize(PUT_VALUE_SIZE), READ_WRITE)).0;
      if !(Granted(b, t, k, entry, KEY_SIZE, READ) && KeyAt(m, PUT_VALUE_SIZE, entry) == key) {
        var next := if Granted(b, t, k, entry + KEY_SIZE + PUT_VALUE_SIZE, 8, READ)
            then NextAt(m, PUT_VALUE_SIZE, entry) else entry;
        PutWalkStable(b, source, t, drawn + 1, m, key, next, r1 - 1, r2 - 1);
      }
    }
  }

  /** No walk changes what an existing token permits. */
  lemma {:induction false} PutWalkKeepsLookup<T>(b: Build<T>, source: nat -> T, table: seq<Slot<T>>, drawn: nat,
                                                 m: Bytes, key: Bytes, entry: nat, rounds: nat, k: T)
    requires |table| == HASH_TABLE_SIZE && |key| == KEY_SIZE && Lookup(b, table, k).Some?
    requires !PutWalk(b, source, table, drawn, m, key, entry, rounds).Unfinished?
    ensures Lookup(b, PutWalk(b, source, table, drawn, m, key, entry, rounds).table, k) == Lookup(b, table, k)
    decreases rounds
  {
    hide Insert, Granted, Lookup, KeyAt, NextAt;
    if entry != 0 {
      var region := Region(entry, EntrySize(PUT_VALUE_SIZE), READ_WRITE);
      var t := Insert(b, table, source(drawn), region).0;
      InsertKeepsLookup(b, table, k, source(drawn), region);
      if !(Granted(b, t, source(drawn), entry, KEY_SIZE, READ) && KeyAt(m, PUT_VALUE_SIZE, entry) == key) {
        var next := if Granted(b, t, source(drawn), entry + KEY_SIZE + PUT_VALUE_SIZE, 8, READ)
            then NextAt(m, PUT_VALUE_SIZE, entry) else entry;
        PutWalkKeepsLookup(b, source, t, drawn + 1, m, key, next, rounds - 1, k);
      }
    }
  }

  /** The tokens and the table after n rounds that each advanced. */
  ghost predicate WalkedSoFar<T>(b: Build<T>, source: nat -> T, table: seq<Slot<T>>, drawn: nat, head: nat,
                                 chain: seq<nat>, i: nat, t: seq<Slot<T>>)
    requires |table| == HASH_TABLE_SIZE && i <= |chain|
  {
    t == Acquires(b, source, table, drawn, WalkRegions(head, EntrySize(PUT_VALUE_SIZE), chain, i, READ_WRITE))
  }

  /** With accepted tokens the walk follows the chain to the first match. */
  lemma {:induction false} AcceptedWalk<T>(b: Build<T>, source: nat -> T, table: seq<Slot<T>>, drawn: nat, m: Bytes,
                                           head: nat, chain: seq<nat>, key: Bytes, next: nat, host: nat, i: nat,
                                               t: seq<Slot<T>>, rounds: nat)
    requires |table| == HASH_TABLE_SIZE && |key| == KEY_SIZE && Chain(m, PUT_VALUE_SIZE, head, chain) && |m| < U64
    requires Accepted(b, source, table, drawn, PutRegions(m, head, chain, key, next, host))
    requires i <= Find(Pairs(m, PUT_VALUE_SIZE, chain), key, 0) && rounds >= |chain| - i
    requires WalkedSoFar(b, source, table, drawn, head, chain, i, t) && |t| == HASH_TABLE_SIZE
    ensures var f := Find(Pairs(m, PUT_VALUE_SIZE, chain), key, 0);
            var n := Visited(Pairs(m, PUT_VALUE_SIZE, chain), key);
            var end := Acquires(b, source, table, drawn,
                                WalkRegions(head, EntrySize(PUT_VALUE_SIZE), chain, n, READ_WRITE));
            PutWalk(b, source, t, drawn + 1 + i, m, key, Link(chain, i), rounds)
            == if f < |chain| then Hit(end, drawn + 1 + n, chain[f], source(drawn + n)) else Missed(end, drawn + 1 + n)
    decreases |chain| - i
  {
    hide Insert, Granted, Accepted, Acquires, WalkRegions, Find, Pairs, Chain, Read, WordAt, PutRegions;
    WalkStart(m, PUT_VALUE_SIZE, head, chain);
    WalkStep(m, PUT_VALUE_SIZE, head, chain, key, i);
    if i < |chain| {
      AdvanceWalk(b, source, table, drawn, m, head, chain, key, next, host, i, t);
      if i < Find(Pairs(m, PUT_VALUE_SIZE, chain), key, 0) {
        var t' := Insert(b, t, source(drawn + 1 + i), Region(chain[i], EntrySize(PUT_VALUE_SIZE), READ_WRITE)).0;
        AcceptedWalk(b, source, table, drawn, m, head, chain, key, next, host, i + 1, t', rounds - 1);
      }
    }
  }

  /** One round of it: the entry's token is accepted and opens the entry. */
  lemma AdvanceWalk<T>(b: Build<T>, source: nat -> T, table: seq<Slot<T>>, drawn: nat, m: Bytes, head: nat,
                       chain: seq<nat>, key: Bytes, next: nat, host: nat, i: nat, t: seq<Slot<T>>)
    requires |table| == HASH_TABLE_SIZE && |key| == KEY_SIZE && Chain(m, PUT_VALUE_SIZE, head, chain) && |m| < U64
    requires Accepted(b, source, table, drawn, PutRegions(m, head, chain, key, next, host))
    requires i < |chain| && i <= Find(Pairs(m, PUT_VALUE_SIZE, chain), key, 0)
    requires WalkedSoFar(b, source, table, drawn, head, chain, i, t) && |t| == HASH_TABLE_SIZE
    ensures var k := source(drawn + 1 + i);
            var t' := Insert(b, t, k, Region(chain[i], EntrySize(PUT_VALUE_SIZE), READ_WRITE)).0;
            && WalkedSoFar(b, source, table, drawn, head, chain, i + 1, t')
            && Granted(b, t', k, chain[i], KEY_SIZE, READ)
            && Granted(b, t', k, chain[i] + KEY_SIZE, PUT_VALUE_SIZE, WRITE)
            && Granted(b, t', k, chain[i] + KEY_SIZE + PUT_VALUE_SIZE, 8, READ)
  {
    hide Insert, Granted, Accepted, Acquires, WalkRegions, Find, Pairs, PutRegions, Chain;
    WalkStart(m, PUT_VALUE_SIZE, head, chain);
    WalkMore(head, EntrySize(PUT_VALUE_SIZE), chain, i, READ_WRITE);
    AcquiresMore(b, source, table, drawn, WalkRegions(head, EntrySize(PUT_VALUE_SIZE), chain, i, READ_WRITE),
                 Region(chain[i], EntrySize(PUT_VALUE_SIZE), READ_WRITE));
    PutWalkAccepted(b, source, table, drawn, m, head, chain, key, next, host, i + 1);
    PutMayWalk(b, source, table, drawn, m, head, chain, i + 1);
  }

  lemma WalkMore(head: nat, size: nat, chain: seq<nat>, n: nat, permission: int)
    requires n < |chain|
    ensures WalkRegions(head, size, chain, n + 1, permission)
            == WalkRegions(head, size, chain, n, permission) + [Region(chain[n], size, permission)]
    ensures WalkRegions(head, size, chain, 0, permission) == [Region(head, 8, permission)]
  {
  }

  /** A refused del still reports success and cuts the chain before the match: it removes the match
      and everything behind it, which is the requested removal exactly when the match is last. */
  lemma RefusedDeleteCuts<T>(b: Build<T>, table: seq<Slot<T>>, m: Bytes, vs: nat, head: nat, chain: seq<nat>,
                             key: Bytes, k: T)
    requires |table| == HASH_TABLE_SIZE && Chain(m, vs, head, chain) && Separate(vs, head, chain)
    requires Find(Pairs(m, vs, chain), key, 0) < |chain|
    requires !Granted(b, table, k, chain[Find(Pairs(m, vs, chain), key, 0)] + KEY_SIZE + vs, 8, READ)
    ensures var i := Find(Pairs(m, vs, chain), key, 0);
            var (m', found) := ProtectedDelete(b, table, m, vs, head, chain, key, k);
            && found
            && Chain(m', vs, head, chain[..i])
            && Pairs(m', vs, chain[..i]) == Pairs(m, vs, chain)[..i]
            && (m' == DeletePair(m, vs, head, chain, key).0 <==> i == |chain| - 1)
  {
    hide Read, Write, Granted, Find;
    var i := Find(Pairs(m, vs, chain), key, 0);
    Relink(m, vs, head, chain, i, |chain|);
    assert Splice(chain, i, |chain|) == chain[..i];
    assert Splice(Pairs(m, vs, chain), i, |chain|) == Pairs(m, vs, chain)[..i];
    assert NextAt(m, vs, chain[i]) == Link(chain, i + 1);
    LinkIsWord(m, vs, head, chain, i);
    LinkIsWord(m, vs, head, chain, i + 1);
    if i < |chain| - 1 {
      var o := LinkOffset(vs, head, chain, i);
      assert WordAt(PutWord(m, o, 0), o) != WordAt(PutWord(m, o, chain[i + 1]), o);
    }
  }

  // ----- With authorised tokens the guards disappear -----

  lemma PublishWhenGranted<T>(b: Build<T>, t: seq<Slot<T>>, m: Bytes, vs: nat, entry: nat, pair: Pair, kIndex: T,
                              kEntry: T)
    requires |t| == HASH_TABLE_SIZE
    requires WellFormedPair(pair, vs) && Fits(m, vs, entry) && Bucket(pair.key) + 8 <= |m|
    requires Granted(b, t, kEntry, entry, KEY_SIZE, WRITE) && Granted(b, t, kEntry, entry + KEY_SIZE, vs, WRITE)
    requires Granted(b, t, kEntry, entry + KEY_SIZE + vs, 8, WRITE) && Granted(b, t, kIndex, Bucket(pair.key), 8, WRITE)
    ensures GuardedPublish(b, t, m, vs, entry, pair, kIndex, kEntry) == Publish(m, vs, entry, pair)
  {
    hide Granted, Bucket, Write, Encode, WordAt;
  }

  /** The write is granted, or the bytes are there already. */
  predicate Settled<T(==)>(b: Build<T>, t: seq<Slot<T>>, m: Bytes, offset: nat, data: Bytes, k: T)
    requires |t| == HASH_TABLE_SIZE && offset + |data| <= |m|
  {
    Granted(b, t, k, offset, |data|, WRITE) || Read(m, offset, |data|) == data
  }

  /** One guarded write: what its range holds afterwards, and that nothing else changes. */
  lemma GuardedWriteEffect<T>(b: Build<T>, t: seq<Slot<T>>, m: Bytes, offset: nat, data: Bytes, k: T)
    requires |t| == HASH_TABLE_SIZE && offset + |data| <= |m|
    ensures var r := GuardedWrite(b, t, m, offset, data, k);
            && |r| == |m|
            && Read(r, offset, |data|) == (if Granted(b, t, k, offset, |data|, WRITE) then data
                                           else Read(m, offset, |data|))
            && forall p: nat, n: nat :: p + n <= |m| && DisjointRanges(p, n, offset, |data|) ==>
                 Read(r, p, n) == Read(m, p, n)
  {
    hide Granted;
    ReadBack(m, offset, data);
    var r := GuardedWrite(b, t, m, offset, data, k);
    forall p: nat, n: nat | p + n <= |m| && DisjointRanges(p, n, offset, |data|)
      ensures Read(r, p, n) == Read(m, p, n)
    {
      ReadSame(m, r, p, n);
    }
  }

  /** What insert's four guarded writes leave in the four places. */
  lemma GuardedPublishParts<T>(b: Build<T>, t: seq<Slot<T>>, m: Bytes, vs: nat, entry: nat, pair: Pair, kIndex: T,
                               kEntry: T)
    requires |t| == HASH_TABLE_SIZE
    requires WellFormedPair(pair, vs) && Fits(m, vs, entry) && Bucket(pair.key) + 8 <= |m|
    requires DisjointRanges(Bucket(pair.key), 8, entry, EntrySize(vs))
    ensures var r := GuardedPublish(b, t, m, vs, entry, pair, kIndex, kEntry);
            && KeyAt(r, vs, entry) == (if Granted(b, t, kEntry, entry, KEY_SIZE, WRITE) then pair.key
                                       else KeyAt(m, vs, entry))
            && ValueAt(r, vs, entry) == (if Granted(b, t, kEntry, entry + KEY_SIZE, vs, WRITE) then pair.value
                                         else ValueAt(m, vs, entry))
            && Read(r, entry + KEY_SIZE + vs, 8)
               == (if Granted(b, t, kEntry, entry + KEY_SIZE + vs, 8, WRITE) then Encode(0, 8)
                                                     else Read(m, entry + KEY_SIZE + vs, 8))
            && Read(r, Bucket(pair.key), 8)
               == (if Granted(b, t, kIndex, Bucket(pair.key), 8, WRITE) then Encode(entry, 8)
                                                else Read(m, Bucket(pair.key), 8))
  {
    hide Granted, Bucket, Write, Encode, Read, GuardedWrite;
    var m1 := GuardedWrite(b, t, m, entry, pair.key, kEntry);
    var m2 := GuardedWrite(b, t, m1, entry + KEY_SIZE, pair.value, kEntry);
    var m3 := GuardedWrite(b, t, m2, entry + KEY_SIZE + vs, Encode(0, 8), kEntry);
    GuardedWriteEffect(b, t, m, entry, pair.key, kEntry);
    GuardedWriteEffect(b, t, m1, entry + KEY_SIZE, pair.value, kEntry);
    GuardedWriteEffect(b, t, m2, entry + KEY_SIZE + vs, Encode(0, 8), kEntry);
    GuardedWriteEffect(b, t, m3, Bucket(pair.key), Encode(entry, 8), kIndex);
  }

  /** insert leaves the bytes that the unprotected store leaves exactly when each of its four writes
      is granted or finds its bytes already there. */
  lemma PublishesIffSettled<T>(b: Build<T>, t: seq<Slot<T>>, m: Bytes, vs: nat, entry: nat, pair: Pair, kIndex: T,
                               kEntry: T)
    requires |t| == HASH_TABLE_SIZE
    requires WellFormedPair(pair, vs) && Fits(m, vs, entry) && Bucket(pair.key) + 8 <= |m|
    requires DisjointRanges(Bucket(pair.key), 8, entry, EntrySize(vs))
    ensures GuardedPublish(b, t, m, vs, entry, pair, kIndex, kEntry) == Publish(m, vs, entry, pair)
       <==> && Settled(b, t, m, entry, pair.key, kEntry) && Settled(b, t, m, entry + KEY_SIZE, pair.value, kEntry)
            && Settled(b, t, m, entry + KEY_SIZE + vs, Encode(0, 8), kEntry)
            && Settled(b, t, m, Bucket(pair.key), Encode(entry, 8), kIndex)
  {
    hide Granted, Bucket, Encode, Read, GuardedWrite, Write, GuardedPublish, Publish;
    var r := GuardedPublish(b, t, m, vs, entry, pair, kIndex, kEntry);
    var r' := Publish(m, vs, entry, pair);
    GuardedPublishParts(b, t, m, vs, entry, pair, kIndex, kEntry);
    OpenPublish(b, t, m, vs, entry, pair);
    GuardedPublishParts(b, t, m, vs, entry, pair, b.global, b.global);
    GuardedPublishFrame(b, t, m, vs, entry, pair, kIndex, kEntry);
    GuardedPublishFrame(b, t, m, vs, entry, pair, b.global, b.global);
    if KeyAt(r, vs, entry) == KeyAt(r', vs, entry) && ValueAt(r, vs, entry) == ValueAt(r', vs, entry)
       && Read(r, entry + KEY_SIZE + vs, 8) == Read(r', entry + KEY_SIZE + vs, 8)
       && Read(r, Bucket(pair.key), 8) == Read(r', Bucket(pair.key), 8) {
      SameParts(m, r, r', vs, entry, Bucket(pair.key));
    }
  }

  /** Under the reserved token the guards do nothing. */
  lemma OpenPublish<T>(b: Build<T>, t: seq<Slot<T>>, m: Bytes, vs: nat, entry: nat, pair: Pair)
    requires |t| == HASH_TABLE_SIZE
    requires WellFormedPair(pair, vs) && Fits(m, vs, entry) && Bucket(pair.key) + 8 <= |m|
    ensures GuardedPublish(b, t, m, vs, entry, pair, b.global, b.global) == Publish(m, vs, entry, pair)
    ensures forall offset, size :: Granted(b, t, b.global, offset, size, WRITE)
  {
    hide Bucket;
    PublishWhenGranted(b, t, m, vs, entry, pair, b.global, b.global);
  }

  lemma GuardedPublishFrame<T>(b: Build<T>, t: seq<Slot<T>>, m: Bytes, vs: nat, entry: nat, pair: Pair, kIndex: T,
                               kEntry: T)
    requires |t| == HASH_TABLE_SIZE
    requires WellFormedPair(pair, vs) && Fits(m, vs, entry) && Bucket(pair.key) + 8 <= |m|
    ensures var r := GuardedPublish(b, t, m, vs, entry, pair, kIndex, kEntry);
            forall a | 0 <= a < |m| && !(entry <= a < entry + EntrySize(vs))
                       && !(Bucket(pair.key) <= a < Bucket(pair.key) + 8) :: r[a] == m[a]
  {
    hide Granted, Bucket, Encode;
  }

  lemma SameParts(m: Bytes, r: Bytes, r': Bytes, vs: nat, entry: nat, head: nat)
    requires |r| == |m| == |r'| && Fits(m, vs, entry) && head + 8 <= |m|
    requires forall a :: 0 <= a < |m| && !(entry <= a < entry + EntrySize(vs)) && !(head <= a < head + 8) ==>
               r[a] == m[a] && r'[a] == m[a]
    requires KeyAt(r, vs, entry) == KeyAt(r', vs, entry) && ValueAt(r, vs, entry) == ValueAt(r', vs, entry)
    requires Read(r, entry + KEY_SIZE + vs, 8) == Read(r', entry + KEY_SIZE + vs, 8)
             && Read(r, head, 8) == Read(r', head, 8)
    ensures r == r'
  {
    forall a | 0 <= a < |m|
      ensures r[a] == r'[a]
    {
      if entry <= a < entry + KEY_SIZE {
        assert r[a] == KeyAt(r, vs, entry)[a - entry];
      } else if entry + KEY_SIZE <= a < entry + KEY_SIZE + vs {
        assert r[a] == ValueAt(r, vs, entry)[a - entry - KEY_SIZE];
      } else if entry + KEY_SIZE + vs <= a < entry + EntrySize(vs) {
        assert r[a] == Read(r, entry + KEY_SIZE + vs, 8)[a - entry - KEY_SIZE - vs];
      } else if head <= a < head + 8 {
        assert r[a] == Read(r, head, 8)[a - head];
      }
    }
  }

  /** With the index token granted and the entry token refused, the head leads to whatever bytes lay
      there before. */
  lemma RefusedEntryIsPublished<T>(b: Build<T>, t: seq<Slot<T>>, m: Bytes, vs: nat, entry: nat, pair: Pair, kIndex: T,
                                   kEntry: T)
    requires |t| == HASH_TABLE_SIZE
    requires WellFormedPair(pair, vs) && Fits(m, vs, entry) && Bucket(pair.key) + 8 <= |m| && entry < U64
    requires DisjointRanges(Bucket(pair.key), 8, entry, EntrySize(vs))
    requires !Granted(b, t, kEntry, entry, KEY_SIZE, WRITE) && !Granted(b, t, kEntry, entry + KEY_SIZE, vs, WRITE)
    requires !Granted(b, t, kEntry, entry + KEY_SIZE + vs, 8, WRITE)
             && Granted(b, t, kIndex, Bucket(pair.key), 8, WRITE)
    ensures var r := GuardedPublish(b, t, m, vs, entry, pair, kIndex, kEntry);
            && WordAt(r, Bucket(pair.key)) == entry
            && PairAt(r, vs, entry) == PairAt(m, vs, entry) && NextAt(r, vs, entry) == NextAt(m, vs, entry)
  {
    hide Granted, Bucket, Encode, Read, GuardedPublish, Decode;
    GuardedPublishParts(b, t, m, vs, entry, pair, kIndex, kEntry);
    WordPower();
    DecodeEncode(entry, 8);
  }

  // ----- insert, judged before the call -----

  /** What a caller can check before acquiring k for region: afterwards k opens the range, because it is
      reserved, or newly accepted for that region, or already held for a region that permits the range. */
  ghost predicate WillOpen<T>(b: Build<T>, table: seq<Slot<T>>, k: T, region: Region, p: nat, n: nat)
    requires |table| == HASH_TABLE_SIZE
  {
    || k == b.global
    || Insert(b, table, k, region).1 == 0
    || (Lookup(b, table, k).Some? && Permits(Lookup(b, table, k).value, p, n, WRITE))
  }

  /** An acquired token that was not accepted finds what it found before. */
  lemma RefusedFindsAsBefore<T>(b: Build<T>, table: seq<Slot<T>>, k: T, region: Region, k': T)
    requires |table| == HASH_TABLE_SIZE && Insert(b, table, k, region).1 != 0
    ensures Lookup(b, Insert(b, table, k, region).0, k') == Lookup(b, table, k')
  {
  }

  lemma AcquiredOpens<T>(b: Build<T>, table: seq<Slot<T>>, k: T, region: Region, p: nat, n: nat)
    requires |table| == HASH_TABLE_SIZE && Permits(region, p, n, WRITE)
    ensures Granted(b, Insert(b, table, k, region).0, k, p, n, WRITE) <==> WillOpen(b, table, k, region, p, n)
  {
    hide Lookup, Permits, Insert;
    if Insert(b, table, k, region).1 == 0 {
      InsertThenLookup(b, table, k, region);
    } else {
      RefusedFindsAsBefore(b, table, k, region, k);
    }
  }

  /** Acquiring one more token changes nothing about a token acquired just before. */
  lemma StaysAcquired<T>(b: Build<T>, table: seq<Slot<T>>, k: T, region: Region, k': T, region': Region, p: nat, n: nat)
    requires |table| == HASH_TABLE_SIZE
    ensures var t1 := Insert(b, table, k, region).0;
            Granted(b, Insert(b, t1, k', region').0, k, p, n, WRITE) <==> Granted(b, t1, k, p, n, WRITE)
  {
    hide Permits;
    var t1 := Insert(b, table, k, region).0;
    if Lookup(b, t1, k).Some? {
      InsertKeepsLookup(b, t1, k, k', region');
    } else {
      NotFoundIsFull(b, table, k, region);
      FullRefuses(b, t1, k', region');
    }
  }

  /** A token just acquired is found unless the table is full. */
  lemma NotFoundIsFull<T>(b: Build<T>, table: seq<Slot<T>>, k: T, region: Region)
    requires |table| == HASH_TABLE_SIZE && Lookup(b, Insert(b, table, k, region).0, k).None?
    ensures var t1 := Insert(b, table, k, region).0;
            forall i :: 0 <= i < |t1| ==> t1[i].valid
  {
    var r := Insert(b, table, k, region);
    if r.1 == 0 {
      InsertThenLookup(b, table, k, region);
    } else {
      FullCircle(table, b.hash(k), k);
    }
  }

  lemma FullRefuses<T>(b: Build<T>, table: seq<Slot<T>>, k: T, region: Region)
    requires |table| == HASH_TABLE_SIZE && forall i :: 0 <= i < |table| ==> table[i].valid
    ensures Insert(b, table, k, region).0 == table
  {
  }

  /** The token about to be acquired will write these bytes, or they are there already. */
  ghost predicate WritesOrFinds<T>(b: Build<T>, table: seq<Slot<T>>, m: Bytes, region: Region, offset: nat,
                                   data: Bytes, k: T)
    requires |table| == HASH_TABLE_SIZE && offset + |data| <= |m|
  {
    WillOpen(b, table, k, region, offset, |data|) || Read(m, offset, |data|) == data
  }

  /** Before the call: insert will leave the unprotected store's bytes exactly when its index token opens
      the head word and its entry token, on the table that the index token leaves, opens the three parts
      of the entry, except for parts whose bytes are there already. */
  lemma InsertPublishesIff<T>(b: Build<T>, source: nat -> T, table: seq<Slot<T>>, drawn: nat, m: Bytes, vs: nat,
                              entry: nat, pair: Pair, host: nat)
    requires |table| == HASH_TABLE_SIZE && WellFormedPair(pair, vs) && Bucket(pair.key) + 8 <= |m| < U64
    requires entry + EntrySize(vs) <= PartitionEnd(host) <= |m|
    requires DisjointRanges(Bucket(pair.key), 8, entry, EntrySize(vs))
    ensures var kIndex, kEntry := source(drawn), source(drawn + 1);
            var head, whole := Region(Bucket(pair.key), 8, READ_WRITE), Region(entry, EntrySize(vs), READ_WRITE);
            var t1 := Insert(b, table, kIndex, head).0;
            var t2 := Acquires(b, source, table, drawn, InsertRegions(Bucket(pair.key), entry, vs, host));
            GuardedPublish(b, t2, m, vs, entry, pair, kIndex, kEntry) == Publish(m, vs, entry, pair)
            <==> && WritesOrFinds(b, table, m, head, Bucket(pair.key), Encode(entry, 8), kIndex)
                 && WritesOrFinds(b, t1, m, whole, entry, pair.key, kEntry)
                 && WritesOrFinds(b, t1, m, whole, entry + KEY_SIZE, pair.value, kEntry)
                 && WritesOrFinds(b, t1, m, whole, entry + KEY_SIZE + vs, Encode(0, 8), kEntry)
  {
    hide Insert, Granted, Bucket, GuardedPublish, Publish, Encode, Read, WillOpen, Permits, Acquires;
    var kIndex, kEntry := source(drawn), source(drawn + 1);
    var head, whole := Region(Bucket(pair.key), 8, READ_WRITE), Region(entry, EntrySize(vs), READ_WRITE);
    var t1 := Insert(b, table, kIndex, head).0;
    InsertAcquires(b, source, table, drawn, head, whole);
    PublishesIffSettled(b, Insert(b, t1, kEntry, whole).0, m, vs, entry, pair, kIndex, kEntry);
    InsidePermits(head, head.offset, 8, WRITE);
    AcquiredOpens(b, table, kIndex, head, head.offset, 8);
    StaysAcquired(b, table, kIndex, head, kEntry, whole, head.offset, 8);
    InsidePermits(whole, entry, KEY_SIZE, WRITE);
    InsidePermits(whole, entry + KEY_SIZE, vs, WRITE);
    InsidePermits(whole, entry + KEY_SIZE + vs, 8, WRITE);
    AcquiredOpens(b, t1, kEntry, whole, entry, KEY_SIZE);
    AcquiredOpens(b, t1, kEntry, whole, entry + KEY_SIZE, vs);
    AcquiredOpens(b, t1, kEntry, whole, entry + KEY_SIZE + vs, 8);
  }

  lemma InsertAcquires<T>(b: Build<T>, source: nat -> T, table: seq<Slot<T>>, drawn: nat, first: Region, second: Region)
    requires |table| == HASH_TABLE_SIZE
    ensures Acquires(b, source, table, drawn, [first, second])
         == Insert(b, Insert(b, table, source(drawn), first).0, source(drawn + 1), second).0
  {
    hide Insert;
    AcquiresNone(b, source, table, drawn);
    AcquiresMore(b, source, table, drawn, [], first);
    AcquiresMore(b, source, table, drawn, [first], second);
    assert [] + [first] == [first] && [first] + [second] == [first, second];
  }

  /** An input: the index token is accepted, and the entry token repeats one that is already held, for a
      region that ends before the new entry. insert then reports success and returns that token, and the
      head leads to whatever lay at the new entry before. */
  lemma RepeatedTokenPublishesOldBytes<T>(b: Build<T>, source: nat -> T, table: seq<Slot<T>>, drawn: nat, m: Bytes,
                                          vs: nat, entry: nat, pair: Pair, host: nat)
    requires |table| == HASH_TABLE_SIZE && WellFormedPair(pair, vs) && Bucket(pair.key) + 8 <= |m| < U64
    requires entry + EntrySize(vs) <= PartitionEnd(host) <= |m|
    requires DisjointRanges(Bucket(pair.key), 8, entry, EntrySize(vs))
    requires Insert(b, table, source(drawn), Region(Bucket(pair.key), 8, READ_WRITE)).1 == 0
    requires source(drawn + 1) != b.global && Lookup(b, table, source(drawn + 1)).Some?
    requires var held := Lookup(b, table, source(drawn + 1)).value;
             vs > 0 && held.offset + held.size <= entry
    ensures var t2 := Acquires(b, source, table, drawn, InsertRegions(Bucket(pair.key), entry, vs, host));
            var r := GuardedPublish(b, t2, m, vs, entry, pair, source(drawn), source(drawn + 1));
            && WordAt(r, Bucket(pair.key)) == entry
            && PairAt(r, vs, entry) == PairAt(m, vs, entry) && NextAt(r, vs, entry) == NextAt(m, vs, entry)
  {
    hide Insert, Granted, Bucket, GuardedPublish, WillOpen, Permits, Acquires, Lookup;
    var kIndex, kEntry := source(drawn), source(drawn + 1);
    var head, whole := Region(Bucket(pair.key), 8, READ_WRITE), Region(entry, EntrySize(vs), READ_WRITE);
    var t1 := Insert(b, table, kIndex, head).0;
    InsertAcquires(b, source, table, drawn, head, whole);
    InsidePermits(head, head.offset, 8, WRITE);
    AcquiredOpens(b, table, kIndex, head, head.offset, 8);
    assert WillOpen(b, table, kIndex, head, head.offset, 8) by {
      NewlyAccepted(b, table, kIndex, head, head.offset, 8);
    }
    StaysAcquired(b, table, kIndex, head, kEntry, whole, head.offset, 8);
    InsertKeepsLookup(b, table, kEntry, kIndex, head);
    HeldIsNotOpened(b, t1, kEntry, whole, entry, KEY_SIZE);
    HeldIsNotOpened(b, t1, kEntry, whole, entry + KEY_SIZE, vs);
    HeldIsNotOpened(b, t1, kEntry, whole, entry + KEY_SIZE + vs, 8);
    RefusedEntryIsPublished(b, Insert(b, t1, kEntry, whole).0, m, vs, entry, pair, kIndex, kEntry);
  }

  lemma NewlyAccepted<T>(b: Build<T>, table: seq<Slot<T>>, k: T, region: Region, p: nat, n: nat)
    requires |table| == HASH_TABLE_SIZE && Insert(b, table, k, region).1 == 0
    ensures WillOpen(b, table, k, region, p, n)
  {
  }

  /** A token held for a region that ends before the range does not open it by being acquired again. */
  lemma HeldIsNotOpened<T>(b: Build<T>, table: seq<Slot<T>>, k: T, region: Region, p: nat, n: nat)
    requires |table| == HASH_TABLE_SIZE && k != b.global && Lookup(b, table, k).Some? && Permits(region, p, n, WRITE)
    requires var held := Lookup(b, table, k).value; held.offset + held.size <= p && 0 < n && p + n < U64
    ensures !Granted(b, Insert(b, table, k, region).0, k, p, n, WRITE)
  {
    PresentIsRefused(b, table, k, region);
    RefusedFindsAsBefore(b, table, k, region, k);
  }

  lemma PublishWhenAccepted<T>(b: Build<T>, source: nat -> T, table: seq<Slot<T>>, drawn: nat, m: Bytes, vs: nat,
                               entry: nat, pair: Pair, regions: seq<Region>, i: nat, j: nat)
    requires |table| == HASH_TABLE_SIZE && Accepted(b, source, table, drawn, regions)
    requires WellFormedPair(pair, vs) && Fits(m, vs, entry) && Bucket(pair.key) + 8 <= |m| < U64
    requires i < |regions| && regions[i] == Region(Bucket(pair.key), 8, READ_WRITE)
    requires j < |regions| && regions[j] == Region(entry, EntrySize(vs), READ_WRITE)
    ensures GuardedPublish(b, Acquires(b, source, table, drawn, regions), m, vs, entry, pair, source(drawn + i),
                           source(drawn + j))
         == Publish(m, vs, entry, pair)
  {
    hide Granted, Acquires, Accepted, Bucket, GuardedPublish, Publish;
    AcceptedMayAccess(b, source, table, drawn, regions, i, Bucket(pair.key), 8, WRITE);
    AcceptedMayAccess(b, source, table, drawn, regions, j, entry, KEY_SIZE, WRITE);
    AcceptedMayAccess(b, source, table, drawn, regions, j, entry + KEY_SIZE, vs, WRITE);
    AcceptedMayAccess(b, source, table, drawn, regions, j, entry + KEY_SIZE + vs, 8, WRITE);
    PublishWhenGranted(b, Acquires(b, source, table, drawn, regions), m, vs, entry, pair, source(drawn + i),
                       source(drawn + j));
  }

  /** With accepted tokens put ends, within one round per entry, and acts as in the unprotected store. */
  lemma AcceptedPutIsPut<T>(b: Build<T>, source: nat -> T, table: seq<Slot<T>>, drawn: nat, data: Store, host: nat,
                            chain: seq<nat>, pair: Pair, rounds: nat)
    requires |table| == HASH_TABLE_SIZE && Mapped(|data.mem|, host) && WellFormedPair(pair, PUT_VALUE_SIZE)
    requires Chain(data.mem, PUT_VALUE_SIZE, Bucket(pair.key), chain) && rounds >= |chain|
    requires Accepted(b, source, table, drawn, PutRegions(data.mem, Bucket(pair.key), chain, pair.key, data.next, host))
    ensures var w := PutWalkFromHead(b, source, table, drawn, data.mem, pair.key, rounds);
            && !w.Unfinished?
            && var regions := PutRegions(data.mem, Bucket(pair.key), chain, pair.key, data.next, host);
               var r := ProtectedPut(b, source, w, source(drawn), data, host, pair);
               && (r.data, r.ok) == PutPair(data, host, chain, pair)
               && r.table == Acquires(b, source, table, drawn, regions) && r.drawn == drawn + |regions|
  {
    hide Insert, Granted, Accepted, Acquires, Find, Pairs, Bucket, Chain, Read, WordAt, GuardedPublish, Publish,
         GuardedWrite, PutWalk;
    var head, es := Bucket(pair.key), EntrySize(PUT_VALUE_SIZE);
    WalkStart(data.mem, PUT_VALUE_SIZE, head, chain);
    PutStartsWalk(b, source, table, drawn, data.mem, chain, pair.key, data.next, host);
    var t := Acquires(b, source, table, drawn, WalkRegions(head, es, chain, 0, READ_WRITE));
    AcceptedWalk(b, source, table, drawn, data.mem, head, chain, pair.key, data.next, host, 0, t, rounds);
    var ps := Pairs(data.mem, PUT_VALUE_SIZE, chain);
    var n := Visited(ps, pair.key);
    var walk := WalkRegions(head, es, chain, n, READ_WRITE);
    if Find(ps, pair.key, 0) < |chain| {
      PutWalkAccepted(b, source, table, drawn, data.mem, head, chain, pair.key, data.next, host, n);
      PutMayWalk(b, source, table, drawn, data.mem, head, chain, n);
      OpenWrite(b, Acquires(b, source, table, drawn, walk), data.mem, chain[n - 1] + KEY_SIZE, pair.value,
                source(drawn + n));
    } else if data.next + es <= PartitionEnd(host) {
      AcquiresMore(b, source, table, drawn, walk, Region(data.next, es, READ_WRITE));
      PublishWhenAccepted(b, source, table, drawn, data.mem, PUT_VALUE_SIZE, data.next, pair,
                          walk + [Region(data.next, es, READ_WRITE)], 0, n + 1);
    }
  }

  lemma OpenWrite<T>(b: Build<T>, t: seq<Slot<T>>, m: Bytes, offset: nat, data: Bytes, k: T)
    requires |t| == HASH_TABLE_SIZE && offset + |data| <= |m| && Granted(b, t, k, offset, |data|, WRITE)
    ensures GuardedWrite(b, t, m, offset, data, k) == Write(m, offset, data)
  {
    hide Granted;
  }

  lemma PutStartsWalk<T>(b: Build<T>, source: nat -> T, table: seq<Slot<T>>, drawn: nat, m: Bytes, chain: seq<nat>,
                         key: Bytes, next: nat, host: nat)
    requires |table| == HASH_TABLE_SIZE && |key| == KEY_SIZE && Chain(m, PUT_VALUE_SIZE, Bucket(key), chain)
             && |m| < U64
    requires Accepted(b, source, table, drawn, PutRegions(m, Bucket(key), chain, key, next, host))
    ensures var t := Insert(b, table, source(drawn), Region(Bucket(key), 8, READ_WRITE)).0;
            && t == Acquires(b, source, table, drawn,
                             WalkRegions(Bucket(key), EntrySize(PUT_VALUE_SIZE), chain, 0, READ_WRITE))
            && Granted(b, t, source(drawn), Bucket(key), 8, READ)
  {
    hide Insert, Granted, Accepted, Acquires, Find, Pairs, Bucket, Chain, PutRegions;
    var head := Bucket(key);
    WalkStart(m, PUT_VALUE_SIZE, head, chain);
    PutWalkAccepted(b, source, table, drawn, m, head, chain, key, next, host, 0);
    PutMayWalk(b, source, table, drawn, m, head, chain, 0);
    AcquiresNone(b, source, table, drawn);
    AcquiresMore(b, source, table, drawn, [], Region(head, 8, READ_WRITE));
    assert [] + [Region(head, 8, READ_WRITE)] == WalkRegions(head, EntrySize(PUT_VALUE_SIZE), chain, 0, READ_WRITE);
  }

  /** Whatever the token, get, update and del report whether the key is there. They deliver and change
      the same bytes as in the unprotected store exactly when the token opens the one range each uses,
      or nothing would have moved anyway. */
  lemma GetTransparentIff<T>(b: Build<T>, table: seq<Slot<T>>, m: Bytes, vs: nat, chain: seq<nat>, key: Bytes,
                             buffer: Bytes, k: T)
    requires |table| == HASH_TABLE_SIZE && AllFit(m, vs, chain)
    ensures ProtectedGet(b, table, m, vs, chain, key, buffer, k).0 == GetPair(m, vs, chain, key, buffer).0
    ensures var i := Find(Pairs(m, vs, chain), key, 0);
            ProtectedGet(b, table, m, vs, chain, key, buffer, k) == GetPair(m, vs, chain, key, buffer)
            <==> i < |chain| ==>
                   Granted(b, table, k, chain[i] + KEY_SIZE, vs, READ) || buffer == ValueAt(m, vs, chain[i])
  {
    hide Granted, Find, Pairs;
  }

  lemma UpdateTransparentIff<T>(b: Build<T>, table: seq<Slot<T>>, m: Bytes, vs: nat, chain: seq<nat>, pair: Pair, k: T)
    requires |table| == HASH_TABLE_SIZE && AllFit(m, vs, chain) && WellFormedPair(pair, vs)
    ensures ProtectedUpdate(b, table, m, vs, chain, pair, k).1 == UpdatePair(m, vs, chain, pair).1
    ensures var i := Find(Pairs(m, vs, chain), pair.key, 0);
            ProtectedUpdate(b, table, m, vs, chain, pair, k) == UpdatePair(m, vs, chain, pair)
            <==> i < |chain| ==>
                   Granted(b, table, k, chain[i] + KEY_SIZE, vs, WRITE) || ValueAt(m, vs, chain[i]) == pair.value
    ensures var i := Find(Pairs(m, vs, chain), pair.key, 0);
            ProtectedUpdate(b, table, m, vs, chain, pair, k).0 != m
            <==> && i < |chain| && Granted(b, table, k, chain[i] + KEY_SIZE, vs, WRITE)
                 && ValueAt(m, vs, chain[i]) != pair.value
  {
    hide Granted, Find, Pairs;
    var i := Find(Pairs(m, vs, chain), pair.key, 0);
    if i < |chain| {
      WriteChanges(m, chain[i] + KEY_SIZE, pair.value);
    }
  }

  /** Writing changes memory exactly when other bytes were there. */
  lemma WriteChanges(m: Bytes, offset: nat, data: Bytes)
    requires offset + |data| <= |m|
    ensures Write(m, offset, data) == m <==> Read(m, offset, |data|) == data
  {
    ReadBack(m, offset, data);
  }

  lemma DeleteTransparentIff<T>(b: Build<T>, table: seq<Slot<T>>, m: Bytes, vs: nat, head: nat, chain: seq<nat>,
                                key: Bytes, k: T)
    requires |table| == HASH_TABLE_SIZE && Chain(m, vs, head, chain)
    ensures ProtectedDelete(b, table, m, vs, head, chain, key, k).1 == DeletePair(m, vs, head, chain, key).1
    ensures var i := Find(Pairs(m, vs, chain), key, 0);
            ProtectedDelete(b, table, m, vs, head, chain, key, k) == DeletePair(m, vs, head, chain, key)
            <==> i < |chain| ==> Granted(b, table, k, chain[i] + KEY_SIZE + vs, 8, READ) || NextAt(m, vs, chain[i]) == 0
  {
    hide Granted, Find, Pairs, Read, Write, WordAt, PutWord;
    var i := Find(Pairs(m, vs, chain), key, 0);
    if i < |chain| {
      LinkIsWord(m, vs, head, chain, i);
      var o := LinkOffset(vs, head, chain, i);
      var next := NextAt(m, vs, chain[i]);
      if next != 0 {
        assert WordAt(PutWord(m, o, 0), o) != WordAt(PutWord(m, o, next), o);
      }
    }
  }

  /** Acquisitions keep every access that was granted. */
  lemma AcquiresKeepGranted<T>(b: Build<T>, source: nat -> T, table: seq<Slot<T>>, drawn: nat, regions: seq<Region>,
                               k: T, offset: nat, size: nat, bit: nat)
    requires |table| == HASH_TABLE_SIZE && (bit == READ || bit == WRITE) && Granted(b, table, k, offset, size, bit)
    ensures Granted(b, Acquires(b, source, table, drawn, regions), k, offset, size, bit)
  {
    hide Lookup, Permits, Acquires;
    if k != b.global {
      AcquiresKeepLookup(b, source, table, drawn, regions, k);
    }
  }

  // ----- Acquisitions one after the other -----

  lemma {:induction false} AcquiresConcat<T>(b: Build<T>, source: nat -> T, table: seq<Slot<T>>, drawn: nat,
                                             first: seq<Region>, second: seq<Region>)
    requires |table| == HASH_TABLE_SIZE
    ensures Acquires(b, source, table, drawn, first + second)
         == Acquires(b, source, Acquires(b, source, table, drawn, first), drawn + |first|, second)
    decreases |second|
  {
    hide Insert;
    if second == [] {
      assert first + second == first;
    } else {
      var n := |second| - 1;
      AcquiresConcat(b, source, table, drawn, first, second[..n]);
      assert (first + second)[..|first + second| - 1] == first + second[..n];
    }
  }

  lemma {:induction false} AcceptedConcat<T>(b: Build<T>, source: nat -> T, table: seq<Slot<T>>, drawn: nat,
                                             first: seq<Region>, second: seq<Region>)
    requires |table| == HASH_TABLE_SIZE && Accepted(b, source, table, drawn, first + second)
    ensures Accepted(b, source, Acquires(b, source, table, drawn, first), drawn + |first|, second)
    decreases |second|
  {
    hide Insert, Acquires;
    if second != [] {
      var n := |second| - 1;
      assert (first + second)[..|first + second| - 1] == first + second[..n];
      AcceptedConcat(b, source, table, drawn, first, second[..n]);
      AcquiresConcat(b, source, table, drawn, first, second[..n]);
    }
  }

  // ----- Freshness -----

  /** The i-th token still to be drawn. */
  function Upcoming<T>(source: nat -> T, drawn: nat, i: nat): T {
    source(drawn + i)
  }

  /** From any state and for any hash: a token in no valid slot is accepted while a slot is free. */
  lemma FreshIsAccepted<T>(b: Build<T>, table: seq<Slot<T>>, k: T, region: Region)
    requires |table| == HASH_TABLE_SIZE && Absent(table, k) && |ValidSlots(table)| < HASH_TABLE_SIZE
    ensures Insert(b, table, k, region).1 == 0
    ensures |ValidSlots(Insert(b, table, k, region).0)| == |ValidSlots(table)| + 1
    ensures forall k' :: k' != k && Absent(table, k') ==> Absent(Insert(b, table, k, region).0, k')
  {
    FullCount(table);
    var home := b.hash(k);
    var d := Probe(table, home, k);
    if d == HASH_TABLE_SIZE {
      FullCircle(table, home, k);
      assert false;
    }
    var p := At(home, d);
    assert ValidSlots(table[p := Slot(true, k, region)]) == ValidSlots(table) + {p};
  }

  /** Distinct tokens that no valid slot holds are all accepted, as long as there is room for them. */
  lemma {:induction false} FreshTokensAreAccepted<T(!new)>(b: Build<T>, source: nat -> T, table: seq<Slot<T>>,
                                                           drawn: nat, regions: seq<Region>)
    requires |table| == HASH_TABLE_SIZE && |ValidSlots(table)| + |regions| <= HASH_TABLE_SIZE
    requires forall i :: 0 <= i < |regions| ==> Absent(table, Upcoming(source, drawn, i))
    requires forall i, j :: 0 <= i < j < |regions| ==> Upcoming(source, drawn, i) != Upcoming(source, drawn, j)
    ensures Accepted(b, source, table, drawn, regions)
    ensures |ValidSlots(Acquires(b, source, table, drawn, regions))| == |ValidSlots(table)| + |regions|
    ensures forall k :: Absent(table, k) && (forall i :: 0 <= i < |regions| ==> Upcoming(source, drawn, i) != k) ==>
              Absent(Acquires(b, source, table, drawn, regions), k)
    decreases |regions|
  {
    hide Insert, ValidSlots, Absent;
    if regions != [] {
      var n := |regions| - 1;
      FreshTokensAreAccepted(b, source, table, drawn, regions[..n]);
      assert Absent(table, Upcoming(source, drawn, n));
      FreshIsAccepted(b, Acquires(b, source, table, drawn, regions[..n]), Upcoming(source, drawn, n), regions[n]);
    }
  }
}
