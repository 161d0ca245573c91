/** put when the table refuses tokens it draws.

    A refused token is returned all the same; it opens whatever it was held for before, usually nothing
    of the entry it was drawn for. put then draws again for the same entry. This module says how long it
    stays, when it passes over an entry without having compared it, and that short of that it finds
    what an unguarded walk finds. */
module RefusedPut {
  import opened Memory
  import opened Layout
  import opened Chains
  import opened UnprotectedStore
  import opened TableSpec
  import opened ProtectedStore
  import opened GshmObject

  // ----- How long put stays at an entry -----

  /** The table after n tokens have been drawn for one entry. */
  ghost function Drawn<T>(b: Build<T>, source: nat -> T, table: seq<Slot<T>>, drawn: nat, entry: nat, n: nat):
      (t: seq<Slot<T>>)
    requires |table| == HASH_TABLE_SIZE
    ensures |t| == HASH_TABLE_SIZE
  {
    if n == 0 then table
    else Insert(b, Drawn(b, source, table, drawn, entry, n - 1), source(drawn + (n - 1)), Region(entry, 328, 3)).0
  }

  /** The n-th token drawn for an entry (from 0) opens its key, its next word. */
  ghost predicate OpensKey<T>(b: Build<T>, source: nat -> T, table: seq<Slot<T>>, drawn: nat, entry: nat, n: nat)
    requires |table| == HASH_TABLE_SIZE
  {
    Granted(b, Drawn(b, source, table, drawn, entry, n + 1), source(drawn + n), entry, 64, 1)
  }

  ghost predicate OpensNext<T>(b: Build<T>, source: nat -> T, table: seq<Slot<T>>, drawn: nat, entry: nat, n: nat)
    requires |table| == HASH_TABLE_SIZE
  {
    Granted(b, Drawn(b, source, table, drawn, entry, n + 1), source(drawn + n), entry + 320, 8, 1)
  }

  /** Its round decides nothing: no match seen and no next word read. */
  ghost predicate Idles<T>(b: Build<T>, source: nat -> T, table: seq<Slot<T>>, drawn: nat, m: Bytes, key: Bytes,
                           entry: nat, n: nat)
    requires |table| == HASH_TABLE_SIZE && entry + 328 <= |m|
  {
    && !(OpensKey(b, source, table, drawn, entry, n) && m[entry..entry + 64] == key)
    && !OpensNext(b, source, table, drawn, entry, n)
  }

  /** While rounds decide nothing, put stays at the entry and only draws tokens. */
  lemma {:induction false} StaysWhileIdle<T>(b: Build<T>, source: nat -> T, table: seq<Slot<T>>, drawn: nat, m: Bytes,
                                             key: Bytes, entry: nat, n: nat, rounds: nat)
    requires |table| == HASH_TABLE_SIZE && |key| == KEY_SIZE && entry != 0 && entry + 328 <= |m|
    requires forall i: nat :: i < n ==> Idles(b, source, table, drawn, m, key, entry, i)
    ensures PutWalk(b, source, table, drawn, m, key, entry, n + rounds)
         == PutWalk(b, source, Drawn(b, source, table, drawn, entry, n), drawn + n, m, key, entry, rounds)
    decreases n
  {
    hide Insert, Granted, NextAt;
    if n > 0 {
      StaysWhileIdle(b, source, table, drawn, m, key, entry, n - 1, rounds + 1);
      assert Idles(b, source, table, drawn, m, key, entry, n - 1);
    }
  }

  /** The first round that decides something: a match found with the key opened ends the walk there, and
      otherwise it goes on at the entry's next word. However many tokens were refused before. */
  lemma StaysUntilOpened<T>(b: Build<T>, source: nat -> T, table: seq<Slot<T>>, drawn: nat, m: Bytes, key: Bytes,
                            entry: nat, n: nat, rounds: nat)
    requires |table| == HASH_TABLE_SIZE && |key| == KEY_SIZE && entry != 0 && entry + 328 <= |m|
    requires forall i: nat :: i < n ==> Idles(b, source, table, drawn, m, key, entry, i)
    requires !Idles(b, source, table, drawn, m, key, entry, n)
    ensures var t := Drawn(b, source, table, drawn, entry, n + 1);
            PutWalk(b, source, table, drawn, m, key, entry, n + (1 + rounds))
            == if OpensKey(b, source, table, drawn, entry, n) && m[entry..entry + 64] == key
               then Hit(t, drawn + (n + 1), entry, source(drawn + n))
               else PutWalk(b, source, t, drawn + (n + 1), m, key, WordAt(m, entry + 320), rounds)
  {
    hide Insert, Granted, WordAt;
    StaysWhileIdle(b, source, table, drawn, m, key, entry, n, 1 + rounds);
  }

  /** A walk that has ended left every entry it came to: some token drawn for it decided something. */
  lemma {:induction false} SomeRoundDecides<T>(b: Build<T>, source: nat -> T, table: seq<Slot<T>>, drawn: nat, m: Bytes,
                                               key: Bytes, entry: nat, rounds: nat, tried: nat) returns (n: nat)
    requires |table| == HASH_TABLE_SIZE && |key| == KEY_SIZE && entry != 0 && entry + 328 <= |m| && tried <= rounds
    requires forall i: nat :: i < tried ==> Idles(b, source, table, drawn, m, key, entry, i)
    requires !PutWalk(b, source, table, drawn, m, key, entry, rounds).Unfinished?
    ensures n < rounds && !Idles(b, source, table, drawn, m, key, entry, n)
    ensures forall i: nat :: i < n ==> Idles(b, source, table, drawn, m, key, entry, i)
    decreases rounds - tried
  {
    hide Idles, Insert, Granted, NextAt;
    if tried == rounds {
      StaysWhileIdle(b, source, table, drawn, m, key, entry, rounds, 0);
      assert false;
    }
    if Idles(b, source, table, drawn, m, key, entry, tried) {
      n := SomeRoundDecides(b, source, table, drawn, m, key, entry, rounds, tried + 1);
    } else {
      n := tried;
    }
  }

  /** What a walk from the i-th entry on can hit: an entry from there on that carries the key. */
  lemma {:induction false} HitsInChain<T>(b: Build<T>, source: nat -> T, table: seq<Slot<T>>, drawn: nat, m: Bytes,
                                          head: nat, chain: seq<nat>, key: Bytes, i: nat, rounds: nat)
    requires |table| == HASH_TABLE_SIZE && |key| == KEY_SIZE && Chain(m, 256, head, chain) && i <= |chain|
    requires PutWalk(b, source, table, drawn, m, key, Link(chain, i), rounds).Hit?
    ensures var w := PutWalk(b, source, table, drawn, m, key, Link(chain, i), rounds);
            exists j :: i <= j < |chain| && w.entry == chain[j] && KeyAt(m, 256, chain[j]) == key
    decreases rounds
  {
    hide Insert, Granted, KeyAt, Read, WordAt;
    var k := source(drawn);
    assert i < |chain|;
    var entry := chain[i];
    assert NextAt(m, 256, entry) == Link(chain, i + 1);
    var t := Insert(b, table, k, Region(entry, EntrySize(256), READ_WRITE)).0;
    if !(Granted(b, t, k, entry, KEY_SIZE, READ) && KeyAt(m, 256, entry) == key) {
      if Granted(b, t, k, entry + KEY_SIZE + 256, 8, READ) {
        HitsInChain(b, source, t, drawn + 1, m, head, chain, key, i + 1, rounds - 1);
      } else {
        HitsInChain(b, source, t, drawn + 1, m, head, chain, key, i, rounds - 1);
      }
    }
  }

  /** When put passes over an entry that carries the key: exactly when the first of the tokens drawn for
      it that opens its key or its next word opens the next word only. */
  lemma MatchIsSkippedIff<T>(b: Build<T>, source: nat -> T, table: seq<Slot<T>>, drawn: nat, m: Bytes, head: nat,
                             chain: seq<nat>, key: Bytes, i: nat, rounds: nat) returns (n: nat)
    requires |table| == HASH_TABLE_SIZE && Chain(m, 256, head, chain) && Separate(256, head, chain)
    requires i < |chain| && key == KeyAt(m, 256, chain[i])
    requires !PutWalk(b, source, table, drawn, m, key, chain[i], rounds).Unfinished?
    ensures forall j: nat :: j < n ==>
              !OpensKey(b, source, table, drawn, chain[i], j) && !OpensNext(b, source, table, drawn, chain[i], j)
    ensures OpensKey(b, source, table, drawn, chain[i], n) || OpensNext(b, source, table, drawn, chain[i], n)
    ensures var w := PutWalk(b, source, table, drawn, m, key, chain[i], rounds);
            w.Hit? && w.entry == chain[i] <==> OpensKey(b, source, table, drawn, chain[i], n)
  {
    hide PutWalk, OpensKey, OpensNext, WordAt, Granted, Insert, Drawn;
    n := SomeRoundDecides(b, source, table, drawn, m, key, chain[i], rounds, 0);
    forall j: nat | j < n
      ensures !OpensKey(b, source, table, drawn, chain[i], j) && !OpensNext(b, source, table, drawn, chain[i], j)
    {
      assert Idles(b, source, table, drawn, m, key, chain[i], j);
    }
    var left := rounds - (n + 1);
    StaysUntilOpened(b, source, table, drawn, m, key, chain[i], n, left);
    assert n + (1 + left) == rounds;
    if !OpensKey(b, source, table, drawn, chain[i], n) {
      SkippedIsLeft(b, source, Drawn(b, source, table, drawn, chain[i], n + 1), drawn + (n + 1), m, head, chain, key, i,
                    left);
    }
  }

  /** Past an entry, put never comes back to it. */
  lemma SkippedIsLeft<T>(b: Build<T>, source: nat -> T, table: seq<Slot<T>>, drawn: nat, m: Bytes, head: nat,
                         chain: seq<nat>, key: Bytes, i: nat, rounds: nat)
    requires |table| == HASH_TABLE_SIZE && Chain(m, 256, head, chain) && Separate(256, head, chain)
    requires i < |chain| && |key| == KEY_SIZE
    ensures var w := PutWalk(b, source, table, drawn, m, key, WordAt(m, chain[i] + 320), rounds);
            w.Hit? ==> w.entry != chain[i]
  {
    hide PutWalk, WordAt;
    assert NextAt(m, 256, chain[i]) == Link(chain, i + 1);
    var w := PutWalk(b, source, table, drawn, m, key, Link(chain, i + 1), rounds);
    if w.Hit? {
      HitsInChain(b, source, table, drawn, m, head, chain, key, i + 1, rounds);
      var j :| i + 1 <= j < |chain| && w.entry == chain[j] && KeyAt(m, 256, chain[j]) == key;
      assert DisjointRanges(chain[i], EntrySize(256), chain[j], EntrySize(256));
    }
  }

  /** What put may have acquired before it comes to entry f: the head word, and entries before that. */
  ghost predicate OnTheWay(regions: seq<Region>, head: nat, chain: seq<nat>, f: nat)
    requires f <= |chain|
  {
    && |regions| > 0 && regions[0] == Region(head, 8, 3)
    && forall i :: 1 <= i < |regions| ==> IsEntryBefore(regions[i], chain, f)
  }

  ghost predicate IsEntryBefore(region: Region, chain: seq<nat>, f: nat)
    requires f <= |chain|
  {
    exists j :: 0 <= j < f && region == Region(chain[j], 328, 3)
  }

  /** put comes to the first match, whatever tokens are refused before: nothing else ends its walk. */
  lemma {:induction false} ComesToFirstMatch<T>(b: Build<T>, source: nat -> T, table: seq<Slot<T>>, drawn: nat,
                                                m: Bytes, head: nat, chain: seq<nat>, key: Bytes, i: nat, rounds: nat,
                                                before: seq<Region>)
    returns (regions: seq<Region>, left: nat)
    requires |table| == HASH_TABLE_SIZE && |key| == KEY_SIZE && Chain(m, 256, head, chain)
    requires i <= Find(Pairs(m, 256, chain), key, 0) < |chain|
    requires OnTheWay(before, head, chain, Find(Pairs(m, 256, chain), key, 0))
    requires var t := Acquires(b, source, table, drawn, before);
             !PutWalk(b, source, t, drawn + |before|, m, key, chain[i], rounds).Unfinished?
    ensures var f := Find(Pairs(m, 256, chain), key, 0);
            && OnTheWay(regions, head, chain, f)
            && PutWalk(b, source, Acquires(b, source, table, drawn, before), drawn + |before|, m, key, chain[i], rounds)
               == PutWalk(b, source, Acquires(b, source, table, drawn, regions), drawn + |regions|, m, key, chain[f],
                          left)
    decreases rounds
  {
    hide Insert, Granted, Find, Pairs, Chain, Acquires, WordAt, Read;
    WalkStart(m, 256, head, chain);
    WalkStep(m, 256, head, chain, key, i);
    regions, left := before, rounds;
    var f := Find(Pairs(m, 256, chain), key, 0);
    if i < f {
      var region := Region(chain[i], 328, 3);
      var t, k := Acquires(b, source, table, drawn, before), source(drawn + |before|);
      AcquiresMore(b, source, table, drawn, before, region);
      assert IsEntryBefore(region, chain, f);
      if Granted(b, Insert(b, t, k, region).0, k, chain[i] + 320, 8, 1) {
        WalkStep(m, 256, head, chain, key, i + 1);
        regions, left := ComesToFirstMatch(b, source, table, drawn, m, head, chain, key, i + 1, rounds - 1,
                                           before + [region]);
      } else {
        regions, left := ComesToFirstMatch(b, source, table, drawn, m, head, chain, key, i, rounds - 1,
                                           before + [region]);
      }
    }
  }

  /** The exact condition for a whole put whose index token opens the head word and whose key is in the
      chain: it hits the first match exactly when, of the tokens drawn for that entry, the first that opens
      its key or its next word opens the key. Before it came there it had acquired the head word and
      entries before the match, any number of times each. */
  lemma FirstMatchIsHitIff<T>(b: Build<T>, source: nat -> T, table: seq<Slot<T>>, drawn: nat, m: Bytes,
                              chain: seq<nat>, key: Bytes, rounds: nat)
    returns (regions: seq<Region>, n: nat)
    requires |table| == HASH_TABLE_SIZE && |key| == KEY_SIZE
    requires Chain(m, 256, Bucket(key), chain) && Separate(256, Bucket(key), chain)
    requires Find(Pairs(m, 256, chain), key, 0) < |chain|
    requires Granted(b, Insert(b, table, source(drawn), Region(Bucket(key), 8, 3)).0, source(drawn), Bucket(key), 8, 1)
    requires !PutWalkFromHead(b, source, table, drawn, m, key, rounds).Unfinished?
    ensures var f := Find(Pairs(m, 256, chain), key, 0);
            var t, d := Acquires(b, source, table, drawn, regions), drawn + |regions|;
            && OnTheWay(regions, Bucket(key), chain, f)
            && (forall j: nat :: j < n ==>
                  !OpensKey(b, source, t, d, chain[f], j) && !OpensNext(b, source, t, d, chain[f], j))
            && (OpensKey(b, source, t, d, chain[f], n) || OpensNext(b, source, t, d, chain[f], n))
            && var w := PutWalkFromHead(b, source, table, drawn, m, key, rounds);
               w.Hit? && w.entry == chain[f] <==> OpensKey(b, source, t, d, chain[f], n)
  {
    hide Insert, Granted, Find, Pairs, Chain, Separate, Acquires, PutWalk, OpensKey, OpensNext, Bucket, WordAt;
    var head := Bucket(key);
    var first := Region(head, 8, 3);
    WalkStart(m, 256, head, chain);
    AcquiresNone(b, source, table, drawn);
    AcquiresMore(b, source, table, drawn, [], first);
    assert [] + [first] == [first];
    var left: nat;
    regions, left := ComesToFirstMatch(b, source, table, drawn, m, head, chain, key, 0, rounds, [first]);
    var f := Find(Pairs(m, 256, chain), key, 0);
    assert Pairs(m, 256, chain)[f].key == KeyAt(m, 256, chain[f]);
    n := MatchIsSkippedIff(b, source, Acquires(b, source, table, drawn, regions), drawn + |regions|, m, head, chain,
                           key, f, left);
  }

  // ----- When put finds what an unguarded walk finds -----

  ghost predicate StillToCome<T(!new)>(source: nat -> T, drawn: nat, k: T) {
    exists i: nat :: Upcoming(source, drawn, i) == k
  }

  /** Whoever may read the entry's next word may read its key; who may read its key may write its value. */
  predicate NextWithKey(region: Region, entry: nat) {
    Permits(region, entry + 320, 8, 1) ==> Permits(region, entry, 64, 1)
  }

  predicate KeyWithValue(region: Region, entry: nat) {
    Permits(region, entry, 64, 1) ==> Permits(region, entry + 64, 256, 2)
  }

  /** No token still to be drawn is held for a region that opens the entry's next word without its key. */
  ghost predicate NeverSkips<T(!new)>(source: nat -> T, table: seq<Slot<T>>, drawn: nat, entry: nat) {
    forall s :: 0 <= s < |table| && table[s].valid && StillToCome(source, drawn, table[s].token) ==>
      NextWithKey(table[s].region, entry)
  }

  /** Nor for one that opens its key without its value. */
  ghost predicate AlwaysStores<T(!new)>(source: nat -> T, table: seq<Slot<T>>, drawn: nat, entry: nat) {
    forall s :: 0 <= s < |table| && table[s].valid && StillToCome(source, drawn, table[s].token) ==>
      KeyWithValue(table[s].region, entry)
  }

  /** Both hold for all entries while no token still to be drawn is in a valid slot, however often the same
      token is yet to be drawn. */
  lemma UnheldTokensRespect<T(!new)>(source: nat -> T, table: seq<Slot<T>>, drawn: nat, entry: nat)
    requires forall i: nat :: Absent(table, Upcoming(source, drawn, i))
    ensures NeverSkips(source, table, drawn, entry) && AlwaysStores(source, table, drawn, entry)
  {
  }

  /** One acquisition for a region that respects both keeps both. */
  lemma AcquiringKeeps<T(!new)>(b: Build<T>, source: nat -> T, table: seq<Slot<T>>, drawn: nat, k: T, region: Region,
                                entry: nat)
    requires |table| == HASH_TABLE_SIZE && NextWithKey(region, entry) && KeyWithValue(region, entry)
    ensures NeverSkips(source, table, drawn, entry) ==> NeverSkips(source, Insert(b, table, k, region).0, drawn, entry)
    ensures AlwaysStores(source, table, drawn, entry) ==>
              AlwaysStores(source, Insert(b, table, k, region).0, drawn, entry)
  {
    hide NextWithKey, KeyWithValue, StillToCome;
  }

  lemma DrawingKeeps<T(!new)>(source: nat -> T, table: seq<Slot<T>>, drawn: nat, entry: nat)
    ensures NeverSkips(source, table, drawn, entry) ==> NeverSkips(source, table, drawn + 1, entry)
    ensures AlwaysStores(source, table, drawn, entry) ==> AlwaysStores(source, table, drawn + 1, entry)
  {
    hide NextWithKey, KeyWithValue;
    forall k | StillToCome(source, drawn + 1, k)
      ensures StillToCome(source, drawn, k)
    {
      var i: nat :| Upcoming(source, drawn + 1, i) == k;
      assert Upcoming(source, drawn, i + 1) == k;
    }
  }

  /** The regions that put itself acquires respect both: they are entries of the chain and its head. */
  lemma ChainRegionsRespect(head: nat, chain: seq<nat>, i: nat, f: nat, m: Bytes)
    requires Chain(m, 256, head, chain) && Separate(256, head, chain) && |m| < U64 && f < |chain|
    ensures i < |chain| ==>
              NextWithKey(Region(chain[i], 328, 3), chain[f]) && KeyWithValue(Region(chain[i], 328, 3), chain[f])
    ensures NextWithKey(Region(head, 8, 3), chain[f]) && KeyWithValue(Region(head, 8, 3), chain[f])
  {
    hide NextAt, WordAt;
    assert Fits(m, 256, chain[f]);
    if i < |chain| {
      assert Fits(m, 256, chain[i]);
      if i < f {
        assert DisjointRanges(chain[i], EntrySize(256), chain[f], EntrySize(256));
      } else if f < i {
        assert DisjointRanges(chain[f], EntrySize(256), chain[i], EntrySize(256));
      }
    }
    assert DisjointRanges(head, 8, chain[f], EntrySize(256));
  }

  /** A token is granted what some valid slot that holds it permits. */
  lemma GrantedBySlot<T>(b: Build<T>, table: seq<Slot<T>>, k: T, offset: nat, size: nat, bit: nat) returns (s: nat)
    requires |table| == HASH_TABLE_SIZE && (bit == READ || bit == WRITE)
    requires k != b.global && Granted(b, table, k, offset, size, bit)
    ensures s < |table| && table[s].valid && table[s].token == k && Lookup(b, table, k) == Some(table[s].region)
  {
    s := At(b.hash(k), Probe(table, b.hash(k), k));
  }

  /** The token of a round opens no next word without the key, and no key without the value. */
  lemma RoundRespects<T(!new)>(b: Build<T>, source: nat -> T, table: seq<Slot<T>>, drawn: nat, entry: nat)
    requires |table| == HASH_TABLE_SIZE && NeverSkips(source, table, drawn, entry)
    ensures Granted(b, table, source(drawn), entry + 320, 8, 1) ==> Granted(b, table, source(drawn), entry, 64, 1)
    ensures AlwaysStores(source, table, drawn, entry) && Granted(b, table, source(drawn), entry, 64, 1) ==>
              Granted(b, table, source(drawn), entry + 64, 256, 2)
  {
    hide Lookup, Permits;
    var k := source(drawn);
    assert Upcoming(source, drawn, 0) == k;
    assert StillToCome(source, drawn, k);
    if k != b.global && Granted(b, table, k, entry + 320, 8, 1) {
      var s := GrantedBySlot(b, table, k, entry + 320, 8, 1);
      assert NextWithKey(table[s].region, entry);
    }
    if k != b.global && Granted(b, table, k, entry, 64, 1) && AlwaysStores(source, table, drawn, entry) {
      var s := GrantedBySlot(b, table, k, entry, 64, 1);
      assert KeyWithValue(table[s].region, entry);
    }
  }

  /** The walk from an entry up to the first match, whatever tokens are refused on the way. */
  lemma {:induction false} WalkFinds<T(!new)>(b: Build<T>, source: nat -> T, table: seq<Slot<T>>, drawn: nat, m: Bytes,
                                              head: nat, chain: seq<nat>, key: Bytes, i: nat, rounds: nat)
    requires |table| == HASH_TABLE_SIZE && |key| == KEY_SIZE && |m| < U64
    requires Chain(m, 256, head, chain) && Separate(256, head, chain) && i <= Find(Pairs(m, 256, chain), key, 0)
    requires var f := Find(Pairs(m, 256, chain), key, 0);
             f < |chain| ==> NeverSkips(source, table, drawn, chain[f])
    requires !PutWalk(b, source, table, drawn, m, key, Link(chain, i), rounds).Unfinished?
    ensures var w := PutWalk(b, source, table, drawn, m, key, Link(chain, i), rounds);
            var f := Find(Pairs(m, 256, chain), key, 0);
            && (w.Hit? <==> f < |chain|)
            && (w.Hit? ==>
                  && w.entry == chain[f]
                  && (AlwaysStores(source, table, drawn, chain[f]) ==>
                        Granted(b, w.table, w.token, chain[f] + 64, 256, 2)))
    decreases rounds
  {
    hide Insert, Granted, Find, Pairs, Chain, Separate, NeverSkips, AlwaysStores, Read, WordAt;
    WalkStart(m, 256, head, chain);
    WalkStep(m, 256, head, chain, key, i);
    var f := Find(Pairs(m, 256, chain), key, 0);
    if i < |chain| {
      var k, region := source(drawn), Region(chain[i], 328, 3);
      var t := Insert(b, table, k, region).0;
      if f < |chain| {
        ChainRegionsRespect(head, chain, i, f, m);
        AcquiringKeeps(b, source, table, drawn, k, region, chain[f]);
        RoundRespects(b, source, t, drawn, chain[f]);
        DrawingKeeps(source, t, drawn, chain[f]);
      }
      if !(Granted(b, t, k, chain[i], 64, 1) && KeyAt(m, 256, chain[i]) == key) {
        if Granted(b, t, k, chain[i] + 320, 8, 1) {
          WalkFinds(b, source, t, drawn + 1, m, head, chain, key, i + 1, rounds - 1);
        } else {
          WalkFinds(b, source, t, drawn + 1, m, head, chain, key, i, rounds - 1);
        }
      }
    }
  }

  // ----- The whole operation -----

  /** The table after the index token has been drawn. */
  ghost function WithIndex<T>(b: Build<T>, source: nat -> T, table: seq<Slot<T>>, drawn: nat, key: Bytes):
      (t: seq<Slot<T>>)
    requires |table| == HASH_TABLE_SIZE && |key| == KEY_SIZE
    ensures |t| == HASH_TABLE_SIZE
  {
    Insert(b, table, source(drawn), Region(Bucket(key), 8, 3)).0
  }

  /** What put demands of its callers, and that its loop ends. */
  ghost predicate PutEnds<T>(b: Build<T>, source: nat -> T, table: seq<Slot<T>>, drawn: nat, data: Store, host: nat,
                             pair: Pair, rounds: nat) {
    && |table| == HASH_TABLE_SIZE && Mapped(|data.mem|, host) && WellFormedPair(pair, 256)
    && Bucket(pair.key) + 8 <= |data.mem|
    && !PutWalkFromHead(b, source, table, drawn, data.mem, pair.key, rounds).Unfinished?
  }

  ghost function PutLeaves<T>(b: Build<T>, source: nat -> T, table: seq<Slot<T>>, drawn: nat, data: Store, host: nat,
                              pair: Pair, rounds: nat): (r: PutResult<T>)
    requires PutEnds(b, source, table, drawn, data, host, pair, rounds)
    ensures |r.table| == HASH_TABLE_SIZE && |r.data.mem| == |data.mem| && r.drawn > drawn
  {
    var w := PutWalkFromHead(b, source, table, drawn, data.mem, pair.key, rounds);
    var r := ProtectedPut(b, source, w, source(drawn), data, host, pair);
    assert r.drawn >= w.drawn;
    r
  }

  /** put on a chain of any length, when the index token opens the head word and no token still to be
      drawn is held for a region that opens the next word of the first match without its key. However
      many tokens are refused, a put that ends answers and allocates as Find says: on a match it returns
      true and keeps the allocator, and the only bytes it can change are the match's value, which it
      stores if held tokens that open the key open the value too; on a miss it appends 328 bytes at the
      allocator, or returns false when they do not fit. */
  lemma PutFollowsFind<T(!new)>(b: Build<T>, source: nat -> T, table: seq<Slot<T>>, drawn: nat, data: Store, host: nat,
                                chain: seq<nat>, pair: Pair, rounds: nat)
    requires PutEnds(b, source, table, drawn, data, host, pair, rounds)
    requires Chain(data.mem, 256, Bucket(pair.key), chain) && Separate(256, Bucket(pair.key), chain)
    requires Granted(b, WithIndex(b, source, table, drawn, pair.key), source(drawn), Bucket(pair.key), 8, 1)
    requires var f := Find(Pairs(data.mem, 256, chain), pair.key, 0);
             f < |chain| ==> NeverSkips(source, table, drawn + 1, chain[f])
    ensures var f := Find(Pairs(data.mem, 256, chain), pair.key, 0);
            var r := PutLeaves(b, source, table, drawn, data, host, pair, rounds);
            && (f < |chain| ==>
                  && r.ok && r.data.next == data.next
                  && (r.data.mem == data.mem || r.data.mem == Write(data.mem, chain[f] + 64, pair.value))
                  && (AlwaysStores(source, table, drawn + 1, chain[f]) ==>
                        r.data.mem == Write(data.mem, chain[f] + 64, pair.value)))
            && (f == |chain| ==>
                  && (r.ok <==> data.next + 328 <= 0x800_0000 + 0x4000_0000 * (host + 1))
                  && (!r.ok ==> r.data == data)
                  && (r.ok ==> r.data.next == data.next + 328))
  {
    hide Insert, Granted, Find, Pairs, Chain, Separate, NeverSkips, AlwaysStores, Read, Write, WordAt, Bucket,
         GuardedPublish, PutWalk;
    var head := Bucket(pair.key);
    WalkStart(data.mem, 256, head, chain);
    var f := Find(Pairs(data.mem, 256, chain), pair.key, 0);
    var t := WithIndex(b, source, table, drawn, pair.key);
    if f < |chain| {
      ChainRegionsRespect(head, chain, f, f, data.mem);
      AcquiringKeeps(b, source, table, drawn + 1, source(drawn), Region(head, 8, 3), chain[f]);
    }
    WalkFinds(b, source, t, drawn + 1, data.mem, head, chain, pair.key, 0, rounds);
  }

  /** If moreover the index token opens the head word for writing too, and the token drawn last is found
      with the new entry's region, a miss leaves the bytes of the unprotected store, and with stores that
      go through so does a match: put is the unprotected put. */
  lemma PutIsPutWhenItsTokensServe<T(!new)>(b: Build<T>, source: nat -> T, table: seq<Slot<T>>, drawn: nat, data: Store,
                                            host: nat, chain: seq<nat>, pair: Pair, rounds: nat)
    requires PutEnds(b, source, table, drawn, data, host, pair, rounds)
    requires Chain(data.mem, 256, Bucket(pair.key), chain) && Separate(256, Bucket(pair.key), chain)
    requires Granted(b, WithIndex(b, source, table, drawn, pair.key), source(drawn), Bucket(pair.key), 8, 1)
             && Granted(b, WithIndex(b, source, table, drawn, pair.key), source(drawn), Bucket(pair.key), 8, 2)
    requires var f := Find(Pairs(data.mem, 256, chain), pair.key, 0);
             var r := PutLeaves(b, source, table, drawn, data, host, pair, rounds);
             if f < |chain| then
               && NeverSkips(source, table, drawn + 1, chain[f])
               && AlwaysStores(source, table, drawn + 1, chain[f])
             else r.ok ==> HeldFor(b, r.table, source(r.drawn - 1), Region(data.next, 328, 3))
    ensures var r := PutLeaves(b, source, table, drawn, data, host, pair, rounds);
            (r.data, r.ok) == PutPair(data, host, chain, pair)
  {
    hide Insert, Granted, Find, Pairs, Chain, Separate, NeverSkips, AlwaysStores, Read, Write, WordAt, Bucket,
         GuardedPublish, Publish, PutWalk, HeldFor;
    PutFollowsFind(b, source, table, drawn, data, host, chain, pair, rounds);
    WalkStart(data.mem, 256, Bucket(pair.key), chain);
    var r := PutLeaves(b, source, table, drawn, data, host, pair, rounds);
    if Find(Pairs(data.mem, 256, chain), pair.key, 0) == |chain| && r.ok {
      var w := PutWalkFromHead(b, source, table, drawn, data.mem, pair.key, rounds);
      WalkFinds(b, source, WithIndex(b, source, table, drawn, pair.key), drawn + 1, data.mem, Bucket(pair.key), chain,
                pair.key, 0, rounds);
      IndexStaysOpen(b, source, table, drawn, data.mem, pair.key, rounds, Region(data.next, 328, 3));
      HeldOpens(b, r.table, source(w.drawn), data.next);
      PublishWhenGranted(b, r.table, data.mem, 256, data.next, pair, source(drawn), source(w.drawn));
    }
  }

  /** What the index token may do it may still do after the walk and one more acquisition. */
  lemma IndexStaysOpen<T>(b: Build<T>, source: nat -> T, table: seq<Slot<T>>, drawn: nat, m: Bytes, key: Bytes,
                          rounds: nat, region: Region)
    requires |table| == HASH_TABLE_SIZE && |key| == KEY_SIZE && Bucket(key) + 8 <= |m|
    requires Granted(b, WithIndex(b, source, table, drawn, key), source(drawn), Bucket(key), 8, 2)
    requires !PutWalkFromHead(b, source, table, drawn, m, key, rounds).Unfinished?
    ensures var w := PutWalkFromHead(b, source, table, drawn, m, key, rounds);
            Granted(b, Insert(b, w.table, source(w.drawn), region).0, source(drawn), Bucket(key), 8, 2)
  {
    hide Insert, Lookup, Permits, PutWalk, Bucket, WordAt;
    var t := WithIndex(b, source, table, drawn, key);
    var w := PutWalkFromHead(b, source, table, drawn, m, key, rounds);
    if source(drawn) != b.global {
      var entry := if Granted(b, t, source(drawn), Bucket(key), 8, READ) then WordAt(m, Bucket(key)) else 0;
      PutWalkKeepsLookup(b, source, t, drawn + 1, m, key, entry, rounds, source(drawn));
      InsertKeepsLookup(b, w.table, source(drawn), source(w.drawn), region);
    }
  }

  lemma HeldOpens<T>(b: Build<T>, t: seq<Slot<T>>, k: T, entry: nat)
    requires |t| == HASH_TABLE_SIZE && HeldFor(b, t, k, Region(entry, 328, 3)) && entry + 328 < U64
    ensures Granted(b, t, k, entry, 64, 2) && Granted(b, t, k, entry + 64, 256, 2)
    ensures Granted(b, t, k, entry + 320, 8, 2)
  {
    hide Lookup;
  }

  /** A refused index token: put never looks at the chain. Even if the key is there it appends and
      reports success, and if the token may not write the head word either, no bucket changes: the new
      pair is lost and its 328 bytes with it. */
  lemma RefusedIndexLosesThePair<T>(b: Build<T>, source: nat -> T, table: seq<Slot<T>>, drawn: nat, data: Store,
                                    host: nat, pair: Pair, rounds: nat)
    requires |table| == HASH_TABLE_SIZE && Mapped(|data.mem|, host) && WellFormedPair(pair, 256)
    requires Bucket(pair.key) + 8 <= PartitionStart(host) <= data.next
    requires !Granted(b, WithIndex(b, source, table, drawn, pair.key), source(drawn), Bucket(pair.key), 8, 1)
    ensures PutEnds(b, source, table, drawn, data, host, pair, rounds)
    ensures var r := PutLeaves(b, source, table, drawn, data, host, pair, rounds);
            && (r.ok <==> data.next + 328 <= 0x800_0000 + 0x4000_0000 * (host + 1))
            && r.data.next == (if r.ok then data.next + 328 else data.next)
            && r.drawn == (if r.ok then drawn + 2 else drawn + 1)
            && (!Granted(b, r.table, source(drawn), Bucket(pair.key), 8, 2) ==>
                  forall a :: 0 <= a < |data.mem| && !(data.next <= a < data.next + 328) ==>
                    r.data.mem[a] == data.mem[a])
  {
    hide Insert, Granted, Read, Bucket, GuardedPublish;
    var r := PutLeaves(b, source, table, drawn, data, host, pair, rounds);
    if r.ok && !Granted(b, r.table, source(drawn), Bucket(pair.key), 8, 2) {
      GuardedPublishFrame(b, r.table, data.mem, 256, data.next, pair, source(drawn), source(drawn + 1));
      GuardedPublishParts(b, r.table, data.mem, 256, data.next, pair, source(drawn), source(drawn + 1));
      HeadBytesStay(data.mem, r.data.mem, Bucket(pair.key));
    }
  }

  lemma HeadBytesStay(m: Bytes, m': Bytes, head: nat)
    requires |m| == |m'| && head + 8 <= |m| && Read(m, head, 8) == Read(m', head, 8)
    ensures forall a :: head <= a < head + 8 ==> m[a] == m'[a]
  {
    forall a | head <= a < head + 8
      ensures m[a] == m'[a]
    {
      assert m[a] == Read(m, head, 8)[a - head] && m'[a] == Read(m', head, 8)[a - head];
    }
  }

  /** A run: the key is in its bucket's only entry, the source yields t, t, u. The second t is refused
      with -2 and opens only the head word; u opens the entry, whose value is then updated in place. */
  lemma RefusedTokenIsRetried<T(!new)>(b: Build<T>, source: nat -> T, table: seq<Slot<T>>, drawn: nat, data: Store,
                                       host: nat, entry: nat, pair: Pair)
    requires |table| == HASH_TABLE_SIZE && Mapped(|data.mem|, host) && WellFormedPair(pair, 256)
    requires Chain(data.mem, 256, Bucket(pair.key), [entry]) && Separate(256, Bucket(pair.key), [entry])
    requires data.mem[entry..entry + 64] == pair.key
    requires var t, u := source(drawn), source(drawn + 2);
             && source(drawn + 1) == t && t != u && t != b.global && u != b.global
             && Absent(table, t) && Absent(table, u) && |ValidSlots(table)| + 2 <= HASH_TABLE_SIZE
    ensures Insert(b, WithIndex(b, source, table, drawn, pair.key), source(drawn + 1), Region(entry, 328, 3)).1 == -2
    ensures PutEnds(b, source, table, drawn, data, host, pair, 2)
    ensures var r := PutLeaves(b, source, table, drawn, data, host, pair, 2);
            && r.ok && r.data == Store(Write(data.mem, entry + 64, pair.value), data.next)
            && r.drawn == drawn + 3 && Lookup(b, r.table, source(drawn + 2)) == Some(Region(entry, 328, 3))
  {
    hide Insert, Lookup, ValidSlots, Absent, Chain, Permits, NextAt, WordAt, Bucket, Write;
    var t0 := WithIndex(b, source, table, drawn, pair.key);
    var head := Region(Bucket(pair.key), 8, 3);
    var whole := Region(entry, 328, 3);
    WalkStart(data.mem, 256, Bucket(pair.key), [entry]);
    FreshIsAccepted(b, table, source(drawn), head);
    InsertThenLookup(b, table, source(drawn), head);
    PresentIsRefused(b, t0, source(drawn + 1), whole);
    FreshIsAccepted(b, t0, source(drawn + 2), whole);
    InsertThenLookup(b, t0, source(drawn + 2), whole);
    EntryAndHead(data.mem, Bucket(pair.key), entry);
    assert KeyAt(data.mem, 256, entry) == pair.key;
  }

  /** A head word's region opens nothing of an entry, the entry's own everything. */
  lemma EntryAndHead(m: Bytes, head: nat, entry: nat)
    requires entry + 328 <= |m| < U64 && head + 8 <= |m| && DisjointRanges(head, 8, entry, 328)
    ensures !Permits(Region(head, 8, 3), entry, 64, 1) && !Permits(Region(head, 8, 3), entry + 320, 8, 1)
    ensures Permits(Region(head, 8, 3), head, 8, 1)
    ensures Permits(Region(entry, 328, 3), entry, 64, 1) && Permits(Region(entry, 328, 3), entry + 64, 256, 2)
  {
  }

  /** The object's put, on such a chain and under such tokens, in bytes. */
  method PutByFind<T(!new, ==)>(store: Gshm<T>, pair: Pair, ghost chain: seq<nat>, ghost rounds: nat)
    returns (ok: bool)
    requires store.Valid()
    requires PutEnds(store.build, store.source, store.table[..], store.drawn,
                     Store(store.mem[..], store.nextFreeOffset), store.hostId, pair, rounds)
    requires Chain(store.mem[..], 256, Bucket(pair.key), chain) && Separate(256, Bucket(pair.key), chain)
    requires Granted(store.build, WithIndex(store.build, store.source, store.table[..], store.drawn, pair.key),
                     store.source(store.drawn), Bucket(pair.key), 8, 1)
    requires var f := Find(Pairs(store.mem[..], 256, chain), pair.key, 0);
             f < |chain| ==>
               && NeverSkips(store.source, store.table[..], store.drawn + 1, chain[f])
               && AlwaysStores(store.source, store.table[..], store.drawn + 1, chain[f])
    modifies store, store.table, store.mem
    ensures store.Valid()
    ensures var f := old(Find(Pairs(store.mem[..], 256, chain), pair.key, 0));
            if f < |chain| then
              && ok && store.nextFreeOffset == old(store.nextFreeOffset)
              && store.mem[..] == Write(old(store.mem[..]), chain[f] + 64, pair.value)
            else
              && (ok <==> old(store.nextFreeOffset) + 328 <= 0x800_0000 + 0x4000_0000 * (store.hostId + 1))
              && (!ok ==> store.mem[..] == old(store.mem[..]))
              && store.nextFreeOffset == old(store.nextFreeOffset) + if ok then 328 else 0
  {
    hide Insert, Granted, Find, Pairs, Chain, Separate, NeverSkips, AlwaysStores, Read, Write, WordAt, Bucket, PutWalk;
    ghost var data := Store(store.mem[..], store.nextFreeOffset);
    WalkStart(store.mem[..], 256, Bucket(pair.key), chain);
    PutFollowsFind(store.build, store.source, store.table[..], store.drawn, data, store.hostId, chain, pair, rounds);
    ok := store.Put(pair, rounds);
  }
}
