/** What the unprotected store means, over whole runs.

    Because insert and a missing put write a zero next word and overwrite the head, a bucket never
    holds more than one entry: the byte memory represents a map from bucket to at most one pair, and
    the bump allocator is a counter. */
module StoreRefinement {
  import opened Memory
  import opened Layout
  import opened Chains
  import opened UnprotectedStore

  datatype Op =
    | Insert(pair: Pair)
    | Put(pair: Pair)
    | Get(key: Bytes, buffer: Bytes)
    | Update(pair: Pair)
    | Delete(key: Bytes)
  {
    function Key(): Bytes {
      if Get? || Delete? then key else pair.key
    }
  }

  datatype Answer = Answer(ok: bool, value: Bytes)

  /** One pair per bucket, and the number of entries ever allocated. */
  datatype Abstract = Abstract(buckets: map<nat, Pair>, used: nat)

  const EMPTY := Abstract(map[], 0)

  /** How many entries fit into a partition. */
  function Capacity(vs: nat): nat {
    DATA_PARTITION_SIZE / EntrySize(vs)
  }

  /** Callers pass 64-byte keys and values of the store's size (put: of its own), and keep keys out of
      the index tables that host 0's partition covers. */
  predicate Admissible(op: Op, host: nat, vs: nat) {
    && |op.Key()| == KEY_SIZE
    && ClearOf(host, PartitionId(op.Key()))
    && (op.Insert? || op.Update? ==> |op.pair.value| == vs)
    && (op.Put? ==> |op.pair.value| == PUT_VALUE_SIZE == vs)
  }

  predicate Present(a: Abstract, key: Bytes)
    requires |key| == KEY_SIZE
  {
    Bucket(key) in a.buckets && a.buckets[Bucket(key)].key == key
  }

  function AbstractInsert(a: Abstract, vs: nat, pair: Pair): (Abstract, Answer)
    requires |pair.key| == KEY_SIZE
  {
    if a.used >= Capacity(vs) then (a, Answer(false, []))
    else (Abstract(a.buckets[Bucket(pair.key) := pair], a.used + 1), Answer(true, []))
  }

  function AbstractStep(a: Abstract, vs: nat, op: Op): (Abstract, Answer)
    requires |op.Key()| == KEY_SIZE
  {
    var present := Present(a, op.Key());
    match op
    case Insert(pair) => AbstractInsert(a, vs, pair)
    case Put(pair) =>
      if present then (a.(buckets := a.buckets[Bucket(pair.key) := pair]), Answer(true, []))
      else AbstractInsert(a, vs, pair)
    case Get(key, buffer) =>
      (a, if present then Answer(true, a.buckets[Bucket(key)].value) else Answer(false, buffer))
    case Update(pair) =>
      if present then (a.(buckets := a.buckets[Bucket(pair.key) := pair]), Answer(true, [])) else (a, Answer(false, []))
    case Delete(key) =>
      if present then (a.(buckets := a.buckets - {Bucket(key)}), Answer(true, [])) else (a, Answer(false, []))
  }

  function AbstractRun(a: Abstract, host: nat, vs: nat, ops: seq<Op>): (Abstract, seq<Answer>)
    requires forall op :: op in ops ==> Admissible(op, host, vs)
    decreases |ops|
  {
    if ops == [] then (a, [])
    else
      var (a1, answer) := AbstractRun(a, host, vs, ops[..|ops| - 1]);
      assert Admissible(ops[|ops| - 1], host, vs);
      var (a2, last) := AbstractStep(a1, vs, ops[|ops| - 1]);
      (a2, answer + [last])
  }

  // ----- Representation -----

  /** A head word outside the host's partition. */
  predicate IsHead(b: nat, host: nat) {
    IsIndexWord(b) && b + 8 <= PartitionStart(host)
  }

  lemma BucketIsHead(key: Bytes, host: nat)
    requires |key| == KEY_SIZE && ClearOf(host, PartitionId(key))
    ensures IsHead(Bucket(key), host)
  {
    BucketIsIndexWord(key);
    BucketClearOfPartition(key, host);
  }

  /** What memory stores for bucket b: a zero head, or a head leading to one complete entry. */
  ghost predicate BucketHolds(m: Bytes, host: nat, vs: nat, next: nat, buckets: map<nat, Pair>, b: nat)
    requires b + 8 <= |m| && next <= |m|
  {
    var e := WordAt(m, b);
    if b in buckets then
      && PartitionStart(host) <= e && e + EntrySize(vs) <= next
      && PairAt(m, vs, e) == buckets[b] && NextAt(m, vs, e) == 0
    else e == 0
  }

  ghost predicate Apart(m: Bytes, vs: nat, b1: nat, b2: nat)
    requires b1 + 8 <= |m| && b2 + 8 <= |m|
  {
    DisjointRanges(WordAt(m, b1), EntrySize(vs), WordAt(m, b2), EntrySize(vs))
  }

  ghost predicate Represents(st: Store, a: Abstract, host: nat, vs: nat) {
    && Mapped(|st.mem|, host)
    && st.next == PartitionStart(host) + a.used * EntrySize(vs) <= PartitionEnd(host)
    && (forall b :: b in a.buckets ==>
        IsHead(b, host) && WellFormedPair(a.buckets[b], vs) && Bucket(a.buckets[b].key) == b)
    && (forall b :: IsHead(b, host) ==> BucketHolds(st.mem, host, vs, st.next, a.buckets, b))
    && (forall b1, b2 :: b1 in a.buckets && b2 in a.buckets && b1 != b2 ==> Apart(st.mem, vs, b1, b2))
  }

  /** The entries of a bucket: none or one. */
  ghost function BucketChain(m: Bytes, b: nat): seq<nat>
    requires b + 8 <= |m|
  {
    if WordAt(m, b) == 0 then [] else [WordAt(m, b)]
  }

  lemma BucketIsChain(st: Store, a: Abstract, host: nat, vs: nat, b: nat)
    requires Represents(st, a, host, vs) && IsHead(b, host)
    ensures var c := BucketChain(st.mem, b);
            && Chain(st.mem, vs, b, c) && Separate(vs, b, c)
            && Pairs(st.mem, vs, c) == if b in a.buckets then [a.buckets[b]] else []
  {
    assert BucketHolds(st.mem, host, vs, st.next, a.buckets, b);
  }

  lemma FindSingle(ps: seq<Pair>, key: Bytes)
    requires |ps| <= 1
    ensures Find(ps, key, 0) == if |ps| == 1 && ps[0].key == key then 0 else |ps|
  {
  }

  lemma RoomLeft(used: nat, host: nat, vs: nat)
    ensures PartitionStart(host) + used * EntrySize(vs) + EntrySize(vs) > PartitionEnd(host) <==> used >= Capacity(vs)
  {
    var es := EntrySize(vs);
    assert used * es + es == (used + 1) * es;
    if used >= Capacity(vs) {
      assert used * es >= Capacity(vs) * es by {
        MulMonotone(Capacity(vs), used, es);
      }
    } else {
      MulMonotone(used + 1, Capacity(vs), es);
    }
  }

  lemma MulMonotone(x: nat, y: nat, z: nat)
    requires x <= y
    ensures x * z <= y * z
  {
  }

  // ----- One operation -----

  /** get answers from the bucket's pair. */
  lemma GetRefines(st: Store, a: Abstract, host: nat, vs: nat, key: Bytes, buffer: Bytes)
    requires Represents(st, a, host, vs) && |key| == KEY_SIZE && ClearOf(host, PartitionId(key))
    ensures Bucket(key) + 8 <= |st.mem|
    ensures var c := BucketChain(st.mem, Bucket(key));
            && Chain(st.mem, vs, Bucket(key), c)
            && GetPair(st.mem, vs, c, key, buffer)
               == (if Present(a, key) then (true, a.buckets[Bucket(key)].value) else (false, buffer))
  {
    BucketIsHead(key, host);
    BucketIsChain(st, a, host, vs, Bucket(key));
    FindSingle(Pairs(st.mem, vs, BucketChain(st.mem, Bucket(key))), key);
  }

  /** The bytes a publication touches: the new entry and the head word. */
  lemma PublishFrame(m: Bytes, vs: nat, entry: nat, pair: Pair)
    requires WellFormedPair(pair, vs) && Fits(m, vs, entry) && Bucket(pair.key) + 8 <= |m| && entry < U64
    requires DisjointRanges(Bucket(pair.key), 8, entry, EntrySize(vs))
    ensures var m' := Publish(m, vs, entry, pair);
            && WordAt(m', Bucket(pair.key)) == entry
            && PairAt(m', vs, entry) == pair && NextAt(m', vs, entry) == 0
            && forall a | 0 <= a < |m| && !(entry <= a < entry + EntrySize(vs))
                          && !(Bucket(pair.key) <= a < Bucket(pair.key) + 8) :: m'[a] == m[a]
  {
    EntryWritten(m, vs, entry, pair);
    var m1 := WriteEntry(m, vs, entry, pair);
    EntrySame(m1, Publish(m, vs, entry, pair), vs, entry);
  }

  /** A bucket whose head word and entry keep their bytes keeps its content. */
  lemma BucketSame(m: Bytes, m': Bytes, host: nat, vs: nat, next: nat, next': nat, bs: map<nat, Pair>,
                   bs': map<nat, Pair>, b: nat)
    requires |m| == |m'| && b + 8 <= |m| && next <= next' <= |m| && BucketHolds(m, host, vs, next, bs, b)
    requires b in bs <==> b in bs'
    requires b in bs ==> bs'[b] == bs[b]
    requires forall a :: b <= a < b + 8 ==> m'[a] == m[a]
    requires b in bs ==> forall a :: WordAt(m, b) <= a < WordAt(m, b) + EntrySize(vs) ==> m'[a] == m[a]
    ensures WordAt(m', b) == WordAt(m, b)
    ensures BucketHolds(m', host, vs, next', bs', b)
  {
    WordSame(m, m', b);
    if b in bs {
      EntrySame(m, m', vs, WordAt(m, b));
    }
  }

  /** insert overwrites the bucket, whatever it held, unless the partition is full; the entry is the
      next one of the partition. */
  lemma InsertRefines(st: Store, a: Abstract, host: nat, vs: nat, pair: Pair)
    requires Represents(st, a, host, vs) && WellFormedPair(pair, vs) && ClearOf(host, PartitionId(pair.key))
    ensures var (st', ok) := InsertPair(st, host, vs, pair);
            var (a', answer) := AbstractInsert(a, vs, pair);
            && ok == answer.ok && Represents(st', a', host, vs)
            && (ok ==>
                  && Bucket(pair.key) + 8 <= |st'.mem|
                  && WordAt(st'.mem, Bucket(pair.key)) == PartitionStart(host) + a.used * EntrySize(vs))
  {
    hide Bucket, Publish, WordAt, PairAt, NextAt, ClearOf, BucketHolds, Apart, IsHead;
    RoomLeft(a.used, host, vs);
    if a.used < Capacity(vs) {
      var b := Bucket(pair.key);
      BucketIsHead(pair.key, host);
      InsertedBuckets(st, a, host, vs, pair);
      InsertedApart(st, a, host, vs, pair);
      InsertedBucket(st, a, host, vs, pair, b);
      assert (a.used + 1) * EntrySize(vs) == a.used * EntrySize(vs) + EntrySize(vs);
      assert forall b' :: b' in a.buckets[b := pair] ==> b' == b || b' in a.buckets;
    }
  }

  lemma InsertedBuckets(st: Store, a: Abstract, host: nat, vs: nat, pair: Pair)
    requires Represents(st, a, host, vs) && WellFormedPair(pair, vs) && ClearOf(host, PartitionId(pair.key))
    requires st.next + EntrySize(vs) <= PartitionEnd(host)
    ensures Bucket(pair.key) + 8 <= |st.mem|
    ensures var m' := Publish(st.mem, vs, st.next, pair);
            forall b :: IsHead(b, host) ==>
              BucketHolds(m', host, vs, st.next + EntrySize(vs), a.buckets[Bucket(pair.key) := pair], b)
  {
    hide Bucket, Publish, WordAt, PairAt, NextAt, ClearOf, BucketHolds;
    BucketIsHead(pair.key, host);
    forall b | IsHead(b, host)
      ensures BucketHolds(Publish(st.mem, vs, st.next, pair), host, vs, st.next + EntrySize(vs),
                          a.buckets[Bucket(pair.key) := pair], b)
    {
      InsertedBucket(st, a, host, vs, pair, b);
    }
  }

  lemma InsertedApart(st: Store, a: Abstract, host: nat, vs: nat, pair: Pair)
    requires Represents(st, a, host, vs) && WellFormedPair(pair, vs) && ClearOf(host, PartitionId(pair.key))
    requires st.next + EntrySize(vs) <= PartitionEnd(host)
    ensures Bucket(pair.key) + 8 <= |st.mem|
    ensures var m' := Publish(st.mem, vs, st.next, pair);
            var buckets' := a.buckets[Bucket(pair.key) := pair];
            forall b1, b2 :: b1 in buckets' && b2 in buckets' && b1 != b2 ==>
                  b1 + 8 <= |m'| && b2 + 8 <= |m'| && Apart(m', vs, b1, b2)
  {
    hide Bucket, Publish, WordAt, PairAt, NextAt, ClearOf, BucketHolds;
    BucketIsHead(pair.key, host);
    var m' := Publish(st.mem, vs, st.next, pair);
    var buckets' := a.buckets[Bucket(pair.key) := pair];
    forall b1, b2 | b1 in buckets' && b2 in buckets' && b1 != b2
      ensures b1 + 8 <= |m'| && b2 + 8 <= |m'| && Apart(m', vs, b1, b2)
    {
      InsertedEntry(st, a, host, vs, pair, b1);
      InsertedEntry(st, a, host, vs, pair, b2);
      if b1 != Bucket(pair.key) && b2 != Bucket(pair.key) {
        assert Apart(st.mem, vs, b1, b2);
      }
    }
  }

  lemma InsertedBucket(st: Store, a: Abstract, host: nat, vs: nat, pair: Pair, b: nat)
    requires Represents(st, a, host, vs) && WellFormedPair(pair, vs) && ClearOf(host, PartitionId(pair.key))
    requires st.next + EntrySize(vs) <= PartitionEnd(host) && IsHead(b, host)
    ensures Bucket(pair.key) + 8 <= |st.mem|
    ensures var m' := Publish(st.mem, vs, st.next, pair);
            && BucketHolds(m', host, vs, st.next + EntrySize(vs), a.buckets[Bucket(pair.key) := pair], b)
            && WordAt(m', b) == if b == Bucket(pair.key) then st.next else WordAt(st.mem, b)
  {
    hide Publish, WordAt, PairAt, NextAt, ClearOf, PartitionId, HashOffset, KeyWord, Bucket, Apart;
    BucketIsHead(pair.key, host);
    PublishFrame(st.mem, vs, st.next, pair);
    if b != Bucket(pair.key) {
      IndexWordsApart(b, Bucket(pair.key));
      assert BucketHolds(st.mem, host, vs, st.next, a.buckets, b);
      BucketSame(st.mem, Publish(st.mem, vs, st.next, pair), host, vs, st.next, st.next + EntrySize(vs),
                 a.buckets, a.buckets[Bucket(pair.key) := pair], b);
    }
  }

  /** Where the entry of an old or new bucket lies after an insertion. */
  lemma InsertedEntry(st: Store, a: Abstract, host: nat, vs: nat, pair: Pair, b: nat)
    requires Represents(st, a, host, vs) && WellFormedPair(pair, vs) && ClearOf(host, PartitionId(pair.key))
    requires st.next + EntrySize(vs) <= PartitionEnd(host) && b in a.buckets[Bucket(pair.key) := pair]
    ensures Bucket(pair.key) + 8 <= |st.mem| && b + 8 <= |st.mem|
    ensures var e := WordAt(Publish(st.mem, vs, st.next, pair), b);
            if b == Bucket(pair.key) then e == st.next else e == WordAt(st.mem, b) && e + EntrySize(vs) <= st.next
  {
    BucketIsHead(pair.key, host);
    InsertedBucket(st, a, host, vs, pair, b);
    assert b != Bucket(pair.key) ==> BucketHolds(st.mem, host, vs, st.next, a.buckets, b);
  }

  /** update (and a hitting put) acts exactly when the bucket's key is the argument. */
  lemma UpdateRefines(st: Store, a: Abstract, host: nat, vs: nat, pair: Pair)
    requires Represents(st, a, host, vs) && WellFormedPair(pair, vs) && ClearOf(host, PartitionId(pair.key))
    ensures Bucket(pair.key) + 8 <= |st.mem|
    ensures var b := Bucket(pair.key);
            var c := BucketChain(st.mem, b);
            && Chain(st.mem, vs, b, c)
            && var (m', found) := UpdatePair(st.mem, vs, c, pair);
               && found == Present(a, pair.key)
               && Represents(Store(m', st.next), if found then a.(buckets := a.buckets[b := pair]) else a, host, vs)
  {
    hide Read, Write, Decode, Encode, PartitionId, HashOffset, KeyWord, Represents;
    var b := Bucket(pair.key);
    BucketIsHead(pair.key, host);
    BucketIsChain(st, a, host, vs, b);
    var c := BucketChain(st.mem, b);
    FindSingle(Pairs(st.mem, vs, c), pair.key);
    if Present(a, pair.key) {
      RewrittenValue(st, a, host, vs, pair);
      assert UpdatePair(st.mem, vs, c, pair) == (Write(st.mem, WordAt(st.mem, b) + KEY_SIZE, pair.value), true);
    }
  }

  /** Rewriting the value of a present key changes exactly that key's pair. */
  lemma RewrittenValue(st: Store, a: Abstract, host: nat, vs: nat, pair: Pair)
    requires Represents(st, a, host, vs) && WellFormedPair(pair, vs) && ClearOf(host, PartitionId(pair.key))
    requires Present(a, pair.key)
    ensures Bucket(pair.key) + 8 <= |st.mem| && WordAt(st.mem, Bucket(pair.key)) + KEY_SIZE + vs <= |st.mem|
    ensures Represents(Store(Write(st.mem, WordAt(st.mem, Bucket(pair.key)) + KEY_SIZE, pair.value), st.next),
                       a.(buckets := a.buckets[Bucket(pair.key) := pair]), host, vs)
  {
    hide WordAt, PairAt, NextAt, Bucket, Write, ClearOf;
    var b := Bucket(pair.key);
    BucketIsHead(pair.key, host);
    UpdatedBucket(st, a, host, vs, pair, b);
    var m' := Write(st.mem, WordAt(st.mem, b) + KEY_SIZE, pair.value);
    forall b' | IsHead(b', host)
      ensures BucketHolds(m', host, vs, st.next, a.buckets[b := pair], b') && WordAt(m', b') == WordAt(st.mem, b')
    {
      UpdatedBucket(st, a, host, vs, pair, b');
    }
    forall b1, b2 | b1 in a.buckets[b := pair] && b2 in a.buckets[b := pair] && b1 != b2
      ensures Apart(m', vs, b1, b2)
    {
      assert Apart(st.mem, vs, b1, b2);
    }
  }

  lemma UpdatedBucket(st: Store, a: Abstract, host: nat, vs: nat, pair: Pair, b': nat)
    requires Represents(st, a, host, vs) && WellFormedPair(pair, vs)
    requires Present(a, pair.key) && IsHead(b', host) && b' + 8 <= |st.mem| && Bucket(pair.key) + 8 <= |st.mem|
    ensures WordAt(st.mem, Bucket(pair.key)) + KEY_SIZE + vs <= |st.mem|
    ensures var m' := Write(st.mem, WordAt(st.mem, Bucket(pair.key)) + KEY_SIZE, pair.value);
            BucketHolds(m', host, vs, st.next, a.buckets[Bucket(pair.key) := pair], b')
                && WordAt(m', b') == WordAt(st.mem, b')
  {
    hide WordAt, PairAt, NextAt, Bucket, Write;
    var b := Bucket(pair.key);
    assert BucketHolds(st.mem, host, vs, st.next, a.buckets, b);
    assert BucketHolds(st.mem, host, vs, st.next, a.buckets, b');
    assert b' != b && b' in a.buckets ==> Apart(st.mem, vs, b, b');
    BucketRewritten(st.mem, host, vs, st.next, a.buckets, b, b', pair);
  }

  /** Rewriting the value of b's entry, seen from any bucket whose entry is apart from it. */
  lemma BucketRewritten(m: Bytes, host: nat, vs: nat, next: nat, bs: map<nat, Pair>, b: nat, b': nat, pair: Pair)
    requires IsHead(b, host) && IsHead(b', host) && b + 8 <= |m| && b' + 8 <= |m| && next <= |m|
             && WellFormedPair(pair, vs)
    requires BucketHolds(m, host, vs, next, bs, b) && BucketHolds(m, host, vs, next, bs, b')
    requires b in bs && bs[b].key == pair.key && (b' != b && b' in bs ==> Apart(m, vs, b, b'))
    ensures var m' := Write(m, WordAt(m, b) + KEY_SIZE, pair.value);
            BucketHolds(m', host, vs, next, bs[b := pair], b') && WordAt(m', b') == WordAt(m, b')
  {
    hide WordAt, NextAt;
    var e := WordAt(m, b);
    var m' := Write(m, e + KEY_SIZE, pair.value);
    if b' != b {
      BucketSame(m, m', host, vs, next, next, bs, bs[b := pair], b');
    } else {
      WordSame(m, m', b);
      ValueReplaced(m, vs, e, pair);
    }
  }

  lemma ValueReplaced(m: Bytes, vs: nat, e: nat, pair: Pair)
    requires Fits(m, vs, e) && WellFormedPair(pair, vs) && KeyAt(m, vs, e) == pair.key
    ensures var m' := Write(m, e + KEY_SIZE, pair.value);
            PairAt(m', vs, e) == pair && NextAt(m', vs, e) == NextAt(m, vs, e)
  {
    var m' := Write(m, e + KEY_SIZE, pair.value);
    ReadBack(m, e + KEY_SIZE, pair.value);
    ReadSame(m, m', e, KEY_SIZE);
    WordSame(m, m', e + KEY_SIZE + vs);
  }

  /** del empties the bucket exactly when its key is the argument. */
  lemma DeleteRefines(st: Store, a: Abstract, host: nat, vs: nat, key: Bytes)
    requires Represents(st, a, host, vs) && |key| == KEY_SIZE && ClearOf(host, PartitionId(key))
    ensures Bucket(key) + 8 <= |st.mem|
    ensures var b := Bucket(key);
            var c := BucketChain(st.mem, b);
            && Chain(st.mem, vs, b, c)
            && var (m', found) := DeletePair(st.mem, vs, b, c, key);
               && found == Present(a, key)
               && Represents(Store(m', st.next), if found then a.(buckets := a.buckets - {b}) else a, host, vs)
  {
    hide Read, Write, Decode, Encode, PartitionId, HashOffset, KeyWord, PutWord, Represents;
    var b := Bucket(key);
    BucketIsHead(key, host);
    BucketIsChain(st, a, host, vs, b);
    var c := BucketChain(st.mem, b);
    FindSingle(Pairs(st.mem, vs, c), key);
    if Present(a, key) {
      RemovedHead(st, a, host, vs, b);
      assert DeletePair(st.mem, vs, b, c, key) == (PutWord(st.mem, b, 0), true);
    }
  }

  /** Zeroing a head word removes exactly that bucket. */
  lemma RemovedHead(st: Store, a: Abstract, host: nat, vs: nat, b: nat)
    requires Represents(st, a, host, vs) && IsHead(b, host) && b + 8 <= |st.mem|
    ensures Represents(Store(PutWord(st.mem, b, 0), st.next), a.(buckets := a.buckets - {b}), host, vs)
    ensures b in a.buckets ==> NextAt(st.mem, vs, WordAt(st.mem, b)) == 0
  {
    hide WordAt, PutWord, PairAt, NextAt;
    var m' := PutWord(st.mem, b, 0);
    assert BucketHolds(st.mem, host, vs, st.next, a.buckets, b);
    forall b' | IsHead(b', host)
      ensures BucketHolds(m', host, vs, st.next, a.buckets - {b}, b')
      ensures b' != b ==> WordAt(m', b') == WordAt(st.mem, b')
    {
      if b' != b {
        assert BucketHolds(st.mem, host, vs, st.next, a.buckets, b');
        BucketSame(st.mem, m', host, vs, st.next, st.next, a.buckets, a.buckets - {b}, b');
      }
    }
    forall b1, b2 | b1 in a.buckets - {b} && b2 in a.buckets - {b} && b1 != b2
      ensures Apart(m', vs, b1, b2)
    {
      assert Apart(st.mem, vs, b1, b2);
    }
  }

  /** A memory whose head words are all zero represents the empty store. */
  lemma ZeroedIndexIsEmpty(m: Bytes, host: nat, vs: nat)
    requires Mapped(|m|, host) && forall b :: IsHead(b, host) ==> WordAt(m, b) == 0
    ensures Represents(Store(m, PartitionStart(host)), EMPTY, host, vs)
  {
  }

  function Inserts(ops: seq<Op>): nat {
    if ops == [] then 0 else Inserts(ops[..|ops| - 1]) + if ops[|ops| - 1].Insert? then 1 else 0
  }

  lemma InsertTakesOne(a: Abstract, host: nat, vs: nat, op: Op)
    requires Admissible(op, host, vs) && !op.Put?
    ensures var (a', answer) := AbstractStep(a, vs, op);
            && a'.used == a.used + (if op.Insert? && a.used < Capacity(vs) then 1 else 0)
            && (op.Insert? ==> (answer.ok <==> a.used < Capacity(vs)))
  {
    hide Capacity, Bucket;
  }

  /** From an empty store an insert succeeds exactly while fewer than Capacity(vs) inserts have gone
      before it, whatever the keys and whatever is looked up, updated or deleted in between; the i-th
      entry lies at the partition start plus i entry sizes. */
  lemma {:induction false} InsertsUntilFull(host: nat, vs: nat, ops: seq<Op>)
    requires forall op :: op in ops ==> Admissible(op, host, vs) && !op.Put?
    ensures var (a, answers) := AbstractRun(EMPTY, host, vs, ops);
            && a.used == (if Inserts(ops) <= Capacity(vs) then Inserts(ops) else Capacity(vs))
            && |answers| == |ops|
            && forall i :: 0 <= i < |ops| && ops[i].Insert? ==> (answers[i].ok <==> Inserts(ops[..i]) < Capacity(vs))
    decreases |ops|
  {
    hide Capacity, Admissible, AbstractStep;
    if ops != [] {
      var n := |ops| - 1;
      InsertsUntilFull(host, vs, ops[..n]);
      assert ops[n] in ops;
      InsertTakesOne(AbstractRun(EMPTY, host, vs, ops[..n]).0, host, vs, ops[n]);
      var answers := AbstractRun(EMPTY, host, vs, ops).1;
      forall i | 0 <= i <= n && ops[i].Insert?
        ensures answers[i].ok <==> Inserts(ops[..i]) < Capacity(vs)
      {
        if i < n {
          assert ops[..n][..i] == ops[..i] && ops[..n][i] == ops[i];
        }
      }
    }
  }

  /** A partition of 2^30 bytes holds as many entries of 72 bytes and the value as fit, and 3273603 of
      the default size. */
  lemma CapacityIs(vs: nat)
    ensures Capacity(vs) * (72 + vs) <= 0x4000_0000 < (Capacity(vs) + 1) * (72 + vs)
    ensures EntrySize(256) == 328 && Capacity(256) == 3273603
  {
    var q, es := Capacity(vs), EntrySize(vs);
    assert DATA_PARTITION_SIZE == q * es + DATA_PARTITION_SIZE % es;
    assert (q + 1) * es == q * es + es;
  }

  /** With 256-byte values the first 3273603 inserts succeed and no others. */
  lemma DefaultInsertsUntilFull(host: nat, ops: seq<Op>, i: nat)
    requires forall op :: op in ops ==> Admissible(op, host, 256) && !op.Put?
    requires i < |ops| && ops[i].Insert?
    ensures var (_, answers) := AbstractRun(EMPTY, host, 256, ops);
            |answers| == |ops| && (answers[i].ok <==> Inserts(ops[..i]) < 3273603)
  {
    hide Capacity, Admissible, AbstractRun;
    CapacityIs(256);
    InsertsUntilFull(host, 256, ops);
  }

  // ----- When the store is an ordinary key-value map -----

  /** m binds exactly the live keys to their values. */
  ghost predicate Live(a: Abstract, m: map<Bytes, Bytes>) {
    && (forall b :: b in a.buckets ==> |a.buckets[b].key| == KEY_SIZE && Bucket(a.buckets[b].key) == b)
    && (forall b :: b in a.buckets ==> a.buckets[b].key in m && m[a.buckets[b].key] == a.buckets[b].value)
    && (forall k :: k in m ==> |k| == KEY_SIZE && Bucket(k) in a.buckets && a.buckets[Bucket(k)].key == k)
  }

  /** An ordinary map with the store's capacity. */
  function MapStep(m: map<Bytes, Bytes>, used: nat, vs: nat, op: Op): (map<Bytes, Bytes>, nat, Answer) {
    match op
    case Insert(pair) =>
      if used >= Capacity(vs) then (m, used, Answer(false, []))
      else (m[pair.key := pair.value], used + 1, Answer(true, []))
    case Put(pair) =>
      if pair.key in m then (m[pair.key := pair.value], used, Answer(true, []))
      else if used >= Capacity(vs) then (m, used, Answer(false, []))
      else (m[pair.key := pair.value], used + 1, Answer(true, []))
    case Get(key, buffer) => (m, used, if key in m then Answer(true, m[key]) else Answer(false, buffer))
    case Update(pair) =>
      if pair.key in m then (m[pair.key := pair.value], used, Answer(true, [])) else (m, used, Answer(false, []))
    case Delete(key) => if key in m then (m - {key}, used, Answer(true, [])) else (m, used, Answer(false, []))
  }

  /** The operation allocates an entry in a bucket that holds a different key. */
  predicate Displaces(a: Abstract, vs: nat, op: Op)
    requires |op.Key()| == KEY_SIZE
  {
    (op.Insert? || op.Put?) && a.used < Capacity(vs) && Bucket(op.Key()) in a.buckets && !Present(a, op.Key())
  }

  /** Writing a pair into its bucket is binding its key exactly when no other key was there. */
  lemma LiveSet(a: Abstract, m: map<Bytes, Bytes>, pair: Pair, used: nat)
    requires |pair.key| == KEY_SIZE && Live(a, m)
    ensures Live(Abstract(a.buckets[Bucket(pair.key) := pair], used), m[pair.key := pair.value])
       <==> (Bucket(pair.key) in a.buckets ==> Present(a, pair.key))
  {
    hide Bucket;
    var b := Bucket(pair.key);
    var m' := m[pair.key := pair.value];
    if b in a.buckets && !Present(a, pair.key) {
      var victim := a.buckets[b].key;
      assert victim in m' && Bucket(victim) == b;
    }
  }

  lemma LiveRemove(a: Abstract, m: map<Bytes, Bytes>, key: Bytes)
    requires |key| == KEY_SIZE && Live(a, m) && Present(a, key)
    ensures Live(a.(buckets := a.buckets - {Bucket(key)}), m - {key})
  {
    hide Bucket;
  }

  lemma PresentIsLive(a: Abstract, m: map<Bytes, Bytes>, key: Bytes)
    requires |key| == KEY_SIZE && Live(a, m)
    ensures Present(a, key) <==> key in m
    ensures key in m ==> m[key] == a.buckets[Bucket(key)].value
    ensures forall used :: Live(Abstract(a.buckets, used), m)
  {
    hide Bucket;
  }

  /** Answers always agree with the ordinary map; the contents agree afterwards exactly when the
      operation displaced no other key. */
  lemma StepIsMapUnlessDisplacing(a: Abstract, m: map<Bytes, Bytes>, vs: nat, op: Op)
    requires |op.Key()| == KEY_SIZE && Live(a, m)
    ensures var (a', answer) := AbstractStep(a, vs, op);
            var (m', used', answer') := MapStep(m, a.used, vs, op);
            && answer == answer' && a'.used == used'
            && (Live(a', m') <==> !Displaces(a, vs, op))
  {
    hide Bucket, Live;
    PresentIsLive(a, m, op.Key());
    match op
    case Insert(pair) => LiveSet(a, m, pair, a.used + 1);
    case Put(pair) =>
      LiveSet(a, m, pair, a.used + 1);
      LiveSet(a, m, pair, a.used);
    case Get(key, buffer) =>
    case Update(pair) => LiveSet(a, m, pair, a.used);
    case Delete(key) =>
      if key in m {
        LiveRemove(a, m, key);
      }
  }

  function MapRun(m: map<Bytes, Bytes>, used: nat, vs: nat, ops: seq<Op>): (map<Bytes, Bytes>, nat, seq<Answer>)
    decreases |ops|
  {
    if ops == [] then (m, used, [])
    else
      var (m1, used1, answers) := MapRun(m, used, vs, ops[..|ops| - 1]);
      var (m2, used2, last) := MapStep(m1, used1, vs, ops[|ops| - 1]);
      (m2, used2, answers + [last])
  }

  predicate NeverDisplaces(a: Abstract, host: nat, vs: nat, ops: seq<Op>)
    requires forall op :: op in ops ==> Admissible(op, host, vs)
    decreases |ops|
  {
    ops != [] ==>
      && NeverDisplaces(a, host, vs, ops[..|ops| - 1])
      && Admissible(ops[|ops| - 1], host, vs)
      && !Displaces(AbstractRun(a, host, vs, ops[..|ops| - 1]).0, vs, ops[|ops| - 1])
  }

  /** Over every run in which no operation displaces a live key, the store is the ordinary map. */
  lemma {:induction false} RunIsMapWithoutDisplacement(a: Abstract, m: map<Bytes, Bytes>, host: nat, vs: nat,
                                                       ops: seq<Op>)
    requires Live(a, m) && (forall op :: op in ops ==> Admissible(op, host, vs)) && NeverDisplaces(a, host, vs, ops)
    ensures AbstractRun(a, host, vs, ops).1 == MapRun(m, a.used, vs, ops).2
    ensures AbstractRun(a, host, vs, ops).0.used == MapRun(m, a.used, vs, ops).1
    ensures Live(AbstractRun(a, host, vs, ops).0, MapRun(m, a.used, vs, ops).0)
    decreases |ops|
  {
    hide Live, Displaces, AbstractStep, MapStep, Bucket, ClearOf;
    if ops != [] {
      var n := |ops| - 1;
      RunIsMapWithoutDisplacement(a, m, host, vs, ops[..n]);
      StepIsMapUnlessDisplacing(AbstractRun(a, host, vs, ops[..n]).0, MapRun(m, a.used, vs, ops[..n]).0, vs, ops[n]);
    }
  }

  // ----- Which keys displace each other -----

  /** Whatever key is inserted, some other key displaces it: afterwards the first is gone. */
  lemma EveryKeyCanBeDisplaced(host: nat, vs: nat, pair: Pair, buffer: Bytes) returns (other: Pair)
    requires Admissible(Insert(pair), host, vs) && Capacity(vs) >= 2
    ensures Admissible(Insert(other), host, vs)
    ensures var a1 := AbstractStep(EMPTY, vs, Insert(pair)).0;
            var a2 := AbstractStep(a1, vs, Insert(other)).0;
            && AbstractStep(a1, vs, Get(pair.key, buffer)).1 == Answer(true, pair.value)
            && Displaces(a1, vs, Insert(other))
            && AbstractStep(a2, vs, Get(pair.key, buffer)).1 == Answer(false, buffer)
  {
    hide Bucket, PartitionId;
    var key := CollidingKey(pair.key);
    other := Pair(key, pair.value);
  }

  /** Equal, or different in byte 7 or in the low 17 bits. */
  predicate KeysApart(k1: Bytes, k2: Bytes)
    requires |k1| == KEY_SIZE && |k2| == KEY_SIZE
  {
    k1 == k2 || k1[7] != k2[7] || k1[0] != k2[0] || k1[1] != k2[1] || k1[2] as int % 2 != k2[2] as int % 2
  }

  predicate Allocates(op: Op) {
    op.Insert? || op.Put?
  }

  /** The keys that are inserted or put are pairwise apart. */
  ghost predicate AllKeysApart(ops: seq<Op>) {
    && (forall i :: 0 <= i < |ops| ==> |ops[i].Key()| == KEY_SIZE)
    && (forall i, j :: 0 <= i < j < |ops| && Allocates(ops[i]) && Allocates(ops[j]) ==>
        KeysApart(ops[i].Key(), ops[j].Key()))
  }

  /** A bucket's pair stems from an insert or put of its key. */
  lemma {:induction false} PairsStemFromOps(host: nat, vs: nat, ops: seq<Op>, b: nat)
    requires forall op :: op in ops ==> Admissible(op, host, vs)
    requires b in AbstractRun(EMPTY, host, vs, ops).0.buckets
    ensures exists i :: 0 <= i < |ops| && Allocates(ops[i])
                        && ops[i].Key() == AbstractRun(EMPTY, host, vs, ops).0.buckets[b].key
                        && |ops[i].Key()| == KEY_SIZE && Bucket(ops[i].Key()) == b
    decreases |ops|
  {
    hide Bucket, PartitionId;
    if ops != [] {
      var n := |ops| - 1;
      var before := AbstractRun(EMPTY, host, vs, ops[..n]).0;
      assert Admissible(ops[n], host, vs);
      if b in before.buckets {
        PairsStemFromOps(host, vs, ops[..n], b);
        var i :| 0 <= i < n && Allocates(ops[..n][i]) && ops[..n][i].Key() == before.buckets[b].key
            && Bucket(ops[..n][i].Key()) == b;
        assert ops[i] == ops[..n][i];
      }
    }
  }

  /** Operations whose keys are pairwise apart never displace anything. */
  lemma {:induction false} ApartKeysNeverDisplace(host: nat, vs: nat, ops: seq<Op>)
    requires (forall op :: op in ops ==> Admissible(op, host, vs)) && AllKeysApart(ops)
    ensures NeverDisplaces(EMPTY, host, vs, ops)
    decreases |ops|
  {
    hide Bucket, PartitionId, AbstractStep;
    if ops != [] {
      var n := |ops| - 1;
      var before := AbstractRun(EMPTY, host, vs, ops[..n]).0;
      assert Admissible(ops[n], host, vs);
      ApartKeysNeverDisplace(host, vs, ops[..n]);
      var b := Bucket(ops[n].Key());
      if b in before.buckets && Allocates(ops[n]) {
        PairsStemFromOps(host, vs, ops[..n], b);
        var i :| 0 <= i < n && Allocates(ops[..n][i]) && ops[..n][i].Key() == before.buckets[b].key
            && Bucket(ops[..n][i].Key()) == b;
        assert ops[i] == ops[..n][i];
        BucketsEqualOrDisjoint(ops[i].Key(), ops[n].Key());
        assert KeysApart(ops[i].Key(), ops[n].Key());
      }
    }
  }

  // ----- Whole runs of the store object -----

  /** One operation on the bytes, along the chain that the bucket's head word starts. */
  ghost function StoreStep(st: Store, a: Abstract, host: nat, vs: nat, op: Op): (r: (Store, Answer))
    requires Represents(st, a, host, vs) && Admissible(op, host, vs)
    ensures r.1 == AbstractStep(a, vs, op).1
    ensures Represents(r.0, AbstractStep(a, vs, op).0, host, vs)
  {
    hide Represents, GetPair, UpdatePair, DeletePair, InsertPair, Bucket, BucketChain, PartitionId;
    match op
    case Insert(pair) =>
      InsertRefines(st, a, host, vs, pair);
      var (st', ok) := InsertPair(st, host, vs, pair);
      (st', Answer(ok, []))
    case Put(pair) =>
      UpdateRefines(st, a, host, vs, pair);
      InsertRefines(st, a, host, vs, pair);
      var (st', ok) := PutPair(st, host, BucketChain(st.mem, Bucket(pair.key)), pair);
      (st', Answer(ok, []))
    case Get(key, buffer) =>
      GetRefines(st, a, host, vs, key, buffer);
      var (ok, value) := GetPair(st.mem, vs, BucketChain(st.mem, Bucket(key)), key, buffer);
      (st, Answer(ok, value))
    case Update(pair) =>
      UpdateRefines(st, a, host, vs, pair);
      var (m', ok) := UpdatePair(st.mem, vs, BucketChain(st.mem, Bucket(pair.key)), pair);
      (Store(m', st.next), Answer(ok, []))
    case Delete(key) =>
      DeleteRefines(st, a, host, vs, key);
      var (m', ok) := DeletePair(st.mem, vs, Bucket(key), BucketChain(st.mem, Bucket(key)), key);
      (Store(m', st.next), Answer(ok, []))
  }

  ghost function StoreRun(st: Store, a: Abstract, host: nat, vs: nat, ops: seq<Op>): (r: (Store, seq<Answer>))
    requires Represents(st, a, host, vs) && forall op :: op in ops ==> Admissible(op, host, vs)
    ensures r.1 == AbstractRun(a, host, vs, ops).1
    ensures Represents(r.0, AbstractRun(a, host, vs, ops).0, host, vs)
    decreases |ops|
  {
    hide Represents, StoreStep, AbstractStep, PartitionId;
    if ops == [] then (st, [])
    else
      var n := |ops| - 1;
      assert Admissible(ops[n], host, vs);
      var (st1, answers) := StoreRun(st, a, host, vs, ops[..n]);
      var (st2, last) := StoreStep(st1, AbstractRun(a, host, vs, ops[..n]).0, host, vs, ops[n]);
      (st2, answers + [last])
  }

  /** From a zeroed index, and with keys pairwise apart, the bytes answer every run exactly like an
      ordinary key-value map with the capacity of the partition. */
  lemma ZeroedStoreIsAMap(m: Bytes, host: nat, vs: nat, ops: seq<Op>)
    requires Mapped(|m|, host) && forall b :: IsHead(b, host) ==> WordAt(m, b) == 0
    requires (forall op :: op in ops ==> Admissible(op, host, vs)) && AllKeysApart(ops)
    ensures Represents(Store(m, PartitionStart(host)), EMPTY, host, vs)
    ensures var (st, answers) := StoreRun(Store(m, PartitionStart(host)), EMPTY, host, vs, ops);
            var (live, used, expected) := MapRun(map[], 0, vs, ops);
            && answers == expected
            && Represents(st, AbstractRun(EMPTY, host, vs, ops).0, host, vs)
            && Live(AbstractRun(EMPTY, host, vs, ops).0, live)
  {
    hide Represents, StoreStep, AbstractStep, MapStep, Bucket, PartitionId;
    ZeroedIndexIsEmpty(m, host, vs);
    ApartKeysNeverDisplace(host, vs, ops);
    RunIsMapWithoutDisplacement(EMPTY, map[], host, vs, ops);
  }

  /** Over every admissible run, the store object answers exactly like the bucket map, and its memory
      represents that map at the end. In particular exactly Capacity(valueSize) allocations succeed
      and the i-th of them sits at PartitionStart + i * entry size. */
  method Serve(store: GshmUpr, ops: seq<Op>, ghost a: Abstract) returns (answers: seq<Answer>)
    requires store.Valid() && !store.useBatch && Represents(store.State(), a, store.hostId, store.valueSize)
    requires forall op :: op in ops ==> Admissible(op, store.hostId, store.valueSize)
    modifies store, store.mem
    ensures store.Valid()
    ensures (store.State(), answers) == StoreRun(old(store.State()), a, store.hostId, store.valueSize, ops)
    ensures answers == AbstractRun(a, store.hostId, store.valueSize, ops).1
    ensures Represents(store.State(), AbstractRun(a, store.hostId, store.valueSize, ops).0, store.hostId,
                       store.valueSize)
  {
    hide Represents, StoreStep, AbstractStep, PartitionId;
    answers := [];
    ghost var st := store.State();
    ghost var now := a;
    var n := 0;
    assert ops[..0] == [];
    while n < |ops|
      invariant n <= |ops| && store.Valid()
      invariant StoreRun(st, a, store.hostId, store.valueSize, ops[..n]) == (store.State(), answers)
      invariant AbstractRun(a, store.hostId, store.valueSize, ops[..n]) == (now, answers)
    {
      assert Admissible(ops[n], store.hostId, store.valueSize);
      var answer := ServeOne(store, ops[n], now);
      assert ops[..n + 1][..n] == ops[..n] && ops[..n + 1][n] == ops[n];
      now := AbstractStep(now, store.valueSize, ops[n]).0;
      answers := answers + [answer];
      n := n + 1;
    }
    assert ops[..n] == ops;
  }

  method ServeOne(store: GshmUpr, op: Op, ghost a: Abstract) returns (answer: Answer)
    requires store.Valid() && !store.useBatch && Represents(store.State(), a, store.hostId, store.valueSize)
    requires Admissible(op, store.hostId, store.valueSize)
    modifies store, store.mem
    ensures store.Valid()
    ensures (store.State(), answer) == StoreStep(old(store.State()), a, store.hostId, store.valueSize, op)
  {
    hide Represents, GetPair, UpdatePair, DeletePair, InsertPair, Bucket, BucketChain, PartitionId, AbstractStep;
    ghost var st := store.State();
    var ok;
    match op
    case Insert(pair) =>
      ok := store.Insert(pair);
      answer := Answer(ok, []);
    case Put(pair) =>
      UpdateRefines(st, a, store.hostId, store.valueSize, pair);
      ok := store.Put(pair, BucketChain(st.mem, Bucket(pair.key)));
      answer := Answer(ok, []);
    case Get(key, buffer) =>
      GetRefines(st, a, store.hostId, store.valueSize, key, buffer);
      var value;
      ok, value := store.Get(key, buffer, BucketChain(st.mem, Bucket(key)));
      answer := Answer(ok, value);
    case Update(pair) =>
      UpdateRefines(st, a, store.hostId, store.valueSize, pair);
      ok := store.Update(pair, BucketChain(st.mem, Bucket(pair.key)));
      answer := Answer(ok, []);
    case Delete(key) =>
      DeleteRefines(st, a, store.hostId, store.valueSize, key);
      ok := store.Del(key, BucketChain(st.mem, Bucket(key)));
      answer := Answer(ok, []);
  }
}
