/** Protection is transparent: with tokens the table accepts and callers that hold a token for the
    entry they name, the protected store answers like the unprotected one and leaves the same bytes.
    Whether a run is authorised is read off the unprotected run alone. */
module Transparency {
  import opened Memory
  import opened Layout
  import opened Chains
  import opened UnprotectedStore
  import opened StoreRefinement
  import opened TableSpec
  import opened ProtectedStore
  import opened GshmObject
  import FibonacciHash
  import TableRuns

  /** What is fixed during a run: the build, the random source, the host and the value size. */
  datatype Env<!T> = Env(build: Build<T>, source: nat -> T, host: nat, vs: nat)

  datatype State<T> = State(mem: Bytes, next: nat, table: seq<Slot<T>>, drawn: nat)
  {
    function Data(): Store { Store(mem, next) }
  }

  /** An operation and the token its caller presents (unused by insert and put). */
  datatype Request<T> = Request(op: Op, token: T)

  // ----- One request on the protected store, guards and all -----

  predicate Walks(op: Op) {
    op.Get? || op.Update? || op.Delete?
  }

  /** get and update use the caller's token; del does so too, but only to read a word that is 0. */
  predicate UsesToken(op: Op) {
    op.Get? || op.Update?
  }

  predicate Shaped(data: Store, host: nat, vs: nat, op: Op) {
    && Mapped(|data.mem|, host) && PartitionStart(host) <= data.next && |op.Key()| == KEY_SIZE
    && (op.Insert? || op.Update? ==> |op.pair.value| == vs)
    && (op.Put? ==> |op.pair.value| == PUT_VALUE_SIZE)
  }

  /** put's walk from a state, given so many rounds. */
  ghost function PutWalkIn<T>(e: Env<T>, st: State<T>, key: Bytes, rounds: nat): (w: Walk<T>)
    requires |st.table| == HASH_TABLE_SIZE && |key| == KEY_SIZE && Bucket(key) + 8 <= |st.mem|
    ensures !w.Unfinished? ==> |w.table| == HASH_TABLE_SIZE
    ensures w.Hit? ==> Fits(st.mem, PUT_VALUE_SIZE, w.entry)
  {
    PutWalkFromHead(e.build, e.source, st.table, st.drawn, st.mem, key, rounds)
  }

  /** The operation's loop ends: the bucket it walks is a finite chain, and put's tokens let it through. */
  ghost predicate Runnable<T>(e: Env<T>, st: State<T>, op: Op) {
    && |st.table| == HASH_TABLE_SIZE && Shaped(st.Data(), e.host, e.vs, op) && Bucket(op.Key()) + 8 <= |st.mem|
    && (Walks(op) ==> exists c :: Chain(st.mem, e.vs, Bucket(op.Key()), c))
    && (op.Put? ==> exists rounds: nat :: !PutWalkIn(e, st, op.Key(), rounds).Unfinished?)
  }

  ghost function TheChain(m: Bytes, vs: nat, head: nat): (c: seq<nat>)
    requires exists c :: Chain(m, vs, head, c)
    ensures Chain(m, vs, head, c)
  {
    var c :| Chain(m, vs, head, c); c
  }

  ghost function Rounds<T>(e: Env<T>, st: State<T>, key: Bytes): (rounds: nat)
    requires |st.table| == HASH_TABLE_SIZE && |key| == KEY_SIZE && Bucket(key) + 8 <= |st.mem|
    requires exists rounds: nat :: !PutWalkIn(e, st, key, rounds).Unfinished?
    ensures !PutWalkIn(e, st, key, rounds).Unfinished?
  {
    var rounds: nat :| !PutWalkIn(e, st, key, rounds).Unfinished?; rounds
  }

  /** The regions an operation on a bucket with this chain acquires tokens for; for put, when its
      tokens are accepted. */
  ghost function Needs(host: nat, vs: nat, data: Store, chain: seq<nat>, op: Op): seq<Region>
    requires |op.Key()| == KEY_SIZE && AllFit(data.mem, if op.Put? then PUT_VALUE_SIZE else vs, chain)
  {
    var head := Bucket(op.Key());
    match op
    case Insert(pair) => InsertRegions(head, data.next, vs, host)
    case Put(pair) => PutRegions(data.mem, head, chain, pair.key, data.next, host)
    case Get(key, _) => WalkRegions(head, EntrySize(vs), chain, Visited(Pairs(data.mem, vs, chain), key), READ)
    case Update(pair) =>
      WalkRegions(head, EntrySize(vs), chain, Visited(Pairs(data.mem, vs, chain), pair.key), READ_WRITE)
    case Delete(key) => []
  }

  /** One request, whatever its tokens are worth. */
  ghost function Step<T>(e: Env<T>, st: State<T>, r: Request<T>): (s: (State<T>, Answer))
    requires Runnable(e, st, r.op)
    ensures |s.0.table| == HASH_TABLE_SIZE && |s.0.mem| == |st.mem|
  {
    var head := Bucket(r.op.Key());
    var chain := if Walks(r.op) then TheChain(st.mem, e.vs, head) else [];
    var regions := if r.op.Put? then [] else Needs(e.host, e.vs, st.Data(), chain, r.op);
    var table := Acquires(e.build, e.source, st.table, st.drawn, regions);
    var drawn := st.drawn + |regions|;
    match r.op
    case Insert(pair) =>
      if st.next + EntrySize(e.vs) > PartitionEnd(e.host) then (State(st.mem, st.next, table, drawn), Answer(false, []))
      else
        var m := GuardedPublish(e.build, table, st.mem, e.vs, st.next, pair, e.source(st.drawn),
                                e.source(st.drawn + 1));
        (State(m, st.next + EntrySize(e.vs), table, drawn), Answer(true, []))
    case Put(pair) =>
      var w := PutWalkIn(e, st, pair.key, Rounds(e, st, pair.key));
      var p := ProtectedPut(e.build, e.source, w, e.source(st.drawn), st.Data(), e.host, pair);
      (State(p.data.mem, p.data.next, p.table, p.drawn), Answer(p.ok, []))
    case Get(key, buffer) =>
      var (ok, value) := ProtectedGet(e.build, table, st.mem, e.vs, chain, key, buffer, r.token);
      (State(st.mem, st.next, table, drawn), Answer(ok, value))
    case Update(pair) =>
      var (m, ok) := ProtectedUpdate(e.build, table, st.mem, e.vs, chain, pair, r.token);
      (State(m, st.next, table, drawn), Answer(ok, []))
    case Delete(key) =>
      var (m, ok) := ProtectedDelete(e.build, table, st.mem, e.vs, head, chain, key, r.token);
      (State(m, st.next, table, drawn), Answer(ok, []))
  }

  // ----- Runs, authorised or not -----

  /** The protected run, as long as every operation's loop ends. */
  ghost function Run<T>(e: Env<T>, st: State<T>, requests: seq<Request<T>>): (s: (State<T>, seq<Answer>))
    requires RunnableRun(e, st, requests)
    ensures |s.0.table| == HASH_TABLE_SIZE && |s.0.mem| == |st.mem|
    decreases |requests|, 1
  {
    hide Step, Runnable;
    if requests == [] then (st, [])
    else
      var n := |requests| - 1;
      var (st1, answers) := Run(e, st, requests[..n]);
      var (st2, last) := Step(e, st1, requests[n]);
      (st2, answers + [last])
  }

  ghost predicate RunnableRun<T>(e: Env<T>, st: State<T>, requests: seq<Request<T>>)
    decreases |requests|, 0
  {
    && |st.table| == HASH_TABLE_SIZE
    && (requests != [] ==>
          var n := |requests| - 1;
          RunnableRun(e, st, requests[..n]) && Runnable(e, Run(e, st, requests[..n]).0, requests[n].op))
  }

  lemma PutKeepsLookup<T>(e: Env<T>, st: State<T>, pair: Pair, rounds: nat, k: T)
    requires |st.table| == HASH_TABLE_SIZE && WellFormedPair(pair, PUT_VALUE_SIZE) && Mapped(|st.mem|, e.host)
             && Bucket(pair.key) + 8 <= |st.mem|
    requires !PutWalkIn(e, st, pair.key, rounds).Unfinished? && Lookup(e.build, st.table, k).Some?
    ensures var p := ProtectedPut(e.build, e.source, PutWalkIn(e, st, pair.key, rounds), e.source(st.drawn),
                                  st.Data(), e.host, pair);
            Lookup(e.build, p.table, k) == Lookup(e.build, st.table, k)
  {
    hide TableSpec.Insert, Granted, Lookup, Bucket, GuardedPublish, GuardedWrite, PutWalk, WordAt;
    var region := Region(Bucket(pair.key), 8, READ_WRITE);
    var t := TableSpec.Insert(e.build, st.table, e.source(st.drawn), region).0;
    InsertKeepsLookup(e.build, st.table, k, e.source(st.drawn), region);
    var entry := if Granted(e.build, t, e.source(st.drawn), Bucket(pair.key), 8, READ)
        then WordAt(st.mem, Bucket(pair.key)) else 0;
    PutWalkKeepsLookup(e.build, e.source, t, st.drawn + 1, st.mem, pair.key, entry, rounds, k);
    var w := PutWalkIn(e, st, pair.key, rounds);
    InsertKeepsLookup(e.build, w.table, k, e.source(w.drawn), Region(st.next, EntrySize(PUT_VALUE_SIZE), READ_WRITE));
  }

  lemma StepKeepsLookup<T>(e: Env<T>, st: State<T>, r: Request<T>, k: T)
    requires Runnable(e, st, r.op) && Lookup(e.build, st.table, k).Some?
    ensures Lookup(e.build, Step(e, st, r).0.table, k) == Lookup(e.build, st.table, k)
  {
    hide Lookup, Acquires, Bucket, Needs, ProtectedGet, ProtectedUpdate, ProtectedDelete, GuardedPublish,
         ProtectedPut, PutWalkIn, Chain;
    if r.op.Put? {
      PutKeepsLookup(e, st, r.op.pair, Rounds(e, st, r.op.Key()), k);
    } else {
      var chain := if Walks(r.op) then TheChain(st.mem, e.vs, Bucket(r.op.Key())) else [];
      assert AllFit(st.mem, e.vs, chain) by {
        if Walks(r.op) {
          WalkStart(st.mem, e.vs, Bucket(r.op.Key()), chain);
        }
      }
      AcquiresKeepLookup(e.build, e.source, st.table, st.drawn, Needs(e.host, e.vs, st.Data(), chain, r.op), k);
    }
  }

  /** No run of store operations, authorised or refused, changes what an existing token permits. */
  lemma {:induction false} RunKeepsLookup<T>(e: Env<T>, st: State<T>, requests: seq<Request<T>>, k: T)
    requires RunnableRun(e, st, requests) && Lookup(e.build, st.table, k).Some?
    ensures Lookup(e.build, Run(e, st, requests).0.table, k) == Lookup(e.build, st.table, k)
    decreases |requests|
  {
    hide Step, Runnable, Lookup;
    if requests != [] {
      var n := |requests| - 1;
      RunKeepsLookup(e, st, requests[..n], k);
      StepKeepsLookup(e, Run(e, st, requests[..n]).0, requests[n], k);
    }
  }

  // ----- Authorised requests -----

  /** In a represented store every bucket's chain is the one of at most one entry, and the match is
      that entry. */
  lemma OnlyChain(st: Store, a: Abstract, host: nat, vs: nat, op: Op)
    requires Represents(st, a, host, vs) && Admissible(op, host, vs)
    ensures Shaped(st, host, vs, op) && Bucket(op.Key()) + 8 <= |st.mem|
    ensures var chain := BucketChain(st.mem, Bucket(op.Key()));
            && Chain(st.mem, vs, Bucket(op.Key()), chain)
            && (forall c :: Chain(st.mem, vs, Bucket(op.Key()), c) ==> c == chain)
            && var i := Find(Pairs(st.mem, vs, chain), op.Key(), 0);
               && (i < |chain| <==> Present(a, op.Key()))
               && (i < |chain| ==> chain[i] == WordAt(st.mem, Bucket(op.Key())))
  {
    hide Bucket, WordAt, Chain, PartitionId;
    var head := Bucket(op.Key());
    BucketIsHead(op.Key(), host);
    BucketIsChain(st, a, host, vs, head);
    var chain := BucketChain(st.mem, head);
    FindSingle(Pairs(st.mem, vs, chain), op.Key());
    forall c | Chain(st.mem, vs, head, c)
      ensures c == chain
    {
      WalkStart(st.mem, vs, head, c);
      WalkStart(st.mem, vs, head, chain);
      ChainUnique(st.mem, vs, head, c, chain, 0);
    }
  }

  /** What an operation of the unprotected store would need tokens for. */
  ghost function BucketNeeds(st: Store, a: Abstract, host: nat, vs: nat, op: Op): seq<Region>
    requires Represents(st, a, host, vs) && Admissible(op, host, vs)
  {
    OnlyChain(st, a, host, vs, op);
    Needs(host, vs, st, BucketChain(st.mem, Bucket(op.Key())), op)
  }

  /** What transparency asks of one request: insert and put need tokens the table accepts, and insert
      room for a new entry (it exits the process otherwise); get and update need the caller's token to
      open the bytes they touch, if the key is there; del needs nothing. */
  ghost predicate Authorised<T>(e: Env<T>, st: State<T>, a: Abstract, r: Request<T>)
    requires |st.table| == HASH_TABLE_SIZE
    requires Represents(st.Data(), a, e.host, e.vs) && Admissible(r.op, e.host, e.vs)
  {
    match r.op
    case Insert(_) =>
      a.used < Capacity(e.vs) && Accepted(e.build, e.source, st.table, st.drawn,
                                          BucketNeeds(st.Data(), a, e.host, e.vs, r.op))
    case Put(_) => Accepted(e.build, e.source, st.table, st.drawn, BucketNeeds(st.Data(), a, e.host, e.vs, r.op))
    case Delete(_) => true
    case _ =>
      Present(a, r.op.Key()) ==>
        var (p, n, bit) := Touches(st.Data(), a, e.host, e.vs, r.op);
        Granted(e.build, st.table, r.token, p, n, bit)
  }

  /** The one range that get and update use under the caller's token, and what for. */
  ghost function Touches(st: Store, a: Abstract, host: nat, vs: nat, op: Op): (r: (nat, nat, nat))
    requires Represents(st, a, host, vs) && Admissible(op, host, vs) && UsesToken(op)
    ensures r.2 == READ || r.2 == WRITE
  {
    OnlyChain(st, a, host, vs, op);
    var entry := WordAt(st.mem, Bucket(op.Key()));
    match op
    case Get(_, _) => (entry + KEY_SIZE, vs, READ)
    case Update(_) => (entry + KEY_SIZE, vs, WRITE)
  }

  /** The state after a request whose guards made no difference. */
  ghost predicate Follows<T>(e: Env<T>, st: State<T>, a: Abstract, r: Request<T>)
    requires |st.table| == HASH_TABLE_SIZE && Represents(st.Data(), a, e.host, e.vs) && Admissible(r.op, e.host, e.vs)
  {
    var regions := BucketNeeds(st.Data(), a, e.host, e.vs, r.op);
    && Runnable(e, st, r.op)
    && var (st', answer) := Step(e, st, r);
       && (st'.Data(), answer) == StoreStep(st.Data(), a, e.host, e.vs, r.op)
       && st'.table == Acquires(e.build, e.source, st.table, st.drawn, regions) && st'.drawn == st.drawn + |regions|
  }

  /** One authorised request answers like the unprotected store and leaves the same bytes. */
  lemma StepIsTransparent<T>(e: Env<T>, st: State<T>, a: Abstract, r: Request<T>)
    requires |st.table| == HASH_TABLE_SIZE
    requires Represents(st.Data(), a, e.host, e.vs) && Admissible(r.op, e.host, e.vs) && Authorised(e, st, a, r)
    ensures Follows(e, st, a, r)
  {
    hide Represents, Bucket, WordAt, PartitionId, Accepted, Acquires, Granted, GuardedPublish, Publish, Find, Pairs,
         Present, Chain, PutWalkIn, ProtectedPut, ProtectedGet, ProtectedUpdate, ProtectedDelete, GetPair, UpdatePair,
         DeletePair, PutPair;
    OnlyChain(st.Data(), a, e.host, e.vs, r.op);
    match r.op
    case Insert(pair) => InsertTransparent(e, st, a, pair);
    case Put(pair) => PutTransparent(e, st, a, pair);
    case _ => WalkTransparent(e, st, a, r);
  }

  lemma WalkTransparent<T>(e: Env<T>, st: State<T>, a: Abstract, r: Request<T>)
    requires |st.table| == HASH_TABLE_SIZE && Walks(r.op)
    requires Represents(st.Data(), a, e.host, e.vs) && Admissible(r.op, e.host, e.vs) && Authorised(e, st, a, r)
    ensures Follows(e, st, a, r)
  {
    hide Represents, Bucket, WordAt, PartitionId, Accepted, Acquires, Granted, Find, Pairs, Present,
         Chain, PutWalkIn, ProtectedPut, ProtectedGet, ProtectedUpdate, ProtectedDelete, GetPair, UpdatePair,
         DeletePair, PutPair;
    OnlyChain(st.Data(), a, e.host, e.vs, r.op);
    var head := Bucket(r.op.Key());
    var chain := BucketChain(st.mem, head);
    assert Runnable(e, st, r.op) && TheChain(st.mem, e.vs, head) == chain;
    WalkStart(st.mem, e.vs, head, chain);
    var regions := BucketNeeds(st.Data(), a, e.host, e.vs, r.op);
    var table := Acquires(e.build, e.source, st.table, st.drawn, regions);
    if UsesToken(r.op) && Present(a, r.op.Key()) {
      var (p, n, bit) := Touches(st.Data(), a, e.host, e.vs, r.op);
      AcquiresKeepGranted(e.build, e.source, st.table, st.drawn, regions, r.token, p, n, bit);
    }
    match r.op
    case Get(key, buffer) => GetTransparentIff(e.build, table, st.mem, e.vs, chain, key, buffer, r.token);
    case Update(pair) => UpdateTransparentIff(e.build, table, st.mem, e.vs, chain, pair, r.token);
    case Delete(key) => DeleteIsUnguarded(e.build, table, st.Data(), a, e.host, e.vs, key, r.token);
  }

  /** In every represented store, hence after every authorised run, del carries out the requested
      removal whatever token its caller presents: the one word it reads under that token is 0 anyway. */
  lemma DeleteIsUnguarded<T>(b: Build<T>, table: seq<Slot<T>>, st: Store, a: Abstract, host: nat, vs: nat, key: Bytes,
                             k: T)
    requires |table| == HASH_TABLE_SIZE && Represents(st, a, host, vs) && Admissible(Delete(key), host, vs)
    ensures Bucket(key) + 8 <= |st.mem|
    ensures var chain := BucketChain(st.mem, Bucket(key));
            && Chain(st.mem, vs, Bucket(key), chain)
            && ProtectedDelete(b, table, st.mem, vs, Bucket(key), chain, key, k)
               == DeletePair(st.mem, vs, Bucket(key), chain, key)
            && (ProtectedDelete(b, table, st.mem, vs, Bucket(key), chain, key, k).1 <==> Present(a, key))
  {
    hide Represents, Bucket, WordAt, PartitionId, Granted, Find, Pairs, Present, ProtectedDelete, DeletePair;
    OnlyChain(st, a, host, vs, Delete(key));
    var chain := BucketChain(st.mem, Bucket(key));
    DeleteTransparentIff(b, table, st.mem, vs, Bucket(key), chain, key, k);
    DeleteFound(st, a, host, vs, key);
    if |chain| == 1 {
      assert NextAt(st.mem, vs, chain[0]) == Link(chain, 1);
    }
  }

  lemma DeleteFound(st: Store, a: Abstract, host: nat, vs: nat, key: Bytes)
    requires Represents(st, a, host, vs) && Admissible(Delete(key), host, vs)
    ensures Bucket(key) + 8 <= |st.mem|
    ensures var chain := BucketChain(st.mem, Bucket(key));
            Chain(st.mem, vs, Bucket(key), chain)
                && (DeletePair(st.mem, vs, Bucket(key), chain, key).1 <==> Present(a, key))
  {
    hide Represents, Bucket, WordAt, PartitionId;
    DeleteRefines(st, a, host, vs, key);
  }

  lemma PutTransparent<T>(e: Env<T>, st: State<T>, a: Abstract, pair: Pair)
    requires |st.table| == HASH_TABLE_SIZE && Represents(st.Data(), a, e.host, e.vs)
             && Admissible(Put(pair), e.host, e.vs)
    requires Accepted(e.build, e.source, st.table, st.drawn, BucketNeeds(st.Data(), a, e.host, e.vs, Put(pair)))
    ensures forall k :: Follows(e, st, a, Request(Put(pair), k))
  {
    hide Represents, Bucket, WordAt, PartitionId, Accepted, Acquires, Granted, Find, Pairs, Present, Chain,
         ProtectedPut, PutPair,
         PutRegions, PutWalk, PutWalkIn;
    OnlyChain(st.Data(), a, e.host, e.vs, Put(pair));
    var chain := BucketChain(st.mem, Bucket(pair.key));
    AcceptedPutIsPut(e.build, e.source, st.table, st.drawn, st.Data(), e.host, chain, pair, |chain|);
    PutWalkInIs(e, st, pair.key, |chain|);
    assert Runnable(e, st, Put(pair));
    PutWalkInIs(e, st, pair.key, Rounds(e, st, pair.key));
    PutWalkInStable(e, st, pair.key, |chain|, Rounds(e, st, pair.key));
  }

  lemma PutWalkInIs<T>(e: Env<T>, st: State<T>, key: Bytes, rounds: nat)
    requires |st.table| == HASH_TABLE_SIZE && |key| == KEY_SIZE && Bucket(key) + 8 <= |st.mem|
    ensures PutWalkIn(e, st, key, rounds) == PutWalkFromHead(e.build, e.source, st.table, st.drawn, st.mem, key, rounds)
  {
  }

  lemma PutWalkInStable<T>(e: Env<T>, st: State<T>, key: Bytes, r1: nat, r2: nat)
    requires |st.table| == HASH_TABLE_SIZE && |key| == KEY_SIZE && Bucket(key) + 8 <= |st.mem|
    requires !PutWalkIn(e, st, key, r1).Unfinished? && !PutWalkIn(e, st, key, r2).Unfinished?
    ensures PutWalkIn(e, st, key, r1) == PutWalkIn(e, st, key, r2)
  {
    hide TableSpec.Insert, Granted, Bucket, WordAt, PutWalk;
    if r1 > r2 {
      PutWalkInStable(e, st, key, r2, r1);
    } else {
      var t := TableSpec.Insert(e.build, st.table, e.source(st.drawn), Region(Bucket(key), 8, READ_WRITE)).0;
      var entry := if Granted(e.build, t, e.source(st.drawn), Bucket(key), 8, READ)
        then WordAt(st.mem, Bucket(key)) else 0;
      PutWalkStable(e.build, e.source, t, st.drawn + 1, st.mem, key, entry, r1, r2);
    }
  }

  lemma InsertTransparent<T>(e: Env<T>, st: State<T>, a: Abstract, pair: Pair)
    requires |st.table| == HASH_TABLE_SIZE && Represents(st.Data(), a, e.host, e.vs)
             && Admissible(Insert(pair), e.host, e.vs)
    requires a.used < Capacity(e.vs)
    requires Accepted(e.build, e.source, st.table, st.drawn, BucketNeeds(st.Data(), a, e.host, e.vs, Insert(pair)))
    ensures forall k :: Follows(e, st, a, Request(Insert(pair), k))
  {
    hide Bucket, Accepted, Acquires, Granted, GuardedPublish, Publish, BucketHolds, Apart, PartitionId, Represents,
         Chain, Find, Pairs, PutWalkIn;
    RoomForOne(st.Data(), a, e.host, e.vs);
    OnlyChain(st.Data(), a, e.host, e.vs, Insert(pair));
    PublishWhenAccepted(e.build, e.source, st.table, st.drawn, st.mem, e.vs, st.next, pair,
                        InsertRegions(Bucket(pair.key), st.next, e.vs, e.host), 0, 1);
  }

  lemma RoomForOne(st: Store, a: Abstract, host: nat, vs: nat)
    requires Represents(st, a, host, vs) && a.used < Capacity(vs)
    ensures st.next + EntrySize(vs) <= PartitionEnd(host) <= |st.mem| < U64
  {
    RoomLeft(a.used, host, vs);
  }

  // ----- Authorised runs -----

  function Ops<T>(requests: seq<Request<T>>): (ops: seq<Op>)
    ensures |ops| == |requests|
    ensures forall i :: 0 <= i < |ops| ==> ops[i] == requests[i].op
  {
    seq(|requests|, i requires 0 <= i < |requests| => requests[i].op)
  }

  ghost predicate AllAdmissible(ops: seq<Op>, host: nat, vs: nat) {
    forall op :: op in ops ==> Admissible(op, host, vs)
  }

  lemma AdmissibleAt(ops: seq<Op>, host: nat, vs: nat, n: nat)
    requires AllAdmissible(ops, host, vs) && n <= |ops|
    ensures AllAdmissible(ops[..n], host, vs)
    ensures n < |ops| ==>
              && Admissible(ops[n], host, vs) && AllAdmissible(ops[..n + 1], host, vs)
              && ops[..n + 1][..n] == ops[..n]
  {
    hide Admissible;
    if n < |ops| {
      assert ops[n] in ops;
    }
  }

  /** All regions that the run of the unprotected store would need tokens for, in order. */
  ghost function Plan(st: Store, a: Abstract, host: nat, vs: nat, ops: seq<Op>): seq<Region>
    requires Represents(st, a, host, vs) && AllAdmissible(ops, host, vs)
    decreases |ops|
  {
    if ops == [] then []
    else
      var n := |ops| - 1;
      AdmissibleAt(ops, host, vs, n);
      Plan(st, a, host, vs, ops[..n])
      + BucketNeeds(StoreRun(st, a, host, vs, ops[..n]).0, AbstractRun(a, host, vs, ops[..n]).0, host, vs, ops[n])
  }

  /** The state that the unprotected run and these acquisitions lead to. */
  ghost function Planned<T>(e: Env<T>, st: State<T>, a: Abstract, ops: seq<Op>): (s: State<T>)
    requires |st.table| == HASH_TABLE_SIZE && Represents(st.Data(), a, e.host, e.vs) && AllAdmissible(ops, e.host, e.vs)
    ensures |s.table| == HASH_TABLE_SIZE && s.Data() == StoreRun(st.Data(), a, e.host, e.vs, ops).0
    ensures Represents(s.Data(), AbstractRun(a, e.host, e.vs, ops).0, e.host, e.vs)
  {
    hide Represents, PartitionId;
    var data := StoreRun(st.Data(), a, e.host, e.vs, ops).0;
    var plan := Plan(st.Data(), a, e.host, e.vs, ops);
    State(data.mem, data.next, Acquires(e.build, e.source, st.table, st.drawn, plan), st.drawn + |plan|)
  }

  ghost predicate AuthorisedAt<T>(e: Env<T>, st: State<T>, a: Abstract, requests: seq<Request<T>>, n: nat)
    requires |st.table| == HASH_TABLE_SIZE && Represents(st.Data(), a, e.host, e.vs)
    requires AllAdmissible(Ops(requests), e.host, e.vs) && n < |requests|
  {
    var ops := Ops(requests)[..n];
    AdmissibleAt(Ops(requests), e.host, e.vs, n);
    Authorised(e, Planned(e, st, a, ops), AbstractRun(a, e.host, e.vs, ops).0, requests[n])
  }

  /** Every request is authorised when its turn comes, as told from the unprotected run. */
  ghost predicate AuthorisedRun<T>(e: Env<T>, st: State<T>, a: Abstract, requests: seq<Request<T>>)
    requires |st.table| == HASH_TABLE_SIZE && Represents(st.Data(), a, e.host, e.vs)
             && AllAdmissible(Ops(requests), e.host, e.vs)
  {
    forall n :: 0 <= n < |requests| ==> AuthorisedAt(e, st, a, requests, n)
  }

  lemma AuthorisedPrefix<T>(e: Env<T>, st: State<T>, a: Abstract, requests: seq<Request<T>>, k: nat)
    requires |st.table| == HASH_TABLE_SIZE && Represents(st.Data(), a, e.host, e.vs)
             && AllAdmissible(Ops(requests), e.host, e.vs)
    requires AuthorisedRun(e, st, a, requests) && k <= |requests|
    ensures Ops(requests[..k]) == Ops(requests)[..k] && AllAdmissible(Ops(requests[..k]), e.host, e.vs)
    ensures AuthorisedRun(e, st, a, requests[..k])
  {
    hide Represents, Admissible, Authorised, Planned, AbstractRun;
    assert Ops(requests[..k]) == Ops(requests)[..k];
    AdmissibleAt(Ops(requests), e.host, e.vs, k);
    forall n | 0 <= n < k
      ensures AuthorisedAt(e, st, a, requests[..k], n)
    {
      assert AuthorisedAt(e, st, a, requests, n);
      assert Ops(requests[..k])[..n] == Ops(requests)[..n];
    }
  }

  lemma PlannedNone<T>(e: Env<T>, st: State<T>, a: Abstract)
    requires |st.table| == HASH_TABLE_SIZE && Represents(st.Data(), a, e.host, e.vs)
    ensures Planned(e, st, a, []) == st && StoreRun(st.Data(), a, e.host, e.vs, []).1 == []
  {
    hide Represents;
  }

  /** How one planned state follows from the one before. */
  lemma NextPlanned<T>(e: Env<T>, st: State<T>, a: Abstract, ops: seq<Op>)
    requires |st.table| == HASH_TABLE_SIZE && Represents(st.Data(), a, e.host, e.vs)
             && AllAdmissible(ops, e.host, e.vs) && ops != []
    ensures var all := ops[..|ops| - 1];
            && AllAdmissible(all, e.host, e.vs) && Admissible(ops[|ops| - 1], e.host, e.vs)
            && var before := Planned(e, st, a, all);
               var a1 := AbstractRun(a, e.host, e.vs, all).0;
               var needs := BucketNeeds(before.Data(), a1, e.host, e.vs, ops[|ops| - 1]);
               var (data, answer) := StoreStep(before.Data(), a1, e.host, e.vs, ops[|ops| - 1]);
               && Planned(e, st, a, ops)
                  == State(data.mem, data.next, Acquires(e.build, e.source, before.table, before.drawn, needs),
                           before.drawn + |needs|)
               && StoreRun(st.Data(), a, e.host, e.vs, ops).1 == StoreRun(st.Data(), a, e.host, e.vs, all).1 + [answer]
  {
    hide Represents, StoreStep, StoreRun, AbstractRun, AbstractStep, Plan, Admissible, BucketNeeds, Acquires;
    var data, all := st.Data(), ops[..|ops| - 1];
    RunsMore(data, a, e.host, e.vs, ops);
    AcquiresConcat(e.build, e.source, st.table, st.drawn, Plan(data, a, e.host, e.vs, all),
                   BucketNeeds(StoreRun(data, a, e.host, e.vs, all).0, AbstractRun(a, e.host, e.vs, all).0, e.host,
                               e.vs, ops[|ops| - 1]));
  }

  /** One authorised request leads from one planned state to the next. */
  lemma PlannedMore<T>(e: Env<T>, st: State<T>, a: Abstract, ops: seq<Op>, r: Request<T>)
    requires |st.table| == HASH_TABLE_SIZE && Represents(st.Data(), a, e.host, e.vs)
    requires AllAdmissible(ops, e.host, e.vs) && ops != [] && r.op == ops[|ops| - 1]
    requires AllAdmissible(ops[..|ops| - 1], e.host, e.vs) && Admissible(r.op, e.host, e.vs)
    requires Follows(e, Planned(e, st, a, ops[..|ops| - 1]), AbstractRun(a, e.host, e.vs, ops[..|ops| - 1]).0, r)
    ensures var (s, answer) := Step(e, Planned(e, st, a, ops[..|ops| - 1]), r);
            && s == Planned(e, st, a, ops)
            && StoreRun(st.Data(), a, e.host, e.vs, ops).1
               == StoreRun(st.Data(), a, e.host, e.vs, ops[..|ops| - 1]).1 + [answer]
  {
    hide Represents, Step, StoreStep, StoreRun, AbstractRun, Planned, Admissible, AbstractStep, Runnable, BucketNeeds,
         Acquires;
    NextPlanned(e, st, a, ops);
  }

  lemma RunsMore(st: Store, a: Abstract, host: nat, vs: nat, ops: seq<Op>)
    requires Represents(st, a, host, vs) && AllAdmissible(ops, host, vs) && ops != []
    ensures var n := |ops| - 1;
            && AllAdmissible(ops[..n], host, vs) && Admissible(ops[n], host, vs)
            && var data := StoreRun(st, a, host, vs, ops[..n]).0;
               var a1 := AbstractRun(a, host, vs, ops[..n]).0;
               var (data', answer) := StoreStep(data, a1, host, vs, ops[n]);
               && StoreRun(st, a, host, vs, ops) == (data', StoreRun(st, a, host, vs, ops[..n]).1 + [answer])
               && Plan(st, a, host, vs, ops)
                  == Plan(st, a, host, vs, ops[..n]) + BucketNeeds(data, a1, host, vs, ops[n])
  {
    hide Represents, StoreStep, PartitionId, Admissible, AbstractStep, BucketNeeds;
    AdmissibleAt(ops, host, vs, |ops| - 1);
  }

  /** Over every authorised run, for any build: every loop ends, and answers, bytes and allocator are
      those of the unprotected run. */
  lemma {:induction false} ProtectionIsTransparent<T>(e: Env<T>, st: State<T>, a: Abstract, requests: seq<Request<T>>)
    requires |st.table| == HASH_TABLE_SIZE && Represents(st.Data(), a, e.host, e.vs)
    requires AllAdmissible(Ops(requests), e.host, e.vs) && AuthorisedRun(e, st, a, requests)
    ensures RunnableRun(e, st, requests)
    ensures Run(e, st, requests) == (Planned(e, st, a, Ops(requests)),
                                     StoreRun(st.Data(), a, e.host, e.vs, Ops(requests)).1)
    ensures Run(e, st, requests).0.Data() == StoreRun(st.Data(), a, e.host, e.vs, Ops(requests)).0
    decreases |requests|
  {
    hide Represents, Step, StoreStep, PartitionId, Admissible, AbstractStep, Runnable, Authorised, AbstractRun,
         StoreRun, Planned, AuthorisedRun;
    if requests == [] {
      assert Ops(requests) == [];
      PlannedNone(e, st, a);
    } else {
      var n := |requests| - 1;
      AuthorisedPrefix(e, st, a, requests, n);
      ProtectionIsTransparent(e, st, a, requests[..n]);
      LastAuthorised(e, st, a, requests);
      var ops := Ops(requests);
      AdmissibleAt(ops, e.host, e.vs, n);
      StepIsTransparent(e, Planned(e, st, a, ops[..n]), AbstractRun(a, e.host, e.vs, ops[..n]).0, requests[n]);
      PlannedMore(e, st, a, ops, requests[n]);
    }
  }

  lemma LastAuthorised<T>(e: Env<T>, st: State<T>, a: Abstract, requests: seq<Request<T>>)
    requires |st.table| == HASH_TABLE_SIZE && Represents(st.Data(), a, e.host, e.vs) && requests != []
    requires AllAdmissible(Ops(requests), e.host, e.vs) && AuthorisedRun(e, st, a, requests)
    ensures var n := |requests| - 1;
            && AllAdmissible(Ops(requests)[..n], e.host, e.vs)
            && Admissible(requests[n].op, e.host, e.vs)
            && Authorised(e, Planned(e, st, a, Ops(requests)[..n]),
                          AbstractRun(a, e.host, e.vs, Ops(requests)[..n]).0, requests[n])
  {
    hide Represents, Authorised, Planned, AbstractRun, Admissible;
    AdmissibleAt(Ops(requests), e.host, e.vs, |requests| - 1);
    assert AuthorisedAt(e, st, a, requests, |requests| - 1);
  }

  // ----- Fresh tokens authorise whole runs -----

  /** The next n tokens are distinct and in no valid slot. */
  ghost predicate Fresh<T>(e: Env<T>, st: State<T>, n: nat) {
    && (forall i :: 0 <= i < n ==> Absent(st.table, Upcoming(e.source, st.drawn, i)))
    && (forall i, j :: 0 <= i < j < n ==> Upcoming(e.source, st.drawn, i) != Upcoming(e.source, st.drawn, j))
  }

  /** insert exits the process on a full partition, so at each insert one entry must still fit. */
  ghost predicate HasRoomAt(a: Abstract, host: nat, vs: nat, ops: seq<Op>, n: nat)
    requires AllAdmissible(ops, host, vs) && n < |ops|
  {
    AdmissibleAt(ops, host, vs, n);
    ops[n].Insert? ==> AbstractRun(a, host, vs, ops[..n]).0.used < Capacity(vs)
  }

  /** A token that opens the range: reserved or granted from the start, or drawn earlier in the run
      for a region that covers it. */
  ghost predicate Opens<T>(e: Env<T>, st: State<T>, drawnFor: seq<Region>, k: T, p: nat, n: nat, bit: nat)
    requires |st.table| == HASH_TABLE_SIZE && (bit == READ || bit == WRITE)
  {
    || Granted(e.build, st.table, k, p, n, bit)
    || exists i :: 0 <= i < |drawnFor| && k == Upcoming(e.source, st.drawn, i) && Inside(drawnFor[i], p, n)
                   && drawnFor[i].permission == READ_WRITE
  }

  /** The n-th request is not a get or update, or its key is not there, or its caller's token opens
      what it touches. */
  ghost predicate CallerHolds<T>(e: Env<T>, st: State<T>, a: Abstract, requests: seq<Request<T>>, n: nat)
    requires |st.table| == HASH_TABLE_SIZE && Represents(st.Data(), a, e.host, e.vs)
    requires AllAdmissible(Ops(requests), e.host, e.vs) && n < |requests|
  {
    var ops := Ops(requests)[..n];
    AdmissibleAt(Ops(requests), e.host, e.vs, n);
    var data, a1 := StoreRun(st.Data(), a, e.host, e.vs, ops).0, AbstractRun(a, e.host, e.vs, ops).0;
    UsesToken(requests[n].op) && Present(a1, requests[n].op.Key()) ==>
      var (p, size, bit) := Touches(data, a1, e.host, e.vs, requests[n].op);
      Opens(e, st, Plan(st.Data(), a, e.host, e.vs, ops), requests[n].token, p, size, bit)
  }

  lemma {:induction false} PlanPrefix(st: Store, a: Abstract, host: nat, vs: nat, ops: seq<Op>, n: nat)
    requires Represents(st, a, host, vs) && AllAdmissible(ops, host, vs) && n <= |ops|
    ensures AllAdmissible(ops[..n], host, vs)
    ensures Plan(st, a, host, vs, ops[..n]) <= Plan(st, a, host, vs, ops)
    decreases |ops|
  {
    hide Represents, Admissible, BucketNeeds, StoreRun, AbstractRun;
    AdmissibleAt(ops, host, vs, n);
    if n == |ops| {
      assert ops[..n] == ops;
    } else {
      RunsMore(st, a, host, vs, ops);
      PlanPrefix(st, a, host, vs, ops[..|ops| - 1], n);
      assert ops[..|ops| - 1][..n] == ops[..n];
    }
  }

  /** The part of an accepted plan that belongs to one request. */
  lemma PlanPart<T>(e: Env<T>, st: State<T>, a: Abstract, ops: seq<Op>, n: nat)
    requires |st.table| == HASH_TABLE_SIZE && Represents(st.Data(), a, e.host, e.vs)
             && AllAdmissible(ops, e.host, e.vs) && n < |ops|
    requires Accepted(e.build, e.source, st.table, st.drawn, Plan(st.Data(), a, e.host, e.vs, ops))
    ensures AllAdmissible(ops[..n], e.host, e.vs) && Admissible(ops[n], e.host, e.vs)
    ensures Accepted(e.build, e.source, st.table, st.drawn, Plan(st.Data(), a, e.host, e.vs, ops[..n]))
    ensures var s := Planned(e, st, a, ops[..n]);
            var needs := BucketNeeds(s.Data(), AbstractRun(a, e.host, e.vs, ops[..n]).0, e.host, e.vs, ops[n]);
            Accepted(e.build, e.source, s.table, s.drawn, needs)
  {
    hide Represents, Admissible, BucketNeeds, StoreRun, AbstractRun, Plan, Accepted, Acquires;
    PlanSplit(st.Data(), a, e.host, e.vs, ops, n);
    var whole, before := Plan(st.Data(), a, e.host, e.vs, ops), Plan(st.Data(), a, e.host, e.vs, ops[..n]);
    var needs := BucketNeeds(StoreRun(st.Data(), a, e.host, e.vs, ops[..n]).0,
                             AbstractRun(a, e.host, e.vs, ops[..n]).0, e.host, e.vs, ops[n]);
    PrefixAccepted(e.build, e.source, st.table, st.drawn, whole, before);
    PrefixAccepted(e.build, e.source, st.table, st.drawn, whole, before + needs);
    AcceptedConcat(e.build, e.source, st.table, st.drawn, before, needs);
  }

  lemma PrefixAccepted<T>(b: Build<T>, source: nat -> T, table: seq<Slot<T>>, drawn: nat, whole: seq<Region>,
                          part: seq<Region>)
    requires |table| == HASH_TABLE_SIZE && Accepted(b, source, table, drawn, whole) && part <= whole
    ensures Accepted(b, source, table, drawn, part)
  {
    hide Accepted;
    AcceptedPrefix(b, source, table, drawn, whole, |part|);
    assert whole[..|part|] == part;
  }

  lemma PlanSplit(st: Store, a: Abstract, host: nat, vs: nat, ops: seq<Op>, n: nat)
    requires Represents(st, a, host, vs) && AllAdmissible(ops, host, vs) && n < |ops|
    ensures AllAdmissible(ops[..n], host, vs) && Admissible(ops[n], host, vs)
    ensures Plan(st, a, host, vs, ops[..n]) <= Plan(st, a, host, vs, ops)
    ensures Plan(st, a, host, vs, ops[..n])
          + BucketNeeds(StoreRun(st, a, host, vs, ops[..n]).0, AbstractRun(a, host, vs, ops[..n]).0, host, vs,
                        ops[n]) <= Plan(st, a, host, vs, ops)
  {
    hide Represents, Admissible, BucketNeeds, StoreRun, AbstractRun, Plan;
    AdmissibleAt(ops, host, vs, n);
    PlanPrefix(st, a, host, vs, ops, n);
    PlanPrefix(st, a, host, vs, ops, n + 1);
    RunsMore(st, a, host, vs, ops[..n + 1]);
  }

  lemma OpensStays<T>(e: Env<T>, st: State<T>, plan: seq<Region>, k: T, p: nat, n: nat, bit: nat)
    requires |st.table| == HASH_TABLE_SIZE && (bit == READ || bit == WRITE) && Opens(e, st, plan, k, p, n, bit)
    requires Accepted(e.build, e.source, st.table, st.drawn, plan)
    ensures Granted(e.build, Acquires(e.build, e.source, st.table, st.drawn, plan), k, p, n, bit)
  {
    hide Granted, Accepted, Acquires;
    if Granted(e.build, st.table, k, p, n, bit) {
      AcquiresKeepGranted(e.build, e.source, st.table, st.drawn, plan, k, p, n, bit);
    } else {
      var i :| 0 <= i < |plan| && k == Upcoming(e.source, st.drawn, i) && Inside(plan[i], p, n)
          && plan[i].permission == READ_WRITE;
      AcceptedMayAccess(e.build, e.source, st.table, st.drawn, plan, i, p, n, bit);
    }
  }

  /** A stream whose next tokens are distinct and unused, a table with room for them, a partition with
      room at every insert, and callers that hold what they were issued: then every request of the run
      is authorised. */
  lemma FreshRunIsAuthorised<T(!new)>(e: Env<T>, st: State<T>, a: Abstract, requests: seq<Request<T>>)
    requires |st.table| == HASH_TABLE_SIZE && Represents(st.Data(), a, e.host, e.vs)
             && AllAdmissible(Ops(requests), e.host, e.vs)
    requires var n := |Plan(st.Data(), a, e.host, e.vs, Ops(requests))|;
             Fresh(e, st, n) && |ValidSlots(st.table)| + n <= HASH_TABLE_SIZE
    requires forall n :: 0 <= n < |requests| ==>
               HasRoomAt(a, e.host, e.vs, Ops(requests), n) && CallerHolds(e, st, a, requests, n)
    ensures AuthorisedRun(e, st, a, requests)
  {
    hide Represents, Admissible, BucketNeeds, StoreRun, AbstractRun, Plan, Accepted, Acquires, Touches, Opens,
         ValidSlots, Absent;
    FreshTokensAreAccepted(e.build, e.source, st.table, st.drawn, Plan(st.Data(), a, e.host, e.vs, Ops(requests)));
    forall n | 0 <= n < |requests|
      ensures AuthorisedAt(e, st, a, requests, n)
    {
      PlanPart(e, st, a, Ops(requests), n);
      assert HasRoomAt(a, e.host, e.vs, Ops(requests), n) && CallerHolds(e, st, a, requests, n);
      HoldingIsAuthorised(e, st, a, requests, n);
    }
  }

  lemma HoldingIsAuthorised<T>(e: Env<T>, st: State<T>, a: Abstract, requests: seq<Request<T>>, n: nat)
    requires |st.table| == HASH_TABLE_SIZE && Represents(st.Data(), a, e.host, e.vs)
    requires AllAdmissible(Ops(requests), e.host, e.vs) && n < |requests|
    requires HasRoomAt(a, e.host, e.vs, Ops(requests), n) && CallerHolds(e, st, a, requests, n)
    requires AllAdmissible(Ops(requests)[..n], e.host, e.vs) && Admissible(requests[n].op, e.host, e.vs)
    requires Accepted(e.build, e.source, st.table, st.drawn, Plan(st.Data(), a, e.host, e.vs, Ops(requests)[..n]))
    requires var s := Planned(e, st, a, Ops(requests)[..n]);
             Accepted(e.build, e.source, s.table, s.drawn,
                      BucketNeeds(s.Data(), AbstractRun(a, e.host, e.vs, Ops(requests)[..n]).0, e.host, e.vs,
                                  requests[n].op))
    ensures AuthorisedAt(e, st, a, requests, n)
  {
    hide Represents, BucketNeeds, StoreRun, AbstractRun, Plan, Accepted, Acquires, Touches, Opens, Granted, Bucket,
         PartitionId;
    var r := requests[n];
    var ops := Ops(requests)[..n];
    var a1 := AbstractRun(a, e.host, e.vs, ops).0;
    var s := Planned(e, st, a, ops);
    if UsesToken(r.op) && Present(a1, r.op.Key()) {
      var (p, size, bit) := Touches(s.Data(), a1, e.host, e.vs, r.op);
      OpensStays(e, st, Plan(st.Data(), a, e.host, e.vs, ops), r.token, p, size, bit);
    }
  }

  /** So a run on fresh tokens is the unprotected run, for any build. */
  lemma FreshRunIsTransparent<T(!new)>(e: Env<T>, st: State<T>, a: Abstract, requests: seq<Request<T>>)
    requires |st.table| == HASH_TABLE_SIZE && Represents(st.Data(), a, e.host, e.vs)
             && AllAdmissible(Ops(requests), e.host, e.vs)
    requires var n := |Plan(st.Data(), a, e.host, e.vs, Ops(requests))|;
             Fresh(e, st, n) && |ValidSlots(st.table)| + n <= HASH_TABLE_SIZE
    requires forall n :: 0 <= n < |requests| ==>
               HasRoomAt(a, e.host, e.vs, Ops(requests), n) && CallerHolds(e, st, a, requests, n)
    ensures RunnableRun(e, st, requests)
    ensures var (st', answers) := Run(e, st, requests);
            (st'.Data(), answers) == StoreRun(st.Data(), a, e.host, e.vs, Ops(requests))
  {
    hide Represents, Admissible, StoreRun, AbstractRun, Plan, ValidSlots, Fresh, Run, RunnableRun, AuthorisedRun;
    FreshRunIsAuthorised(e, st, a, requests);
    ProtectionIsTransparent(e, st, a, requests);
  }

  // ----- The 16-bit build -----

  /** Acquisitions keep every valid slot a home. */
  lemma {:induction false} AcquiresKeepHomed(source: nat -> FibonacciHash.Token16,
                                             table: seq<Slot<FibonacciHash.Token16>>, drawn: nat, regions: seq<Region>)
    requires |table| == HASH_TABLE_SIZE && TableRuns.Homed(TableRuns.Build16(), table)
    ensures TableRuns.Homed(TableRuns.Build16(), Acquires(TableRuns.Build16(), source, table, drawn, regions))
    decreases |regions|
  {
    hide TableSpec.Insert, TableRuns.Homed;
    if regions != [] {
      var n := |regions| - 1;
      AcquiresKeepHomed(source, table, drawn, regions[..n]);
      TableRuns.HomedStaysHomed(Acquires(TableRuns.Build16(), source, table, drawn, regions[..n]),
                                TableRuns.Issue(source(drawn + n), regions[n]));
    }
  }

  lemma {:induction false} PutWalkKeepsHomed(source: nat -> FibonacciHash.Token16,
                                             table: seq<Slot<FibonacciHash.Token16>>, drawn: nat, m: Bytes,
                                             key: Bytes, entry: nat, rounds: nat)
    requires |table| == HASH_TABLE_SIZE && |key| == KEY_SIZE && TableRuns.Homed(TableRuns.Build16(), table)
    requires !PutWalk(TableRuns.Build16(), source, table, drawn, m, key, entry, rounds).Unfinished?
    ensures TableRuns.Homed(TableRuns.Build16(),
                            PutWalk(TableRuns.Build16(), source, table, drawn, m, key, entry, rounds).table)
    decreases rounds
  {
    hide TableSpec.Insert, Granted, TableRuns.Homed, KeyAt, NextAt;
    if entry != 0 {
      var b := TableRuns.Build16();
      var region := Region(entry, EntrySize(PUT_VALUE_SIZE), READ_WRITE);
      var t := TableSpec.Insert(b, table, source(drawn), region).0;
      TableRuns.HomedStaysHomed(table, TableRuns.Issue(source(drawn), region));
      if !(Granted(b, t, source(drawn), entry, KEY_SIZE, READ) && KeyAt(m, PUT_VALUE_SIZE, entry) == key) {
        var next := if Granted(b, t, source(drawn), entry + KEY_SIZE + PUT_VALUE_SIZE, 8, READ)
            then NextAt(m, PUT_VALUE_SIZE, entry) else entry;
        PutWalkKeepsHomed(source, t, drawn + 1, m, key, next, rounds - 1);
      }
    }
  }

  lemma PutKeepsHomed(e: Env<FibonacciHash.Token16>, st: State<FibonacciHash.Token16>, pair: Pair, rounds: nat)
    requires e.build == TableRuns.Build16() && |st.table| == HASH_TABLE_SIZE && TableRuns.Homed(e.build, st.table)
    requires WellFormedPair(pair, PUT_VALUE_SIZE) && Mapped(|st.mem|, e.host) && Bucket(pair.key) + 8 <= |st.mem|
    requires !PutWalkIn(e, st, pair.key, rounds).Unfinished?
    ensures var w := PutWalkIn(e, st, pair.key, rounds);
            TableRuns.Homed(e.build, ProtectedPut(e.build, e.source, w, e.source(st.drawn), st.Data(), e.host,
                                                  pair).table)
  {
    hide TableSpec.Insert, Granted, TableRuns.Homed, Bucket, GuardedPublish, GuardedWrite, PutWalk, WordAt;
    var region := Region(Bucket(pair.key), 8, READ_WRITE);
    var t := TableSpec.Insert(e.build, st.table, e.source(st.drawn), region).0;
    TableRuns.HomedStaysHomed(st.table, TableRuns.Issue(e.source(st.drawn), region));
    var entry := if Granted(e.build, t, e.source(st.drawn), Bucket(pair.key), 8, READ)
        then WordAt(st.mem, Bucket(pair.key)) else 0;
    PutWalkKeepsHomed(e.source, t, st.drawn + 1, st.mem, pair.key, entry, rounds);
    var w := PutWalkIn(e, st, pair.key, rounds);
    TableRuns.HomedStaysHomed(w.table,
                              TableRuns.Issue(e.source(w.drawn),
                                              Region(st.next, EntrySize(PUT_VALUE_SIZE), READ_WRITE)));
  }

  lemma StepKeepsHomed(e: Env<FibonacciHash.Token16>, st: State<FibonacciHash.Token16>,
                       r: Request<FibonacciHash.Token16>)
    requires e.build == TableRuns.Build16() && Runnable(e, st, r.op) && TableRuns.Homed(e.build, st.table)
    ensures TableRuns.Homed(e.build, Step(e, st, r).0.table)
  {
    hide TableRuns.Homed, Acquires, Bucket, Needs, ProtectedGet, ProtectedUpdate, ProtectedDelete, GuardedPublish,
         ProtectedPut, PutWalkIn, Chain;
    if r.op.Put? {
      PutKeepsHomed(e, st, r.op.pair, Rounds(e, st, r.op.Key()));
    } else {
      var chain := if Walks(r.op) then TheChain(st.mem, e.vs, Bucket(r.op.Key())) else [];
      assert AllFit(st.mem, e.vs, chain) by {
        if Walks(r.op) {
          WalkStart(st.mem, e.vs, Bucket(r.op.Key()), chain);
        }
      }
      AcquiresKeepHomed(e.source, st.table, st.drawn, Needs(e.host, e.vs, st.Data(), chain, r.op));
    }
  }

  /** In the 16-bit build no run of store operations, authorised or refused, moves a token off its home. */
  lemma {:induction false} RunKeepsHomed(e: Env<FibonacciHash.Token16>, st: State<FibonacciHash.Token16>,
                                         requests: seq<Request<FibonacciHash.Token16>>)
    requires e.build == TableRuns.Build16() && RunnableRun(e, st, requests) && TableRuns.Homed(e.build, st.table)
    ensures TableRuns.Homed(e.build, Run(e, st, requests).0.table)
    decreases |requests|
  {
    hide Step, Runnable, TableRuns.Homed;
    if requests != [] {
      var n := |requests| - 1;
      RunKeepsHomed(e, st, requests[..n]);
      StepKeepsHomed(e, Run(e, st, requests[..n]).0, requests[n]);
    }
  }

  /** There are only so many distinct tokens. */
  lemma DistinctTokens(e: Env<FibonacciHash.Token16>, drawn: nat, n: nat) returns (drawnTokens: set<int>)
    requires forall i, j :: 0 <= i < j < n ==> Upcoming(e.source, drawn, i) != Upcoming(e.source, drawn, j)
    ensures |drawnTokens| == n && forall k :: k in drawnTokens ==>
              exists i :: 0 <= i < n && Upcoming(e.source, drawn, i) as int == k
  {
    drawnTokens := {};
    for m := 0 to n
      invariant |drawnTokens| == m && forall k :: k in drawnTokens ==>
                  exists i :: 0 <= i < m && Upcoming(e.source, drawn, i) as int == k
    {
      assert Upcoming(e.source, drawn, m) as int !in drawnTokens;
      drawnTokens := drawnTokens + {Upcoming(e.source, drawn, m) as int};
    }
  }

  /** In the 16-bit build room is no condition: valid slots lie among the homes, and no more distinct
      tokens can be drawn than there are tokens. */
  lemma FreshIn16BitBuild(e: Env<FibonacciHash.Token16>, st: State<FibonacciHash.Token16>, n: nat)
    requires |st.table| == HASH_TABLE_SIZE && TableRuns.Homed(TableRuns.Build16(), st.table) && Fresh(e, st, n)
    ensures |ValidSlots(st.table)| + n <= HASH_TABLE_SIZE
  {
    hide TableRuns.Homed, ValidSlots, Absent;
    TableRuns.HomedHasRoom(st.table);
    var drawnTokens := DistinctTokens(e, st.drawn, n);
    var all := Indices(0x1_0000);
    forall k | k in drawnTokens
      ensures k in all
    {
      var i :| 0 <= i < n && Upcoming(e.source, st.drawn, i) as int == k;
    }
    SubsetSize(drawnTokens, all);
  }

  /** Hence, from a table whose valid slots are homes (a cleared one, or one that any run of table
      operations or acquisitions has left), distinct unused tokens are enough; and the run leaves such
      a table again. */
  lemma FreshRunIn16BitBuild(e: Env<FibonacciHash.Token16>, st: State<FibonacciHash.Token16>, a: Abstract,
                             requests: seq<Request<FibonacciHash.Token16>>)
    requires e.build == TableRuns.Build16() && |st.table| == HASH_TABLE_SIZE
             && TableRuns.Homed(TableRuns.Build16(), st.table)
    requires Represents(st.Data(), a, e.host, e.vs) && AllAdmissible(Ops(requests), e.host, e.vs)
    requires Fresh(e, st, |Plan(st.Data(), a, e.host, e.vs, Ops(requests))|)
    requires forall n :: 0 <= n < |requests| ==>
               HasRoomAt(a, e.host, e.vs, Ops(requests), n) && CallerHolds(e, st, a, requests, n)
    ensures RunnableRun(e, st, requests)
    ensures var (st', answers) := Run(e, st, requests);
            && (st'.Data(), answers) == StoreRun(st.Data(), a, e.host, e.vs, Ops(requests))
            && TableRuns.Homed(TableRuns.Build16(), st'.table)
  {
    hide Represents, Admissible, StoreRun, AbstractRun, Plan, ValidSlots, Fresh, Run, RunnableRun, AuthorisedRun,
         TableRuns.Homed, Acquires;
    FreshIn16BitBuild(e, st, |Plan(st.Data(), a, e.host, e.vs, Ops(requests))|);
    FreshRunIsAuthorised(e, st, a, requests);
    ProtectionIsTransparent(e, st, a, requests);
    AcquiresKeepHomed(e.source, st.table, st.drawn, Plan(st.Data(), a, e.host, e.vs, Ops(requests)));
  }

  // ----- The token that insert returns -----

  /** It opens the whole new entry. */
  lemma InsertIssuesToken<T>(e: Env<T>, st: State<T>, a: Abstract, r: Request<T>)
    requires |st.table| == HASH_TABLE_SIZE && Represents(st.Data(), a, e.host, e.vs) && Admissible(r.op, e.host, e.vs)
    requires r.op.Insert? && Authorised(e, st, a, r)
    ensures var k := e.source(st.drawn + 1);
            var table := Acquires(e.build, e.source, st.table, st.drawn, BucketNeeds(st.Data(), a, e.host, e.vs, r.op));
            k == e.build.global || Lookup(e.build, table, k) == Some(Region(st.next, EntrySize(e.vs), READ_WRITE))
  {
    hide Represents, Lookup, Acquires, Accepted, Bucket, PartitionId, Chain, Find, Pairs;
    RoomForOne(st.Data(), a, e.host, e.vs);
    AcceptedIsFound(e.build, e.source, st.table, st.drawn, BucketNeeds(st.Data(), a, e.host, e.vs, r.op), 1);
  }

  /** The table of a planned state keeps what an earlier planned state's table held. */
  lemma PlannedKeepsLookup<T>(e: Env<T>, st: State<T>, a: Abstract, ops: seq<Op>, i: nat, n: nat, k: T)
    requires |st.table| == HASH_TABLE_SIZE && Represents(st.Data(), a, e.host, e.vs)
             && AllAdmissible(ops, e.host, e.vs) && i <= n <= |ops|
    ensures AllAdmissible(ops[..i], e.host, e.vs) && AllAdmissible(ops[..n], e.host, e.vs)
    ensures var early, late := Planned(e, st, a, ops[..i]).table, Planned(e, st, a, ops[..n]).table;
            Lookup(e.build, early, k).Some? ==> Lookup(e.build, late, k) == Lookup(e.build, early, k)
  {
    hide Represents, Admissible, StoreRun, AbstractRun, Plan, Acquires, Lookup;
    AdmissibleAt(ops, e.host, e.vs, i);
    AdmissibleAt(ops, e.host, e.vs, n);
    assert ops[..n][..i] == ops[..i];
    PlanPrefix(st.Data(), a, e.host, e.vs, ops[..n], i);
    var before, whole := Plan(st.Data(), a, e.host, e.vs, ops[..i]), Plan(st.Data(), a, e.host, e.vs, ops[..n]);
    var rest := whole[|before|..];
    assert whole == before + rest;
    AcquiresConcat(e.build, e.source, st.table, st.drawn, before, rest);
    if Lookup(e.build, Planned(e, st, a, ops[..i]).table, k).Some? {
      AcquiresKeepLookup(e.build, e.source, Planned(e, st, a, ops[..i]).table, st.drawn + |before|, rest, k);
    }
  }

  /** The token that the i-th operation, an insert, returns. */
  ghost function ReturnedToken<T>(e: Env<T>, st: State<T>, a: Abstract, ops: seq<Op>, i: nat): T
    requires Represents(st.Data(), a, e.host, e.vs) && AllAdmissible(ops, e.host, e.vs) && i < |ops|
  {
    AdmissibleAt(ops, e.host, e.vs, i);
    e.source(st.drawn + |Plan(st.Data(), a, e.host, e.vs, ops[..i])| + 1)
  }

  /** The bucket of the n-th operation still leads to the entry that the i-th laid out. */
  ghost predicate StillLeads(st: Store, a: Abstract, host: nat, vs: nat, ops: seq<Op>, i: nat, n: nat)
    requires Represents(st, a, host, vs) && AllAdmissible(ops, host, vs) && i < n < |ops|
  {
    AdmissibleAt(ops, host, vs, i);
    AdmissibleAt(ops, host, vs, n);
    var m := StoreRun(st, a, host, vs, ops[..n]).0.mem;
    Bucket(ops[n].Key()) + 8 <= |m| && WordAt(m, Bucket(ops[n].Key())) == StoreRun(st, a, host, vs, ops[..i]).0.next
  }

  /** End to end: however an authorised run goes on after its i-th request, an insert, as long as the
      new entry is still the one its bucket leads to, the token that insert returned authorises get and
      update of the key (and del, which needs none). */
  lemma InsertedTokenServes<T>(e: Env<T>, st: State<T>, a: Abstract, requests: seq<Request<T>>, i: nat, n: nat)
    requires |st.table| == HASH_TABLE_SIZE && Represents(st.Data(), a, e.host, e.vs)
             && AllAdmissible(Ops(requests), e.host, e.vs)
    requires i < n < |requests| && forall j :: 0 <= j < n ==> AuthorisedAt(e, st, a, requests, j)
    requires requests[i].op.Insert? && Walks(requests[n].op) && requests[n].op.Key() == requests[i].op.Key()
    requires requests[n].token == ReturnedToken(e, st, a, Ops(requests), i)
    requires StillLeads(st.Data(), a, e.host, e.vs, Ops(requests), i, n)
    ensures AuthorisedAt(e, st, a, requests, n)
  {
    hide Represents, Lookup, StoreRun, AbstractRun, Plan, Acquires, Bucket, WordAt, Permits, Accepted, BucketNeeds,
         PartitionId;
    var ops := Ops(requests);
    AdmissibleAt(ops, e.host, e.vs, i);
    AdmissibleAt(ops, e.host, e.vs, n);
    assert AuthorisedAt(e, st, a, requests, i);
    var s := Planned(e, st, a, ops[..i]);
    var a1 := AbstractRun(a, e.host, e.vs, ops[..i]).0;
    InsertIssuesToken(e, s, a1, requests[i]);
    RoomForOne(s.Data(), a1, e.host, e.vs);
    IssuedAfter(e, st, a, ops, i, n, requests[n].token);
    var region := Region(s.next, EntrySize(e.vs), READ_WRITE);
    InsidePermits(region, s.next + KEY_SIZE, e.vs, READ);
    InsidePermits(region, s.next + KEY_SIZE, e.vs, WRITE);
  }

  /** What the i-th operation's acquisitions put into the table is still there at the n-th. */
  lemma IssuedAfter<T>(e: Env<T>, st: State<T>, a: Abstract, ops: seq<Op>, i: nat, n: nat, k: T)
    requires |st.table| == HASH_TABLE_SIZE && Represents(st.Data(), a, e.host, e.vs)
             && AllAdmissible(ops, e.host, e.vs) && i < n <= |ops|
    ensures AllAdmissible(ops[..i], e.host, e.vs) && Admissible(ops[i], e.host, e.vs)
            && AllAdmissible(ops[..n], e.host, e.vs)
    ensures var s := Planned(e, st, a, ops[..i]);
            var needs := BucketNeeds(s.Data(), AbstractRun(a, e.host, e.vs, ops[..i]).0, e.host, e.vs, ops[i]);
            var issued := Lookup(e.build, Acquires(e.build, e.source, s.table, s.drawn, needs), k);
            issued.Some? ==> Lookup(e.build, Planned(e, st, a, ops[..n]).table, k) == issued
  {
    hide Represents, Admissible, StoreRun, StoreStep, AbstractRun, Planned, Acquires, Lookup, BucketNeeds;
    AdmissibleAt(ops, e.host, e.vs, i);
    AdmissibleAt(ops, e.host, e.vs, n);
    NextPlanned(e, st, a, ops[..i + 1]);
    PlannedKeepsLookup(e, st, a, ops, i + 1, n, k);
  }

  // ----- A token drawn twice -----

  /** A run that goes wrong with a token source that repeats, as 16-bit tokens do: an authorised insert,
      then another whose entry token was drawn for the first. The second also succeeds and returns that
      token, but none of its entry is written: its bucket leads to the bytes that lay there before. */
  lemma RepeatedTokenLosesAnInsert<T>(e: Env<T>, st: State<T>, a: Abstract, first: Request<T>, second: Request<T>)
    requires |st.table| == HASH_TABLE_SIZE && Represents(st.Data(), a, e.host, e.vs) && e.vs > 0
    requires Admissible(first.op, e.host, e.vs) && first.op.Insert? && Authorised(e, st, a, first)
    requires Admissible(second.op, e.host, e.vs) && second.op.Insert? && a.used + 1 < Capacity(e.vs)
    requires e.source(st.drawn + 3) == e.source(st.drawn + 1) != e.build.global
    requires Runnable(e, st, first.op)
    requires var table := Step(e, st, first).0.table;
             TableSpec.Insert(e.build, table, e.source(st.drawn + 2),
                              Region(Bucket(second.op.Key()), 8, READ_WRITE)).1 == 0
    ensures var s1 := Step(e, st, first).0;
            && Runnable(e, s1, second.op)
            && var (s2, answer) := Step(e, s1, second);
               && answer.ok && Fits(s1.mem, e.vs, s1.next) && Bucket(second.op.Key()) + 8 <= |s2.mem|
               && WordAt(s2.mem, Bucket(second.op.Key())) == s1.next
               && PairAt(s2.mem, e.vs, s1.next) == PairAt(s1.mem, e.vs, s1.next)
  {
    hide Represents, Bucket, WordAt, PartitionId, Accepted, Acquires, Granted, GuardedPublish, TableSpec.Insert,
         Lookup, PairAt, Authorised, StoreStep, Chain;
    StepIsTransparent(e, st, a, first);
    var s1 := Step(e, st, first).0;
    var a1 := AbstractStep(a, e.vs, first.op).0;
    InsertIssuesToken(e, st, a, first);
    FirstInsert(e, st, a, first);
    RoomForOne(s1.Data(), a1, e.host, e.vs);
    OnlyChain(s1.Data(), a1, e.host, e.vs, second.op);
    BucketClearOfPartition(second.op.Key(), e.host);
    RepeatedTokenPublishesOldBytes(e.build, e.source, s1.table, s1.drawn, s1.mem, e.vs, s1.next, second.op.pair,
                                   e.host);
  }

  lemma FirstInsert<T>(e: Env<T>, st: State<T>, a: Abstract, first: Request<T>)
    requires |st.table| == HASH_TABLE_SIZE && Represents(st.Data(), a, e.host, e.vs)
             && Admissible(first.op, e.host, e.vs)
    requires first.op.Insert? && a.used < Capacity(e.vs) && Runnable(e, st, first.op)
    ensures var s1 := Step(e, st, first).0;
            && s1.next == st.next + EntrySize(e.vs) && s1.drawn == st.drawn + 2
            && AbstractStep(a, e.vs, first.op).0.used == a.used + 1
  {
    hide Bucket, WordAt, PartitionId, Accepted, Acquires, GuardedPublish, Represents, Chain;
    RoomForOne(st.Data(), a, e.host, e.vs);
  }

  // ----- The protected store object -----

  ghost function EnvOf<T>(p: Gshm<T>): Env<T> {
    Env(p.build, p.source, p.hostId, p.valueSize)
  }

  ghost function StateOf<T>(p: Gshm<T>): State<T>
    reads p, p.mem, p.table
  {
    State(p.mem[..], p.nextFreeOffset, p.table[..], p.drawn)
  }

  method ServeInsert<T(==)>(p: Gshm<T>, r: Request<T>) returns (answer: Answer)
    requires p.Valid() && !p.useBatch && r.op.Insert? && Runnable(EnvOf(p), StateOf(p), r.op)
    modifies p, p.mem, p.table
    ensures p.Valid()
    ensures (StateOf(p), answer) == Step(EnvOf(p), old(StateOf(p)), r)
  {
    hide Bucket, WordAt, PartitionId, Acquires, Granted, GuardedPublish, ProtectedGet, ProtectedUpdate,
         ProtectedDelete, ProtectedPut,
         PutWalk, PutWalkFromHead, PutRegions, WalkRegions, Chain, Find, Pairs;
    var token := p.Insert(r.op.pair);
    answer := Answer(token.Some?, []);
  }

  method ServePut<T(==)>(p: Gshm<T>, r: Request<T>) returns (answer: Answer)
    requires p.Valid() && !p.useBatch && r.op.Put? && Runnable(EnvOf(p), StateOf(p), r.op)
    modifies p, p.mem, p.table
    ensures p.Valid()
    ensures (StateOf(p), answer) == Step(EnvOf(p), old(StateOf(p)), r)
  {
    hide Bucket, WordAt, PartitionId, Acquires, Granted, GuardedPublish, ProtectedGet, ProtectedUpdate,
         ProtectedDelete, ProtectedPut,
         PutWalk, PutWalkFromHead, PutRegions, WalkRegions, Chain, Find, Pairs;
    var ok := p.Put(r.op.pair, Rounds(EnvOf(p), StateOf(p), r.op.Key()));
    answer := Answer(ok, []);
  }

  method ServeWalk<T(==)>(p: Gshm<T>, r: Request<T>) returns (answer: Answer)
    requires p.Valid() && !p.useBatch && Walks(r.op) && Runnable(EnvOf(p), StateOf(p), r.op)
    modifies p, p.mem, p.table
    ensures p.Valid()
    ensures (StateOf(p), answer) == Step(EnvOf(p), old(StateOf(p)), r)
  {
    hide Bucket, WordAt, PartitionId, Acquires, Granted, GuardedPublish, ProtectedGet, ProtectedUpdate,
         ProtectedDelete, ProtectedPut,
         PutWalk, PutWalkFromHead, PutRegions, WalkRegions, Chain, Find, Pairs;
    ghost var chain := TheChain(p.mem[..], p.valueSize, Bucket(r.op.Key()));
    match r.op
    case Get(key, buffer) =>
      var ok, value := p.Get(key, buffer, r.token, chain);
      answer := Answer(ok, value);
    case Update(pair) =>
      var ok := p.Update(pair, r.token, chain);
      answer := Answer(ok, []);
    case Delete(key) =>
      AcquiresNone(p.build, p.source, p.table[..], p.drawn);
      var ok := p.Del(key, r.token, chain);
      answer := Answer(ok, []);
  }

  /** The object's methods carry out exactly the protected step, authorised or not. */
  method ServeRequest<T(==)>(p: Gshm<T>, r: Request<T>) returns (answer: Answer)
    requires p.Valid() && !p.useBatch && Runnable(EnvOf(p), StateOf(p), r.op)
    modifies p, p.mem, p.table
    ensures p.Valid()
    ensures (StateOf(p), answer) == Step(EnvOf(p), old(StateOf(p)), r)
  {
    hide Step, Runnable;
    match r.op
    case Insert(_) => answer := ServeInsert(p, r);
    case Put(_) => answer := ServePut(p, r);
    case _ => answer := ServeWalk(p, r);
  }

  lemma RunnablePrefix<T>(e: Env<T>, st: State<T>, requests: seq<Request<T>>, n: nat)
    requires RunnableRun(e, st, requests) && n <= |requests|
    ensures RunnableRun(e, st, requests[..n])
    ensures n < |requests| ==> Runnable(e, Run(e, st, requests[..n]).0, requests[n].op)
    decreases |requests|
  {
    hide Runnable, Step;
    if n < |requests| {
      var last := |requests| - 1;
      RunnablePrefix(e, st, requests[..last], n);
      assert requests[..last][..n] == requests[..n];
    } else {
      assert requests[..n] == requests;
    }
  }

  /** Whole runs, authorised or not. */
  method ServeAll<T(==)>(p: Gshm<T>, requests: seq<Request<T>>) returns (answers: seq<Answer>)
    requires p.Valid() && !p.useBatch && RunnableRun(EnvOf(p), StateOf(p), requests)
    modifies p, p.mem, p.table
    ensures p.Valid()
    ensures (StateOf(p), answers) == Run(EnvOf(p), old(StateOf(p)), requests)
  {
    hide Runnable, Step;
    ghost var e, st := EnvOf(p), StateOf(p);
    answers := [];
    var n := 0;
    assert requests[..0] == [];
    RunnablePrefix(e, st, requests, 0);
    while n < |requests|
      invariant n <= |requests| && p.Valid() && RunnableRun(e, st, requests[..n])
      invariant Run(e, st, requests[..n]) == (StateOf(p), answers)
    {
      RunnablePrefix(e, st, requests, n);
      RunnablePrefix(e, st, requests, n + 1);
      assert requests[..n + 1][..n] == requests[..n] && requests[..n + 1][n] == requests[n];
      var answer := ServeRequest(p, requests[n]);
      answers := answers + [answer];
      n := n + 1;
    }
    assert requests[..n] == requests;
  }

  /** Side by side: over every authorised run the two objects answer alike and end with the same
      bytes and the same allocator. */
  method ServeBoth<T(==)>(u: GshmUpr, p: Gshm<T>, requests: seq<Request<T>>, ghost a: Abstract)
    returns (answers: seq<Answer>, protectedAnswers: seq<Answer>)
    requires u.Valid() && !u.useBatch && p.Valid() && !p.useBatch && u.hostId == p.hostId && u.valueSize == p.valueSize
    requires u.mem != p.mem && (u.mem as object) != (p.table as object)
    requires u.State() == StateOf(p).Data() && Represents(u.State(), a, u.hostId, u.valueSize)
    requires AllAdmissible(Ops(requests), u.hostId, u.valueSize) && AuthorisedRun(EnvOf(p), StateOf(p), a, requests)
    modifies u, u.mem, p, p.mem, p.table
    ensures answers == protectedAnswers
    ensures u.mem[..] == p.mem[..] && u.nextFreeOffset == p.nextFreeOffset
    ensures answers == AbstractRun(a, u.hostId, u.valueSize, Ops(requests)).1
  {
    hide Represents, Admissible, AuthorisedAt, Run, RunnableRun, StoreRun, AbstractRun, Planned;
    ProtectionIsTransparent(EnvOf(p), StateOf(p), a, requests);
    protectedAnswers := ServeAll(p, requests);
    answers := Serve(u, Ops(requests), a);
  }
}
