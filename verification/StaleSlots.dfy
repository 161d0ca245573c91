/** What concurrent inserts and lookups need of the table they start from. A clear of the valid flags
    alone leaves old tokens and regions in the slots, and claimed slots show them until they are
    overwritten. */
module StaleSlots {
  import opened Memory
  import opened TableSpec
  import opened ConcurrentInsert
  import FibonacciHash
  import TableRuns

  // ----- Clears -----

  /** What either clear leaves can be begun from; the wiping clear leaves nothing that matters. */
  lemma AfterClear<T>(b: Build<T>, s: seq<Slot<T>>, writers: seq<Writer<T>>)
    requires |s| == HASH_TABLE_SIZE && Distinct(b, writers) && (forall w ::
               0 <= w < |writers| ==> writers[w].phase == Claim(0))
    ensures Begins(b, System(Clear(b, s), writers, []))
    ensures b.wipes ==> NoneStale(Clear(b, s), writers) && RegionsGone(Clear(b, s))
    ensures b.wipes ==> forall k :: k != b.global ==> Unused(Clear(b, s), k)
    ensures !b.wipes ==> forall i :: 0 <= i < |s| ==>
              Clear(b, s)[i].token == s[i].token && Clear(b, s)[i].region == s[i].region
  {
    var c := Clear(b, s);
    assert forall i :: 0 <= i < |s| ==> c[i] == ClearedSlot(b, s[i]);
  }

  // ----- Runs -----

  function Repeat<T>(ev: Event<T>, n: nat): seq<Event<T>> {
    if n == 0 then [] else Repeat(ev, n - 1) + [ev]
  }

  lemma RunSnoc<T>(b: Build<T>, st: System<T>, events: seq<Event<T>>, ev: Event<T>)
    requires Sound(st)
    ensures Run(b, st, events + [ev]) == Apply(b, Run(b, st, events), ev)
  {
    assert (events + [ev])[..|events + [ev]| - 1] == events;
  }

  lemma {:induction false} RunConcat<T>(b: Build<T>, st: System<T>, first: seq<Event<T>>, second: seq<Event<T>>)
    requires Sound(st)
    ensures Run(b, st, first + second) == Run(b, Run(b, st, first), second)
    decreases |second|
  {
    hide Apply, Sound;
    if second == [] {
      assert first + second == first;
    } else {
      var n := |second| - 1;
      RunConcat(b, st, first, second[..n]);
      RunSnoc(b, st, first + second[..n], second[n]);
      assert first + second == first + second[..n] + [second[n]];
    }
  }

  /** A lookup after n steps on an unchanging table. */
  function Steps<T(==)>(b: Build<T>, slots: seq<Slot<T>>, r: Reader<T>, n: nat): (r': Reader<T>)
    requires |slots| == HASH_TABLE_SIZE && (r.stage.Refused? || r.stage.d < HASH_TABLE_SIZE)
             && (r.bit == READ || r.bit == WRITE)
    ensures (r'.stage.Refused? || r'.stage.d < HASH_TABLE_SIZE) && r'.bit == r.bit && r'.token == r.token
  {
    if n == 0 then r else ReaderStep(b, slots, Steps(b, slots, r, n - 1))
  }

  lemma RunNone<T>(b: Build<T>, st: System<T>)
    requires Sound(st)
    ensures Run(b, st, []) == st
  {
  }

  lemma ReaderMoveEffect<T>(b: Build<T>, st: System<T>, r: nat)
    requires Sound(st) && r < |st.readers|
    ensures Apply(b, st, ReaderMoves(r)) == st.(readers := st.readers[r := ReaderStep(b, st.slots, st.readers[r])])
  {
    hide ReaderStep;
  }

  lemma {:induction false} ReaderRuns<T>(b: Build<T>, st: System<T>, r: nat, n: nat)
    requires Sound(st) && r < |st.readers|
    ensures Run(b, st, Repeat(ReaderMoves(r), n))
            == st.(readers := st.readers[r := Steps(b, st.slots, st.readers[r], n)])
  {
    hide ReaderStep, Apply, Run;
    if n == 0 {
      RunNone(b, st);
      assert st.readers[r := st.readers[r]] == st.readers;
    } else {
      ReaderRuns(b, st, r, n - 1);
      RunSnoc(b, st, Repeat(ReaderMoves(r), n - 1), ReaderMoves(r));
      ReaderMoveEffect(b, Run(b, st, Repeat(ReaderMoves(r), n - 1)), r);
    }
  }

  /** A lookup walks over slots that pass. */
  lemma {:induction false} ReaderWalks<T>(b: Build<T>, slots: seq<Slot<T>>, r: Reader<T>, d: nat)
    requires |slots| == HASH_TABLE_SIZE && d < HASH_TABLE_SIZE && (r.bit == READ || r.bit == WRITE)
             && r.stage == ReadValid(0)
    requires forall e :: 0 <= e < d ==> Passes(slots, b.hash(r.token), r.token, e)
    ensures Steps(b, slots, r, 2 * d) == r.(stage := ReadValid(d))
  {
    hide At;
    if d > 0 {
      ReaderWalks(b, slots, r, d - 1);
      assert Passes(slots, b.hash(r.token), r.token, d - 1);
      assert Steps(b, slots, r, 2 * d - 1) == ReaderStep(b, slots, Steps(b, slots, r, 2 * d - 2));
    }
  }

  /** From a valid slot that shows its token, four steps bring a lookup to the region checks. */
  lemma ReaderMeets<T>(b: Build<T>, slots: seq<Slot<T>>, r: Reader<T>, d: nat)
    requires |slots| == HASH_TABLE_SIZE && d < HASH_TABLE_SIZE && (r.bit == READ || r.bit == WRITE)
             && r.stage == ReadValid(d)
    requires slots[At(b.hash(r.token), d)].valid && slots[At(b.hash(r.token), d)].token == r.token
    ensures Steps(b, slots, r, 4) == r.(stage := CheckEmpty(d))
  {
    hide At, Steps;
    FourSteps(b, slots, r);
  }

  lemma FourSteps<T>(b: Build<T>, slots: seq<Slot<T>>, r: Reader<T>)
    requires |slots| == HASH_TABLE_SIZE && (r.stage.Refused? || r.stage.d < HASH_TABLE_SIZE)
             && (r.bit == READ || r.bit == WRITE)
    ensures var r2 := ReaderStep(b, slots, ReaderStep(b, slots, r));
            Steps(b, slots, r, 4) == ReaderStep(b, slots, ReaderStep(b, slots, r2))
  {
    hide ReaderStep;
    assert Steps(b, slots, r, 1) == ReaderStep(b, slots, r);
    assert Steps(b, slots, r, 3) == ReaderStep(b, slots, Steps(b, slots, r, 2));
  }

  /** The size and range checks take four more steps. */
  lemma ReaderChecks<T>(b: Build<T>, slots: seq<Slot<T>>, r: Reader<T>, d: nat)
    requires |slots| == HASH_TABLE_SIZE && d < HASH_TABLE_SIZE && (r.bit == READ || r.bit == WRITE)
             && r.stage == CheckEmpty(d)
    requires var region := slots[At(b.hash(r.token), d)].region;
             region.size != 0 && region.offset <= r.offset
                 && (r.offset + r.size) % U64 <= (region.offset + region.size) % U64
    ensures Steps(b, slots, r, 4) == r.(stage := CheckBit(d))
  {
    hide At, HasBit, Steps;
    FourSteps(b, slots, r);
  }

  /** With the permission bit set the lookup is allowed at the fifth. */
  lemma ReaderAllowed<T>(b: Build<T>, slots: seq<Slot<T>>, r: Reader<T>, d: nat)
    requires |slots| == HASH_TABLE_SIZE && d < HASH_TABLE_SIZE && (r.bit == READ || r.bit == WRITE)
             && r.stage == CheckEmpty(d)
    requires Permits(slots[At(b.hash(r.token), d)].region, r.offset, r.size, r.bit)
    ensures Steps(b, slots, r, 5) == r.(stage := Allowed(d))
  {
    hide At, HasBit;
    ReaderChecks(b, slots, r, d);
  }

  lemma {:induction false} StepsAdd<T>(b: Build<T>, slots: seq<Slot<T>>, r: Reader<T>, m: nat, n: nat)
    requires |slots| == HASH_TABLE_SIZE && (r.stage.Refused? || r.stage.d < HASH_TABLE_SIZE)
             && (r.bit == READ || r.bit == WRITE)
    ensures Steps(b, slots, Steps(b, slots, r, m), n) == Steps(b, slots, r, m + n)
  {
    hide ReaderStep;
    if n > 0 {
      StepsAdd(b, slots, r, m, n - 1);
    }
  }

  lemma WriterMoveEffect<T>(b: Build<T>, st: System<T>, w: nat)
    requires Sound(st) && w < |st.writers|
    ensures var (slots, writer) := WriterStep(b, st.slots, st.writers[w]);
            Apply(b, st, WriterMoves(w)) == st.(slots := slots, writers := st.writers[w := writer])
  {
    hide WriterStep;
  }

  /** A writer walks over slots that pass, one claim and one comparison each. */
  lemma {:induction false} WriterWalks<T>(b: Build<T>, st: System<T>, w: nat, d: nat)
    requires Sound(st) && w < |st.writers| && st.writers[w].phase == Claim(0) && d < HASH_TABLE_SIZE
    requires forall e :: 0 <= e < d ==> Passes(st.slots, b.hash(st.writers[w].token), st.writers[w].token, e)
    ensures Run(b, st, Repeat(WriterMoves(w), 2 * d))
            == st.(writers := st.writers[w := st.writers[w].(phase := Claim(d))])
  {
    hide Apply, Run, At;
    if d == 0 {
      RunNone(b, st);
      assert st.writers[w := st.writers[w]] == st.writers;
    } else {
      WriterWalks(b, st, w, d - 1);
      assert Passes(st.slots, b.hash(st.writers[w].token), st.writers[w].token, d - 1);
      TwoMoves(b, st, w, 2 * (d - 1));
      var before := Run(b, st, Repeat(WriterMoves(w), 2 * (d - 1)));
      WriterMoveEffect(b, before, w);
      WriterMoveEffect(b, Apply(b, before, WriterMoves(w)), w);
    }
  }

  lemma TwoMoves<T>(b: Build<T>, st: System<T>, w: nat, n: nat)
    requires Sound(st)
    ensures Run(b, st, Repeat(WriterMoves(w), n + 2))
         == Apply(b, Apply(b, Run(b, st, Repeat(WriterMoves(w), n)), WriterMoves(w)), WriterMoves(w))
  {
    hide Apply, Run;
    RunSnoc(b, st, Repeat(WriterMoves(w), n), WriterMoves(w));
    RunSnoc(b, st, Repeat(WriterMoves(w), n + 1), WriterMoves(w));
  }

  /** A writer that has claimed its slot completes it in four moves. */
  lemma WriterFinishes<T>(b: Build<T>, st: System<T>, w: nat)
    requires Sound(st) && w < |st.writers| && st.writers[w].phase.PutToken?
    requires st.slots[SlotOf(b, st.writers[w])].valid
    ensures var writer := st.writers[w];
            var done := writer.(phase := Inserted(writer.phase.d));
            Run(b, st, Repeat(WriterMoves(w), 4))
            == st.(slots := st.slots[SlotOf(b, writer) := Slot(true, writer.token, writer.region)],
                   writers := st.writers[w := done])
  {
    hide Apply, Run, At;
    RunNone(b, st);
    TwoMoves(b, st, w, 0);
    TwoMoves(b, st, w, 2);
    assert Repeat<T>(WriterMoves(w), 0) == [];
    var s1 := Apply(b, st, WriterMoves(w));
    var s2 := Apply(b, s1, WriterMoves(w));
    var s3 := Apply(b, s2, WriterMoves(w));
    WriterMoveEffect(b, st, w);
    WriterMoveEffect(b, s1, w);
    WriterMoveEffect(b, s2, w);
    WriterMoveEffect(b, s3, w);
  }

  // ----- Claims in a row -----

  function Claimants<T>(n: nat): seq<Event<T>> {
    if n == 0 then [] else Claimants(n - 1) + [WriterMoves(n - 1)]
  }

  /** The first n writers aim at n slots in a row. */
  ghost predicate InARow<T>(b: Build<T>, st: System<T>, home: Index, n: nat) {
    n <= |st.writers| && n <= HASH_TABLE_SIZE && forall j :: 0 <= j < n ==> b.hash(st.writers[j].token) == At(home, j)
  }

  ghost predicate RowClaimed<T>(st: System<T>, st': System<T>, home: Index, n: nat) {
    && |st'.slots| == |st.slots| == HASH_TABLE_SIZE && |st'.writers| == |st.writers| && st'.readers == st.readers
    && (forall i: Index :: st'.slots[i] == if Distance(home, i) < n then st.slots[i].(valid := true) else st.slots[i])
    && (forall j :: 0 <= j < |st.writers| ==>
          st'.writers[j] == if j < n then st.writers[j].(phase := PutToken(0)) else st.writers[j])
  }

  /** One claim each, and the slots are valid but show what they held before. */
  lemma {:induction false} RunClaims<T>(b: Build<T>, st: System<T>, home: Index, n: nat)
    requires Sound(st) && Begins(b, st) && InARow(b, st, home, n)
    ensures RowClaimed(st, Run(b, st, Claimants(n)), home, n)
  {
    hide Apply, Run;
    if n == 0 {
      RunNone(b, st);
    } else {
      RunClaims(b, st, home, n - 1);
      var before := Run(b, st, Claimants(n - 1));
      RunSnoc(b, st, Claimants(n - 1), WriterMoves(n - 1));
      WriterMoveEffect(b, before, n - 1);
      ClaimOne(b, st, before, home, n);
    }
  }

  lemma ClaimOne<T>(b: Build<T>, st: System<T>, before: System<T>, home: Index, n: nat)
    requires Sound(st) && Begins(b, st) && n > 0 && InARow(b, st, home, n)
    requires Sound(before) && RowClaimed(st, before, home, n - 1)
    ensures var (slots, writer) := WriterStep(b, before.slots, before.writers[n - 1]);
            RowClaimed(st, before.(slots := slots, writers := before.writers[n - 1 := writer]), home, n)
  {
    var i := At(home, n - 1);
    assert At(i, 0) == i;
    AtInjective(home, n - 1, Distance(home, i));
    assert !before.slots[i].valid;
    forall j: Index | Distance(home, j) == n - 1
      ensures j == i
    {
    }
  }

  // ----- Stale tokens -----

  /** d is the first distance from k's home at which the table has kept k. */
  ghost predicate KeptAt<T>(b: Build<T>, base: seq<Slot<T>>, k: T, d: nat)
    requires |base| == HASH_TABLE_SIZE
  {
    && d < HASH_TABLE_SIZE && base[At(b.hash(k), d)].token == k
    && forall e :: 0 <= e < d ==> base[At(b.hash(k), e)].token != k
  }

  /** The slots up to there have been claimed and not yet written: they pass, except the last. */
  lemma RowPasses<T>(b: Build<T>, st: System<T>, st': System<T>, k: T, d: nat)
    requires |st.slots| == HASH_TABLE_SIZE && KeptAt(b, st.slots, k, d) && RowClaimed(st, st', b.hash(k), d + 1)
    ensures forall e :: 0 <= e < d ==> Passes(st'.slots, b.hash(k), k, e)
    ensures st'.slots[At(b.hash(k), d)] == st.slots[At(b.hash(k), d)].(valid := true)
  {
    forall e | 0 <= e <= d
      ensures st'.slots[At(b.hash(k), e)] == st.slots[At(b.hash(k), e)].(valid := true)
    {
      AtInjective(b.hash(k), e, Distance(b.hash(k), At(b.hash(k), e)));
    }
  }

  /** An insert of a token that the table has kept is refused as a duplicate, although nobody else
      inserts that token, once other inserts have claimed the slots up to the stale one. */
  lemma StaleTokenIsDuplicate<T>(b: Build<T>, st: System<T>, d: nat)
    requires Sound(st) && Begins(b, st) && |st.writers| == d + 2 && KeptAt(b, st.slots, st.writers[d + 1].token, d)
    requires InARow(b, st, b.hash(st.writers[d + 1].token), d + 1)
    ensures Run(b, st, Claimants(d + 1) + Repeat(WriterMoves(d + 1), 2 * d + 2)).writers[d + 1].phase == Duplicate
  {
    hide Run, Apply, At, Claimants, Repeat, Begins;
    var w := d + 1;
    var k := st.writers[w].token;
    RunClaims(b, st, b.hash(k), w);
    var s1 := Run(b, st, Claimants(w));
    RowPasses(b, st, s1, k, d);
    assert s1.writers[w].phase == Claim(0) by {
      BeginsPhase(b, st, w);
    }
    WriterWalks(b, s1, w, d);
    TwoMoves(b, s1, w, 2 * d);
    var s2 := Run(b, s1, Repeat(WriterMoves(w), 2 * d));
    WriterMoveEffect(b, s2, w);
    WriterMoveEffect(b, Apply(b, s2, WriterMoves(w)), w);
    RunConcat(b, st, Claimants(w), Repeat(WriterMoves(w), 2 * d + 2));
  }

  lemma BeginsPhase<T>(b: Build<T>, st: System<T>, w: nat)
    requires Begins(b, st) && w < |st.writers|
    ensures st.writers[w].phase == Claim(0)
  {
  }

  function StaleLookup<T>(k: T, offset: nat, size: nat, bit: nat, d: nat): seq<Event<T>> {
    [ReaderStarts(k, offset, size, bit)] + Repeat(ReaderMoves(0), 2 * d + 4)
  }

  /** A lookup of a token that the table has kept finds it once the slots up to it are claimed. */
  lemma StaleTokenIsFound<T>(b: Build<T>, st: System<T>, k: T, d: nat, offset: nat, size: nat, bit: nat)
    requires Sound(st) && Begins(b, st) && d < |st.writers| && KeptAt(b, st.slots, k, d)
             && InARow(b, st, b.hash(k), d + 1)
    requires k != b.global && (bit == READ || bit == WRITE)
    ensures var s1 := Run(b, st, Claimants(d + 1));
            var s2 := Run(b, st, Claimants(d + 1) + StaleLookup(k, offset, size, bit, d));
            && RowClaimed(st, s1, b.hash(k), d + 1)
            && s2.slots == s1.slots && s2.writers == s1.writers
            && s2.readers == [Reader(k, offset, size, bit, Completed(s1, k), CheckEmpty(d))]
  {
    hide Run, Apply, At, Claimants, Repeat, ReaderStep, Steps, Begins;
    RunClaims(b, st, b.hash(k), d + 1);
    var s1 := Run(b, st, Claimants(d + 1));
    RowPasses(b, st, s1, k, d);
    assert s1.readers == [] by {
      BeginsReaders(b, st);
    }
    RunConcat(b, st, Claimants(d + 1), StaleLookup(k, offset, size, bit, d));
    LookupReaches(b, s1, k, d, offset, size, bit);
  }

  lemma BeginsReaders<T>(b: Build<T>, st: System<T>)
    requires Begins(b, st)
    ensures st.readers == []
  {
  }

  lemma LookupReaches<T>(b: Build<T>, st: System<T>, k: T, d: nat, offset: nat, size: nat, bit: nat)
    requires Sound(st) && st.readers == [] && k != b.global && (bit == READ || bit == WRITE) && d < HASH_TABLE_SIZE
    requires forall e :: 0 <= e < d ==> Passes(st.slots, b.hash(k), k, e)
    requires st.slots[At(b.hash(k), d)].valid && st.slots[At(b.hash(k), d)].token == k
    ensures var due := Completed(st, k);
            Run(b, st, StaleLookup(k, offset, size, bit, d))
            == st.(readers := [Reader(k, offset, size, bit, due, CheckEmpty(d))])
  {
    hide Run, At, Repeat, ReaderStep, Steps;
    var starts := ReaderStarts(k, offset, size, bit);
    var s2 := Apply(b, st, starts);
    RunConcat(b, st, [starts], Repeat(ReaderMoves(0), 2 * d + 4));
    RunNone(b, st);
    RunSnoc(b, st, [], starts);
    assert [] + [starts] == [starts];
    var reader := s2.readers[0];
    ReaderRuns(b, s2, 0, 2 * d + 4);
    ReaderWalks(b, s2.slots, reader, d);
    StepsAdd(b, s2.slots, reader, 2 * d, 4);
    ReaderMeets(b, s2.slots, Steps(b, s2.slots, reader, 2 * d), d);
  }

  /** The 256-bit clear, concretely: a token cleared from its home slot is let in again, without being
      issued, while another insert has claimed that slot and not yet written it. */
  lemma ClearedTokenIsLetIn<T>(b: Build<T>, s: seq<Slot<T>>, k: T, other: Writer<T>, offset: nat, size: nat, bit: nat)
    requires |s| == HASH_TABLE_SIZE && !b.wipes && k != b.global && (bit == READ || bit == WRITE)
    requires other.token != k && other.token != b.global && other.phase == Claim(0) && b.hash(other.token) == b.hash(k)
    requires s[b.hash(k)].token == k && Permits(s[b.hash(k)].region, offset, size, bit)
    ensures var st := System(Clear(b, s), [other], []);
            var events := Claimants(1) + StaleLookup(k, offset, size, bit, 0) + Repeat(ReaderMoves(0), 5);
            && Begins(b, st)
            && |Run(b, st, events).readers| == 1 && Run(b, st, events).readers[0].token == k
            && Run(b, st, events).readers[0].stage == Allowed(0)
            && forall w :: 0 <= w < |st.writers| ==> Run(b, st, events).writers[w].token != k
  {
    hide Run, Claimants, Repeat, ReaderStep, Steps, StaleLookup;
    var st := System(Clear(b, s), [other], []);
    AfterClear(b, s, [other]);
    var home := b.hash(k);
    assert At(home, 0) == home;
    StaleTokenIsFound(b, st, k, 0, offset, size, bit);
    var prefix := Claimants(1) + StaleLookup(k, offset, size, bit, 0);
    var s2 := Run(b, st, prefix);
    RowPasses(b, st, Run(b, st, Claimants(1)), k, 0);
    RunConcat(b, st, prefix, Repeat(ReaderMoves(0), 5));
    ReaderRuns(b, s2, 0, 5);
    ReaderAllowed(b, s2.slots, s2.readers[0], 0);
  }

  // ----- Exactly which leftovers do harm -----

  /** Every slot is the home of two ordinary tokens at least. */
  ghost predicate Crowded<T(!new)>(b: Build<T>) {
    forall i: Index :: SharedHome(b, i)
  }

  ghost predicate SharedHome<T(!new)>(b: Build<T>, i: Index) {
    exists k1, k2 :: k1 != k2 && HomeOf(b, k1, i) && HomeOf(b, k2, i)
  }

  predicate HomeOf<T(==)>(b: Build<T>, k: T, i: Index) {
    k != b.global && b.hash(k) == i
  }

  /** A hash of the 256-bit build's kind, for which this holds. */
  function WideModulo(k: TableRuns.WideToken): Index {
    k.tokenId % HASH_TABLE_SIZE
  }

  lemma WideModuloIsCrowded()
    ensures Crowded(TableRuns.Build256(WideModulo))
  {
    var b := TableRuns.Build256(WideModulo);
    forall i: Index
      ensures SharedHome(b, i)
    {
      var k1, k2 := TableRuns.WideToken(i, seq(32, _ => 1)), TableRuns.WideToken(i, seq(32, _ => 2));
      assert k1.hmac[0] == 1 && k2.hmac[0] == 2 && b.global.hmac[0] == 0;
      assert HomeOf(b, k1, i) && HomeOf(b, k2, i);
    }
  }

  /** The 16-bit build is not of that kind: most of its slots are nobody's home. */
  lemma SixteenBitIsNotCrowded()
    ensures !Crowded(TableRuns.Build16())
  {
    assert !SharedHome(TableRuns.Build16(), HASH_TABLE_SIZE - 1);
  }

  /** Inserts of any distinct tokens, in any interleaving, never report a duplicate. */
  ghost predicate NeverDuplicate<T(!new)>(b: Build<T>, slots: seq<Slot<T>>)
    requires |slots| == HASH_TABLE_SIZE
  {
    forall writers, events, w :: Begins(b, System(slots, writers, [])) && 0 <= w < |writers| ==>
      !Run(b, System(slots, writers, []), events).writers[w].phase.Duplicate?
  }

  /** A completed insert of the reader's token permits its access. */
  ghost predicate Entitled<T>(st: System<T>, r: nat)
    requires Sound(st) && r < |st.readers|
  {
    var reader := st.readers[r];
    exists w :: 0 <= w < |st.writers| && st.writers[w].phase.Inserted? && st.writers[w].token == reader.token
                && Permits(st.writers[w].region, reader.offset, reader.size, reader.bit)
  }

  /** Beside inserts of any distinct tokens, in any interleaving, only entitled lookups are allowed. */
  ghost predicate OnlyEntitledAllowed<T(!new)>(b: Build<T>, slots: seq<Slot<T>>)
    requires |slots| == HASH_TABLE_SIZE
  {
    forall writers, events, r |
        Begins(b, System(slots, writers, []))
        && 0 <= r < |Run(b, System(slots, writers, []), events).readers| ::
      Run(b, System(slots, writers, []), events).readers[r].stage.Allowed? ==>
        Entitled(Run(b, System(slots, writers, []), events), r)
  }

  ghost predicate TokensGone<T>(b: Build<T>, slots: seq<Slot<T>>) {
    forall i :: 0 <= i < |slots| ==> slots[i].token == b.global
  }

  lemma AnotherAtHome<T(!new)>(b: Build<T>, i: Index, k: T) returns (t: T)
    requires Crowded(b)
    ensures t != k && HomeOf(b, t, i)
  {
    assert SharedHome(b, i);
    var k1, k2 :| k1 != k2 && HomeOf(b, k1, i) && HomeOf(b, k2, i);
    t := if k1 == k then k2 else k1;
  }

  /** n inserts of other tokens than k whose homes lie in a row. */
  lemma {:induction false} Fillers<T(!new)>(b: Build<T>, k: T, home: Index, n: nat) returns (ws: seq<Writer<T>>)
    requires Crowded(b) && n <= HASH_TABLE_SIZE
    ensures |ws| == n && Distinct(b, ws)
    ensures forall j :: 0 <= j < n ==> ws[j].token != k && b.hash(ws[j].token) == At(home, j)
    ensures forall j :: 0 <= j < n ==> ws[j].phase == Claim(0) && ws[j].region == Region(0, 1, 3)
  {
    hide At;
    if n == 0 {
      ws := [];
    } else {
      var before := Fillers(b, k, home, n - 1);
      var t := AnotherAtHome(b, At(home, n - 1), k);
      forall j | 0 <= j < n - 1
        ensures before[j].token != t
      {
        if At(home, j) == At(home, n - 1) {
          AtInjective(home, j, n - 1);
        }
      }
      ws := before + [Writer(t, Region(0, 1, 3), Claim(0))];
    }
  }

  lemma FirstKept<T>(b: Build<T>, base: seq<Slot<T>>, i: Index) returns (d: nat)
    requires |base| == HASH_TABLE_SIZE
    ensures KeptAt(b, base, base[i].token, d)
  {
    var home := b.hash(base[i].token);
    d := 0;
    while base[At(home, d)].token != base[i].token
      invariant d <= Distance(home, i)
      invariant forall e :: 0 <= e < d ==> base[At(home, e)].token != base[i].token
      decreases HASH_TABLE_SIZE - d
    {
      d := d + 1;
    }
  }

  /** No insert is ever reported as a duplicate if no slot has kept an ordinary token, whatever the
      hash; and only then, if every slot is shared. */
  lemma NeverDuplicateIffTokensGone<T(!new)>(b: Build<T>, slots: seq<Slot<T>>)
    requires |slots| == HASH_TABLE_SIZE && forall i :: 0 <= i < |slots| ==> !slots[i].valid
    ensures TokensGone(b, slots) ==> NeverDuplicate(b, slots)
    ensures Crowded(b) ==> (NeverDuplicate(b, slots) <==> TokensGone(b, slots))
  {
    hide Run, Crowded, At;
    if TokensGone(b, slots) {
      forall writers, events, w | Begins(b, System(slots, writers, [])) && 0 <= w < |writers|
        ensures !Run(b, System(slots, writers, []), events).writers[w].phase.Duplicate?
      {
        ConcurrentInsertsAreSafe(b, System(slots, writers, []), events, w, w);
      }
    } else if Crowded(b) {
      var i :| 0 <= i < |slots| && slots[i].token != b.global;
      var k := slots[i].token;
      var d := FirstKept(b, slots, i);
      var ws := Fillers(b, k, b.hash(k), d + 1);
      var writers := ws + [Writer(k, Region(0, 1, 3), Claim(0))];
      assert Begins(b, System(slots, writers, []));
      StaleTokenIsDuplicate(b, System(slots, writers, []), d);
    }
  }

  /** A stale token lets its holder in, whatever region was kept with it: the lookup recognises the
      token just before the slot's new owner overwrites it, and then reads the owner's region. */
  lemma StaleTokenLetsIn<T>(b: Build<T>, st: System<T>, k: T, d: nat)
    requires Sound(st) && Begins(b, st) && |st.writers| == d + 1 && KeptAt(b, st.slots, k, d)
             && InARow(b, st, b.hash(k), d + 1)
    requires k != b.global && st.writers[d].region == Region(0, 1, 3)
    requires forall w :: 0 <= w <= d ==> st.writers[w].token != k
    ensures var events := Claimants(d + 1) + StaleLookup(k, 0, 0, READ, d) + Repeat(WriterMoves(d), 4)
            + Repeat(ReaderMoves(0), 5);
            var end := Run(b, st, events);
            |end.readers| == 1 && end.readers[0].stage == Allowed(d) && !Entitled(end, 0)
  {
    hide Run, Apply, At, Claimants, Repeat, ReaderStep, Steps, Begins, StaleLookup, Permits, HasBit;
    StaleTokenIsFound(b, st, k, d, 0, 0, READ);
    var first := Claimants(d + 1) + StaleLookup(k, 0, 0, READ, d);
    var s1 := Run(b, st, first);
    RowPasses(b, st, Run(b, st, Claimants(d + 1)), k, d);
    BeginsPhase(b, st, d);
    assert SlotOf(b, s1.writers[d]) == At(b.hash(k), d) by {
      AtZero(At(b.hash(k), d));
    }
    WriterFinishes(b, s1, d);
    RunConcat(b, st, first, Repeat(WriterMoves(d), 4));
    var s2 := Run(b, s1, Repeat(WriterMoves(d), 4));
    ReaderRuns(b, s2, 0, 5);
    RunConcat(b, st, first + Repeat(WriterMoves(d), 4), Repeat(ReaderMoves(0), 5));
    FullRegionPermits();
    ReaderAllowed(b, s2.slots, s2.readers[0], d);
  }

  lemma AtZero(i: Index)
    ensures At(i, 0) == i
  {
  }

  lemma FullRegionPermits()
    ensures Permits(Region(0, 1, 3), 0, 0, READ)
  {
  }

  /** The first three moves of a single insert: claim, token, offset. */
  lemma SinglePrefix<T>(b: Build<T>, st: System<T>)
    requires Sound(st) && |st.writers| == 1 && st.writers[0].phase == Claim(0)
             && !st.slots[b.hash(st.writers[0].token)].valid
    ensures var w := st.writers[0];
            var left := st.slots[b.hash(w.token)].region;
            Run(b, st, Repeat(WriterMoves(0), 3))
            == st.(slots := st.slots[b.hash(w.token) :=
                                     Slot(true, w.token, Region(w.region.offset, left.size, left.permission))],
                   writers := [w.(phase := PutSize(0))])
  {
    hide Run, Apply, At;
    AtZero(b.hash(st.writers[0].token));
    RunNone(b, st);
    TwoMoves(b, st, 0, 0);
    RunSnoc(b, st, Repeat(WriterMoves(0), 2), WriterMoves(0));
    assert Repeat<T>(WriterMoves(0), 0) == [];
    var s1 := Apply(b, st, WriterMoves(0));
    var s2 := Apply(b, s1, WriterMoves(0));
    WriterMoveEffect(b, st, 0);
    WriterMoveEffect(b, s1, 0);
    WriterMoveEffect(b, s2, 0);
  }

  /** A permission bit that was kept stands in for the one the insert has not written, and never would. */
  lemma KeptBitLetsIn<T>(b: Build<T>, st: System<T>, k: T, bit: nat)
    requires Sound(st) && Begins(b, st) && st.writers == [Writer(k, Region(0, 1, 0), Claim(0))]
             && (bit == READ || bit == WRITE)
    requires HasBit(st.slots[b.hash(k)].region.permission, bit)
    ensures var events := Repeat(WriterMoves(0), 4) + StaleLookup(k, 0, 0, bit, 0) + Repeat(ReaderMoves(0), 5);
            var end := Run(b, st, events);
            |end.readers| == 1 && end.readers[0].stage == Allowed(0) && !Entitled(end, 0)
  {
    hide Run, Apply, At, ReaderStep, Steps, StaleLookup, HasBit;
    AtZero(b.hash(k));
    SinglePrefix(b, st);
    var s1 := Run(b, st, Repeat(WriterMoves(0), 3));
    RunSnoc(b, st, Repeat(WriterMoves(0), 3), WriterMoves(0));
    WriterMoveEffect(b, s1, 0);
    var s2 := Run(b, st, Repeat(WriterMoves(0), 4));
    RunConcat(b, st, Repeat(WriterMoves(0), 4), StaleLookup(k, 0, 0, bit, 0));
    LookupReaches(b, s2, k, 0, 0, 0, bit);
    var s3 := Run(b, s2, StaleLookup(k, 0, 0, bit, 0));
    RunConcat(b, st, Repeat(WriterMoves(0), 4) + StaleLookup(k, 0, 0, bit, 0), Repeat(ReaderMoves(0), 5));
    ReaderRuns(b, s3, 0, 5);
    ReaderAllowed(b, s3.slots, s3.readers[0], 0);
  }

  /** A size that was kept makes a lookup pass the size and range checks of an empty region. */
  lemma KeptSizeLetsIn<T>(b: Build<T>, st: System<T>, k: T)
    requires Sound(st) && Begins(b, st) && st.writers == [Writer(k, Region(0, 0, 3), Claim(0))]
    requires st.slots[b.hash(k)].region.size != 0
    ensures var events := Repeat(WriterMoves(0), 3) + StaleLookup(k, 0, 0, READ, 0) + Repeat(ReaderMoves(0), 4)
                          + Repeat(WriterMoves(0), 2) + Repeat(ReaderMoves(0), 1);
            var end := Run(b, st, events);
            |end.readers| == 1 && end.readers[0].stage == Allowed(0) && !Entitled(end, 0)
  {
    hide Run, Apply, At, ReaderStep, Steps, StaleLookup, HasBit;
    AtZero(b.hash(k));
    SinglePrefix(b, st);
    var s1 := Run(b, st, Repeat(WriterMoves(0), 3));
    LookupReaches(b, s1, k, 0, 0, 0, READ);
    var e2 := Repeat<T>(WriterMoves(0), 3) + StaleLookup(k, 0, 0, READ, 0);
    RunConcat(b, st, Repeat(WriterMoves(0), 3), StaleLookup(k, 0, 0, READ, 0));
    var s2 := Run(b, st, e2);
    RunConcat(b, st, e2, Repeat(ReaderMoves(0), 4));
    ReaderRuns(b, s2, 0, 4);
    ReaderChecks(b, s2.slots, s2.readers[0], 0);
    var e3 := e2 + Repeat<T>(ReaderMoves(0), 4);
    var s3 := Run(b, st, e3);
    RunConcat(b, st, e3, Repeat(WriterMoves(0), 2));
    RunNone(b, s3);
    TwoMoves(b, s3, 0, 0);
    assert Repeat<T>(WriterMoves(0), 0) == [];
    WriterMoveEffect(b, s3, 0);
    WriterMoveEffect(b, Apply(b, s3, WriterMoves(0)), 0);
    var e4 := e3 + Repeat<T>(WriterMoves(0), 2);
    var s4 := Run(b, st, e4);
    RunConcat(b, st, e4, Repeat(ReaderMoves(0), 1));
    ReaderRuns(b, s4, 0, 1);
    LastCheck(b, s4.slots, s4.readers[0]);
  }

  lemma LastCheck<T>(b: Build<T>, slots: seq<Slot<T>>, r: Reader<T>)
    requires |slots| == HASH_TABLE_SIZE && r.bit == READ && r.stage == CheckBit(0)
    requires slots[At(b.hash(r.token), 0)].region.permission == 3
    ensures Steps(b, slots, r, 1) == r.(stage := Allowed(0))
  {
    assert Steps(b, slots, r, 0) == r;
  }

  /** Lookups are allowed only on the strength of a completed insert if no slot has kept an ordinary
      token, a size or a permission bit, whatever the hash; and only then, if every slot is shared. */
  lemma OnlyEntitledIffNothingKept<T(!new)>(b: Build<T>, slots: seq<Slot<T>>)
    requires |slots| == HASH_TABLE_SIZE && forall i :: 0 <= i < |slots| ==> !slots[i].valid
    ensures TokensGone(b, slots) && RegionsGone(slots) ==> OnlyEntitledAllowed(b, slots)
    ensures Crowded(b) ==> (OnlyEntitledAllowed(b, slots) <==> TokensGone(b, slots) && RegionsGone(slots))
  {
    hide Run, Crowded, At, Permits, HasBit, Harmless;
    if TokensGone(b, slots) && RegionsGone(slots) {
      forall writers, events, r | Begins(b, System(slots, writers, []))
          && 0 <= r < |Run(b, System(slots, writers, []), events).readers|
        ensures Run(b, System(slots, writers, []), events).readers[r].stage.Allowed? ==>
                  Entitled(Run(b, System(slots, writers, []), events), r)
      {
        CleanTableEntitles(b, System(slots, writers, []), events, r);
      }
    } else if Crowded(b) {
      if !TokensGone(b, slots) {
        StaleTokenBreaks(b, slots);
      } else {
        var i :| 0 <= i < |slots| && !Harmless(slots[i].region);
        KeptRegionBreaks(b, slots, i);
      }
    }
  }

  lemma CleanTableEntitles<T>(b: Build<T>, st: System<T>, events: seq<Event<T>>, r: nat)
    requires Sound(st) && Begins(b, st) && TokensGone(b, st.slots) && RegionsGone(st.slots)
             && r < |Run(b, st, events).readers|
    ensures Run(b, st, events).readers[r].stage.Allowed? ==> Entitled(Run(b, st, events), r)
  {
    hide Run, Permits, Harmless;
    var owner := RunKeepsInv(b, st, events);
    var reader := Run(b, st, events).readers[r];
    assert ReaderOk(b, st.slots, Run(b, st, events), reader);
    if reader.stage.Allowed? {
      AllowedSawCompleteEntry(b, st, events, r);
    }
  }

  lemma StaleTokenBreaks<T(!new)>(b: Build<T>, slots: seq<Slot<T>>)
    requires |slots| == HASH_TABLE_SIZE && Crowded(b) && !TokensGone(b, slots)
    requires forall i :: 0 <= i < |slots| ==> !slots[i].valid
    ensures !OnlyEntitledAllowed(b, slots)
  {
    hide Run, Crowded, At, Entitled;
    var i :| 0 <= i < |slots| && slots[i].token != b.global;
    var k := slots[i].token;
    var d := FirstKept(b, slots, i);
    var writers := Fillers(b, k, b.hash(k), d + 1);
    assert Begins(b, System(slots, writers, []));
    StaleTokenLetsIn(b, System(slots, writers, []), k, d);
  }

  lemma KeptRegionBreaks<T(!new)>(b: Build<T>, slots: seq<Slot<T>>, i: Index)
    requires |slots| == HASH_TABLE_SIZE && Crowded(b) && !Harmless(slots[i].region)
    requires forall j :: 0 <= j < |slots| ==> !slots[j].valid
    ensures !OnlyEntitledAllowed(b, slots)
  {
    hide Run, Crowded, At, Entitled, HasBit, OnlyEntitledAllowed, Begins;
    var k := AnotherAtHome(b, i, b.global);
    var region := slots[i].region;
    if region.size != 0 {
      var writers := [Writer(k, Region(0, 0, 3), Claim(0))];
      SingleBegins(b, slots, k, Region(0, 0, 3));
      KeptSizeLetsIn(b, System(slots, writers, []), k);
      var events := Repeat<T>(WriterMoves(0), 3) + StaleLookup(k, 0, 0, READ, 0) + Repeat(ReaderMoves(0), 4)
                    + Repeat(WriterMoves(0), 2) + Repeat(ReaderMoves(0), 1);
      BrokenBy(b, slots, writers, events);
    } else {
      var bit := if HasBit(region.permission, READ) then READ else WRITE;
      var writers := [Writer(k, Region(0, 1, 0), Claim(0))];
      SingleBegins(b, slots, k, Region(0, 1, 0));
      KeptBitLetsIn(b, System(slots, writers, []), k, bit);
      var events := Repeat<T>(WriterMoves(0), 4) + StaleLookup(k, 0, 0, bit, 0) + Repeat(ReaderMoves(0), 5);
      BrokenBy(b, slots, writers, events);
    }
  }

  lemma SingleBegins<T>(b: Build<T>, slots: seq<Slot<T>>, k: T, region: Region)
    requires |slots| == HASH_TABLE_SIZE && k != b.global && forall j :: 0 <= j < |slots| ==> !slots[j].valid
    ensures Begins(b, System(slots, [Writer(k, region, Claim(0))], []))
  {
  }

  lemma BrokenBy<T(!new)>(b: Build<T>, slots: seq<Slot<T>>, writers: seq<Writer<T>>, events: seq<Event<T>>)
    requires |slots| == HASH_TABLE_SIZE && Begins(b, System(slots, writers, []))
    requires var end := Run(b, System(slots, writers, []), events);
             |end.readers| == 1 && end.readers[0].stage.Allowed? && !Entitled(end, 0)
    ensures !OnlyEntitledAllowed(b, slots)
  {
    hide Run, Entitled, Begins;
  }

  /** So the clear that wipes whole slots is safe for any hash, and so is the clear that resets only
      the valid flags when the slots hold nothing to keep; the latter only then, if every slot is shared. */
  lemma WhichClearIsSafe<T(!new)>(b: Build<T>, s: seq<Slot<T>>)
    requires |s| == HASH_TABLE_SIZE
    ensures b.wipes || TokensGone(b, s) ==> NeverDuplicate(b, Clear(b, s))
    ensures b.wipes || (TokensGone(b, s) && RegionsGone(s)) ==> OnlyEntitledAllowed(b, Clear(b, s))
    ensures Crowded(b) ==> (NeverDuplicate(b, Clear(b, s)) <==> b.wipes || TokensGone(b, s))
    ensures Crowded(b) ==> (OnlyEntitledAllowed(b, Clear(b, s)) <==> b.wipes || (TokensGone(b, s) && RegionsGone(s)))
  {
    hide NeverDuplicate, OnlyEntitledAllowed, Crowded, Clear, HasBit;
    AfterClear(b, s, []);
    NeverDuplicateIffTokensGone(b, Clear(b, s));
    OnlyEntitledIffNothingKept(b, Clear(b, s));
    ClearedLeftovers(b, s);
  }

  /** In particular the 16-bit table, zeroed by memset or by any clear. */
  lemma SixteenBitTableIsSafe(s: seq<Slot<FibonacciHash.Token16>>)
    requires |s| == HASH_TABLE_SIZE
    ensures NeverDuplicate(TableRuns.Build16(), Clear(TableRuns.Build16(), s))
    ensures OnlyEntitledAllowed(TableRuns.Build16(), Clear(TableRuns.Build16(), s))
    ensures (forall i :: 0 <= i < |s| ==> s[i] == Slot(false, 0, Region(0, 0, 0))) ==>
              Clear(TableRuns.Build16(), s) == s
  {
    hide NeverDuplicate, OnlyEntitledAllowed, FibonacciHash.HashFunction;
    WhichClearIsSafe(TableRuns.Build16(), s);
  }

  lemma ClearedLeftovers<T>(b: Build<T>, s: seq<Slot<T>>)
    ensures TokensGone(b, Clear(b, s)) <==> b.wipes || TokensGone(b, s)
    ensures TokensGone(b, Clear(b, s)) && RegionsGone(Clear(b, s)) <==> b.wipes || (TokensGone(b, s) && RegionsGone(s))
  {
    var c := Clear(b, s);
    assert forall i :: 0 <= i < |s| ==> c[i] == ClearedSlot(b, s[i]);
  }
}
