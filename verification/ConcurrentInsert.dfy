/** Concurrent insertions and lookups on the shared protection table, one slot access per step.

    Writers run insert_protection_entry for distinct ordinary tokens on a cleared table: a slot is
    claimed by a compare-and-swap on its valid flag and its fields are written afterwards, in declared
    order, so other threads see half-written slots, and whatever a clear left in them. Readers run the
    lookup of the access paths, field by field, at any time. Steps interleave arbitrarily; nobody
    revokes or clears meanwhile. */
module ConcurrentInsert {
  import opened TableSpec
  import opened Memory

  datatype Phase =
    | Claim(d: nat)          // about to compare-and-swap the valid flag at distance d
    | Compare(d: nat)        // lost it; about to read that slot's token
    | PutToken(d: nat)       // won it; about to write the token
    | PutOffset(d: nat)
    | PutSize(d: nat)
    | PutPermission(d: nat)
    | Inserted(d: nat)       // returned 0
    | Full                   // returned -1
    | Duplicate              // returned -2

  datatype Writer<T> = Writer(token: T, region: Region, phase: Phase)

  datatype Stage =
    | ReadValid(d: nat) | ReadToken(d: nat)                     // the probe loop
    | CheckValid(d: nat) | CheckToken(d: nat) | CheckEmpty(d: nat)
    | CheckLow(d: nat) | CheckHigh(d: nat) | CheckHighSize(d: nat, base: nat) | CheckBit(d: nat)
    | Allowed(d: nat) | Refused

  /** due records whether an insert of the token had completed when the lookup began. */
  datatype Reader<T> = Reader(token: T, offset: nat, size: nat, bit: nat, due: bool, stage: Stage)

  datatype System<T> = System(slots: seq<Slot<T>>, writers: seq<Writer<T>>, readers: seq<Reader<T>>)

  datatype Event<T> =
    | WriterMoves(w: nat)
    | ReaderStarts(token: T, offset: nat, size: nat, bit: nat)
    | ReaderMoves(r: nat)

  // ----- Steps -----

  predicate InTable(phase: Phase) {
    phase.Full? || phase.Duplicate? || phase.d < HASH_TABLE_SIZE
  }

  predicate Owns(phase: Phase) {
    phase.PutToken? || phase.PutOffset? || phase.PutSize? || phase.PutPermission? || phase.Inserted?
  }

  predicate Finished(phase: Phase) {
    phase.Inserted? || phase.Full? || phase.Duplicate?
  }

  function WriterStep<T(==)>(b: Build<T>, slots: seq<Slot<T>>, w: Writer<T>): (r: (seq<Slot<T>>, Writer<T>))
    requires |slots| == HASH_TABLE_SIZE && InTable(w.phase)
    ensures |r.0| == HASH_TABLE_SIZE
  {
    if Finished(w.phase) then (slots, w)
    else
      var i := At(b.hash(w.token), w.phase.d);
      var s := slots[i];
      match w.phase
      case Claim(d) =>
        if s.valid then (slots, w.(phase := Compare(d))) else (slots[i := s.(valid := true)], w.(phase := PutToken(d)))
      case Compare(d) =>
        if s.token == w.token then (slots, w.(phase := Duplicate))
        else (slots, w.(phase := if d + 1 == HASH_TABLE_SIZE then Full else Claim(d + 1)))
      case PutToken(d) => (slots[i := s.(token := w.token)], w.(phase := PutOffset(d)))
      case PutOffset(d) => (slots[i := s.(region := s.region.(offset := w.region.offset))], w.(phase := PutSize(d)))
      case PutSize(d) => (slots[i := s.(region := s.region.(size := w.region.size))], w.(phase := PutPermission(d)))
      case PutPermission(d) =>
        (slots[i := s.(region := s.region.(permission := w.region.permission))], w.(phase := Inserted(d)))
  }

  function ReaderStep<T(==)>(b: Build<T>, slots: seq<Slot<T>>, r: Reader<T>): Reader<T>
    requires |slots| == HASH_TABLE_SIZE && (r.stage.Refused? || r.stage.d < HASH_TABLE_SIZE)
    requires r.bit == READ || r.bit == WRITE
  {
    if r.stage.Refused? then r
    else
      var s := slots[At(b.hash(r.token), r.stage.d)];
      var next :=
        match r.stage
        case ReadValid(d) => if s.valid then ReadToken(d) else CheckValid(d)
        case ReadToken(d) =>
          if s.token == r.token then CheckValid(d)
          else if d + 1 == HASH_TABLE_SIZE then Refused
          else ReadValid(d + 1)
        case CheckValid(d) => if s.valid then CheckToken(d) else Refused
        case CheckToken(d) => if s.token == r.token then CheckEmpty(d) else Refused
        case CheckEmpty(d) => if s.region.size == 0 then Refused else CheckLow(d)
        case CheckLow(d) => if r.offset < s.region.offset then Refused else CheckHigh(d)
        case CheckHigh(d) => CheckHighSize(d, s.region.offset)
        case CheckHighSize(d, base) =>
          if (r.offset + r.size) % U64 > (base + s.region.size) % U64 then Refused else CheckBit(d)
        case CheckBit(d) => if HasBit(s.region.permission, r.bit) then Allowed(d) else Refused
        case Allowed(d) => Allowed(d);
      r.(stage := next)
  }

  predicate Sound<T>(st: System<T>) {
    && |st.slots| == HASH_TABLE_SIZE
    && (forall w :: 0 <= w < |st.writers| ==> InTable(st.writers[w].phase))
    && (forall r :: 0 <= r < |st.readers| ==>
          && (st.readers[r].stage.Refused? || st.readers[r].stage.d < HASH_TABLE_SIZE)
          && (st.readers[r].bit == READ || st.readers[r].bit == WRITE))
  }

  ghost predicate Completed<T>(st: System<T>, k: T) {
    exists w :: 0 <= w < |st.writers| && st.writers[w].token == k && st.writers[w].phase.Inserted?
  }

  /** Threads that have returned, and events naming no thread, leave everything as it is. */
  ghost function Apply<T>(b: Build<T>, st: System<T>, ev: Event<T>): (st': System<T>)
    requires Sound(st)
    ensures Sound(st') && |st'.writers| == |st.writers|
  {
    match ev
    case WriterMoves(w) =>
      if w >= |st.writers| then st
      else
        var (slots, writer) := WriterStep(b, st.slots, st.writers[w]);
        st.(slots := slots, writers := st.writers[w := writer])
    case ReaderStarts(token, offset, size, bit) =>
      if (bit != READ && bit != WRITE) || token == b.global then st
      else st.(readers := st.readers + [Reader(token, offset, size, bit, Completed(st, token), ReadValid(0))])
    case ReaderMoves(r) =>
      if r >= |st.readers| then st else st.(readers := st.readers[r := ReaderStep(b, st.slots, st.readers[r])])
  }

  ghost function Run<T>(b: Build<T>, st: System<T>, events: seq<Event<T>>): (st': System<T>)
    requires Sound(st)
    ensures Sound(st') && |st'.writers| == |st.writers|
    decreases |events|
  {
    if events == [] then st else Apply(b, Run(b, st, events[..|events| - 1]), events[|events| - 1])
  }

  /** A table without valid slots, no reader yet, and writers about to insert distinct ordinary tokens. */
  ghost predicate Begins<T>(b: Build<T>, st: System<T>) {
    && |st.slots| == HASH_TABLE_SIZE && st.readers == []
    && (forall i :: 0 <= i < |st.slots| ==> !st.slots[i].valid)
    && (forall w :: 0 <= w < |st.writers| ==> st.writers[w].phase == Claim(0))
    && Distinct(b, st.writers)
  }

  ghost predicate Distinct<T>(b: Build<T>, writers: seq<Writer<T>>) {
    && (forall w :: 0 <= w < |writers| ==> writers[w].token != b.global)
    && (forall v, w :: 0 <= v < w < |writers| ==> writers[v].token != writers[w].token)
  }

  // ----- What a clear may leave behind -----

  /** No slot has kept this token. */
  ghost predicate Unused<T>(base: seq<Slot<T>>, k: T) {
    forall i :: 0 <= i < |base| ==> base[i].token != k
  }

  /** No slot has kept a token that is about to be inserted. */
  ghost predicate NoneStale<T>(base: seq<Slot<T>>, writers: seq<Writer<T>>) {
    forall w :: 0 <= w < |writers| ==> Unused(base, writers[w].token)
  }

  predicate Harmless(region: Region) {
    region.size == 0 && !HasBit(region.permission, READ) && !HasBit(region.permission, WRITE)
  }

  /** No slot has kept a size or a permission bit. */
  ghost predicate RegionsGone<T>(base: seq<Slot<T>>) {
    forall i :: 0 <= i < |base| ==> Harmless(base[i].region)
  }

  // ----- The invariant -----

  function SlotOf<T>(b: Build<T>, w: Writer<T>): Index
    requires Owns(w.phase)
  {
    At(b.hash(w.token), w.phase.d)
  }

  /** What a slot holds while its owner is in a given phase: fields not written yet are as they were. */
  function Image<T>(left: Slot<T>, w: Writer<T>): Slot<T>
    requires Owns(w.phase)
  {
    var stale := left.region;
    match w.phase
    case PutToken(_) => Slot(true, left.token, stale)
    case PutOffset(_) => Slot(true, w.token, stale)
    case PutSize(_) => Slot(true, w.token, Region(w.region.offset, stale.size, stale.permission))
    case PutPermission(_) => Slot(true, w.token, Region(w.region.offset, w.region.size, stale.permission))
    case Inserted(_) => Slot(true, w.token, w.region)
  }

  /** How far a writer's probe has come: every slot before that distance passed. */
  function Depth(phase: Phase): nat {
    if phase.Full? then HASH_TABLE_SIZE else if phase.Duplicate? then 0 else phase.d
  }

  ghost predicate WriterOk<T>(b: Build<T>, st: System<T>, owner: seq<int>, w: nat)
    requires Sound(st) && |owner| == HASH_TABLE_SIZE && w < |st.writers|
  {
    var writer := st.writers[w];
    && !writer.phase.Duplicate?
    && (Owns(writer.phase) ==> owner[SlotOf(b, writer)] == w)
    && (forall e :: 0 <= e < Depth(writer.phase) ==> Passes(st.slots, b.hash(writer.token), writer.token, e))
    && (writer.phase.Compare? ==> st.slots[At(b.hash(writer.token), writer.phase.d)].valid)
  }

  ghost predicate SlotOk<T>(b: Build<T>, base: seq<Slot<T>>, st: System<T>, owner: seq<int>, i: nat)
    requires Sound(st) && |owner| == HASH_TABLE_SIZE == |base| && i < HASH_TABLE_SIZE
  {
    if owner[i] < 0 then st.slots[i] == base[i] && !base[i].valid
    else
      && owner[i] < |st.writers| && Owns(st.writers[owner[i]].phase)
      && SlotOf(b, st.writers[owner[i]]) == i && st.slots[i] == Image(base[i], st.writers[owner[i]])
  }

  /** base is the table before the first claim; owner names, for every slot, the one writer that
      claimed it, or -1. */
  ghost predicate TableOk<T>(b: Build<T>, base: seq<Slot<T>>, st: System<T>, owner: seq<int>) {
    && Sound(st) && |owner| == HASH_TABLE_SIZE == |base| && Distinct(b, st.writers) && NoneStale(base, st.writers)
    && (forall i :: 0 <= i < HASH_TABLE_SIZE ==> SlotOk(b, base, st, owner, i))
    && (forall w :: 0 <= w < |st.writers| ==> WriterOk(b, st, owner, w))
  }

  /** How a slot may change, as far as a lookup of k is concerned: claimed once, k written once, then
      the range, then the permission. */
  predicate Evolves<T(==)>(k: T, s: Slot<T>, s': Slot<T>) {
    && (s.valid ==> s'.valid)
    && (s.token == k ==> s'.token == k)
    && (s.region.size != 0 ==> s'.region.offset == s.region.offset && s'.region.size == s.region.size)
    && (HasBit(s.region.permission, READ) || HasBit(s.region.permission, WRITE) ==> s' == s)
  }

  /** What a lookup that has got this far knows about its slot. */
  ghost predicate Knows<T>(b: Build<T>, slots: seq<Slot<T>>, r: Reader<T>)
    requires |slots| == HASH_TABLE_SIZE && (r.stage.Refused? || r.stage.d < HASH_TABLE_SIZE)
    requires r.bit == READ || r.bit == WRITE
  {
    r.stage.Refused? ||
    var s := slots[At(b.hash(r.token), r.stage.d)];
    var found := s.valid && s.token == r.token;
    var filled := found && s.region.size != 0;
    match r.stage
    case ReadValid(_) => true
    case ReadToken(_) => true
    case CheckValid(_) => true
    case CheckToken(_) => s.valid
    case CheckEmpty(_) => found
    case CheckLow(_) => filled
    case CheckHigh(_) => filled && s.region.offset <= r.offset
    case CheckHighSize(_, base) => filled && s.region.offset <= r.offset && base == s.region.offset
    case CheckBit(_) => filled && s.region.offset <= r.offset
        && (r.offset + r.size) % U64 <= (s.region.offset + s.region.size) % U64
    case Allowed(_) => found && Permits(s.region, r.offset, r.size, r.bit)
  }

  /** Where a lookup is that began after its token's insert had completed, at distance d with the
      complete entry there: not past it, and refused only if the entry does not permit the access. */
  ghost predicate OnTrack<T>(r: Reader<T>, region: Region, d: nat)
    requires r.bit == READ || r.bit == WRITE
  {
    match r.stage
    case Refused => !Permits(region, r.offset, r.size, r.bit)
    case ReadValid(e) => e <= d
    case ReadToken(e) => e <= d
    case _ => r.stage.d == d
  }

  ghost predicate DueOk<T>(b: Build<T>, st: System<T>, r: Reader<T>)
    requires r.bit == READ || r.bit == WRITE
  {
    exists w :: 0 <= w < |st.writers| && st.writers[w].token == r.token && st.writers[w].phase.Inserted?
                && OnTrack(r, st.writers[w].region, st.writers[w].phase.d)
  }

  ghost predicate ReaderOk<T>(b: Build<T>, base: seq<Slot<T>>, st: System<T>, r: Reader<T>)
    requires |st.slots| == HASH_TABLE_SIZE && (r.stage.Refused? || r.stage.d < HASH_TABLE_SIZE)
    requires r.bit == READ || r.bit == WRITE
  {
    && r.token != b.global
    && (r.due || (Unused(base, r.token) && RegionsGone(base)) ==> Knows(b, st.slots, r))
    && (r.due ==> DueOk(b, st, r))
  }

  ghost predicate Inv<T>(b: Build<T>, base: seq<Slot<T>>, st: System<T>, owner: seq<int>) {
    TableOk(b, base, st, owner) && forall r :: 0 <= r < |st.readers| ==> ReaderOk(b, base, st, st.readers[r])
  }

  // ----- The invariant is kept -----

  /** A slot a writer has not claimed never holds its token. */
  lemma OthersSlot<T>(b: Build<T>, base: seq<Slot<T>>, st: System<T>, owner: seq<int>, w: nat, i: nat)
    requires TableOk(b, base, st, owner) && w < |st.writers| && i < HASH_TABLE_SIZE && owner[i] != w
    ensures st.slots[i].token != st.writers[w].token
  {
    assert SlotOk(b, base, st, owner, i);
  }

  /** The claim step, the only one that changes who owns what. */
  function NewOwner<T(==)>(b: Build<T>, st: System<T>, owner: seq<int>, w: nat): (owner': seq<int>)
    requires Sound(st) && |owner| == HASH_TABLE_SIZE && w < |st.writers|
    ensures |owner'| == HASH_TABLE_SIZE
  {
    var writer := st.writers[w];
    if writer.phase.Claim? && !st.slots[At(b.hash(writer.token), writer.phase.d)].valid
    then owner[At(b.hash(writer.token), writer.phase.d) := w] else owner
  }

  lemma WriterMoveKeeps<T>(b: Build<T>, base: seq<Slot<T>>, st: System<T>, owner: seq<int>, w: nat, i: nat)
    requires TableOk(b, base, st, owner) && w < |st.writers| && i < HASH_TABLE_SIZE
    ensures st.slots[i].valid ==> Apply(b, st, WriterMoves(w)).slots[i].valid
    ensures NewOwner(b, st, owner, w)[i] != w ==> Apply(b, st, WriterMoves(w)).slots[i] == st.slots[i]
  {
    assert SlotOk(b, base, st, owner, i);
    assert WriterOk(b, st, owner, w);
  }

  lemma WriterMoveEvolves<T>(b: Build<T>, base: seq<Slot<T>>, st: System<T>, owner: seq<int>, w: nat, i: nat, k: T)
    requires TableOk(b, base, st, owner) && w < |st.writers| && i < HASH_TABLE_SIZE
    requires Unused(base, k) && RegionsGone(base)
    ensures Evolves(k, st.slots[i], Apply(b, st, WriterMoves(w)).slots[i])
  {
    hide HasBit;
    assert SlotOk(b, base, st, owner, i);
    assert WriterOk(b, st, owner, w);
    assert Harmless(base[i].region);
  }

  lemma WriterMoveSlot<T>(b: Build<T>, base: seq<Slot<T>>, st: System<T>, owner: seq<int>, w: nat, i: nat)
    requires TableOk(b, base, st, owner) && w < |st.writers| && i < HASH_TABLE_SIZE
    ensures SlotOk(b, base, Apply(b, st, WriterMoves(w)), NewOwner(b, st, owner, w), i)
  {
    assert SlotOk(b, base, st, owner, i);
    assert WriterOk(b, st, owner, w);
  }

  lemma PathKept<T>(b: Build<T>, base: seq<Slot<T>>, st: System<T>, owner: seq<int>, w: nat, v: nat, e: nat)
    requires TableOk(b, base, st, owner) && w < |st.writers| && v < |st.writers|
    requires e < Depth(st.writers[v].phase) <= HASH_TABLE_SIZE
    ensures Passes(Apply(b, st, WriterMoves(w)).slots, b.hash(st.writers[v].token), st.writers[v].token, e)
  {
    var i := At(b.hash(st.writers[v].token), e);
    assert WriterOk(b, st, owner, v);
    assert Passes(st.slots, b.hash(st.writers[v].token), st.writers[v].token, e);
    WriterMoveKeeps(b, base, st, owner, w, i);
    assert WriterOk(b, st, owner, w);
    assert SlotOk(b, base, st, owner, i);
    if st.writers[w].phase.PutToken? && SlotOf(b, st.writers[w]) == i && v == w {
      AtInjective(b.hash(st.writers[w].token), st.writers[w].phase.d, e);
    }
  }

  lemma WriterMoveWriter<T>(b: Build<T>, base: seq<Slot<T>>, st: System<T>, owner: seq<int>, w: nat, v: nat)
    requires TableOk(b, base, st, owner) && w < |st.writers| && v < |st.writers|
    ensures WriterOk(b, Apply(b, st, WriterMoves(w)), NewOwner(b, st, owner, w), v)
  {
    var st' := Apply(b, st, WriterMoves(w));
    var writer := st.writers[v];
    var home := b.hash(writer.token);
    assert WriterOk(b, st, owner, v);
    forall e | 0 <= e < Depth(writer.phase)
      ensures Passes(st'.slots, home, writer.token, e)
    {
      PathKept(b, base, st, owner, w, v, e);
    }
    if v == w && writer.phase.Compare? {
      var i := At(home, writer.phase.d);
      assert SlotOk(b, base, st, owner, i);
      OthersSlot(b, base, st, owner, w, i);
      assert Passes(st'.slots, home, writer.token, writer.phase.d);
    }
    if v != w && writer.phase.Compare? {
      WriterMoveKeeps(b, base, st, owner, w, At(home, writer.phase.d));
    }
    if v != w && Owns(writer.phase) {
      assert SlotOk(b, base, st, owner, SlotOf(b, writer));
    }
  }

  lemma WriterMoveTable<T>(b: Build<T>, base: seq<Slot<T>>, st: System<T>, owner: seq<int>, w: nat)
    requires TableOk(b, base, st, owner) && w < |st.writers|
    ensures TableOk(b, base, Apply(b, st, WriterMoves(w)), NewOwner(b, st, owner, w))
  {
    hide SlotOk, WriterOk, Apply, NewOwner;
    DistinctKept(b, st, w);
    forall i | 0 <= i < HASH_TABLE_SIZE
      ensures SlotOk(b, base, Apply(b, st, WriterMoves(w)), NewOwner(b, st, owner, w), i)
    {
      WriterMoveSlot(b, base, st, owner, w, i);
    }
    forall v | 0 <= v < |st.writers|
      ensures WriterOk(b, Apply(b, st, WriterMoves(w)), NewOwner(b, st, owner, w), v)
    {
      WriterMoveWriter(b, base, st, owner, w, v);
    }
  }

  lemma DistinctKept<T>(b: Build<T>, st: System<T>, w: nat)
    requires Sound(st) && w < |st.writers| && Distinct(b, st.writers)
    ensures Distinct(b, Apply(b, st, WriterMoves(w)).writers)
    ensures forall v :: 0 <= v < |st.writers| ==>
              var v1, v2 := st.writers[v], Apply(b, st, WriterMoves(w)).writers[v];
              v1.token == v2.token && v1.region == v2.region && (v1.phase.Inserted? ==> v2 == v1)
  {
  }

  /** Lookups keep what they know while writers move. */
  lemma WriterMoveReader<T>(b: Build<T>, base: seq<Slot<T>>, st: System<T>, owner: seq<int>, w: nat, r: nat)
    requires Inv(b, base, st, owner) && w < |st.writers| && r < |st.readers|
    ensures ReaderOk(b, base, Apply(b, st, WriterMoves(w)), st.readers[r])
  {
    var reader := st.readers[r];
    var st' := Apply(b, st, WriterMoves(w));
    assert ReaderOk(b, base, st, reader);
    DistinctKept(b, st, w);
    if reader.due {
      var v :| 0 <= v < |st.writers| && st.writers[v].token == reader.token && st.writers[v].phase.Inserted?
               && OnTrack(reader, st.writers[v].region, st.writers[v].phase.d);
      assert st'.writers[v] == st.writers[v];
      assert WriterOk(b, st, owner, v);
      WriterMoveKeeps(b, base, st, owner, w, SlotOf(b, st.writers[v]));
    } else if Unused(base, reader.token) && RegionsGone(base) && !reader.stage.Refused? {
      WriterMoveEvolves(b, base, st, owner, w, At(b.hash(reader.token), reader.stage.d), reader.token);
      KnowledgeStays(b, st.slots, st'.slots, reader);
    }
  }

  lemma KnowledgeStays<T>(b: Build<T>, slots: seq<Slot<T>>, slots': seq<Slot<T>>, r: Reader<T>)
    requires |slots| == HASH_TABLE_SIZE == |slots'| && (r.stage.Refused? || r.stage.d < HASH_TABLE_SIZE)
    requires (r.bit == READ || r.bit == WRITE) && Knows(b, slots, r)
    requires !r.stage.Refused? ==> Evolves(r.token, slots[At(b.hash(r.token), r.stage.d)],
                                           slots'[At(b.hash(r.token), r.stage.d)])
    ensures Knows(b, slots', r)
  {
    hide At;
  }

  /** One step of a lookup keeps its knowledge and, if due, its course. */
  lemma ReaderMoveKnows<T>(b: Build<T>, slots: seq<Slot<T>>, r: Reader<T>)
    requires |slots| == HASH_TABLE_SIZE && (r.stage.Refused? || r.stage.d < HASH_TABLE_SIZE)
    requires (r.bit == READ || r.bit == WRITE) && Knows(b, slots, r)
    ensures Knows(b, slots, ReaderStep(b, slots, r))
  {
    hide At;
  }

  lemma ReaderMoveOnTrack<T>(b: Build<T>, slots: seq<Slot<T>>, r: Reader<T>, region: Region, d: nat)
    requires |slots| == HASH_TABLE_SIZE && (r.stage.Refused? || r.stage.d < HASH_TABLE_SIZE) && d < HASH_TABLE_SIZE
    requires (r.bit == READ || r.bit == WRITE) && Knows(b, slots, r) && OnTrack(r, region, d)
    requires forall e :: 0 <= e < d ==> Passes(slots, b.hash(r.token), r.token, e)
    requires slots[At(b.hash(r.token), d)] == Slot(true, r.token, region)
    ensures OnTrack(ReaderStep(b, slots, r), region, d)
  {
    hide At;
    if (r.stage.ReadValid? || r.stage.ReadToken?) && r.stage.d < d {
      assert Passes(slots, b.hash(r.token), r.token, r.stage.d);
    }
  }

  lemma ReaderMoveReader<T>(b: Build<T>, base: seq<Slot<T>>, st: System<T>, owner: seq<int>, r: nat)
    requires Inv(b, base, st, owner) && r < |st.readers|
    ensures ReaderOk(b, base, st, ReaderStep(b, st.slots, st.readers[r]))
  {
    var reader := st.readers[r];
    assert ReaderOk(b, base, st, reader);
    if Knows(b, st.slots, reader) {
      ReaderMoveKnows(b, st.slots, reader);
    }
    if reader.due {
      var w :| 0 <= w < |st.writers| && st.writers[w].token == reader.token && st.writers[w].phase.Inserted?
               && OnTrack(reader, st.writers[w].region, st.writers[w].phase.d);
      assert WriterOk(b, st, owner, w);
      assert SlotOk(b, base, st, owner, SlotOf(b, st.writers[w]));
      ReaderMoveOnTrack(b, st.slots, reader, st.writers[w].region, st.writers[w].phase.d);
      assert OnTrack(ReaderStep(b, st.slots, reader), st.writers[w].region, st.writers[w].phase.d);
    }
  }

  lemma ReaderStartsOk<T>(b: Build<T>, base: seq<Slot<T>>, st: System<T>, ev: Event<T>)
    requires Sound(st) && ev.ReaderStarts? && (ev.bit == READ || ev.bit == WRITE) && ev.token != b.global
    ensures ReaderOk(b, base, st, Reader(ev.token, ev.offset, ev.size, ev.bit, Completed(st, ev.token), ReadValid(0)))
  {
    var reader := Reader(ev.token, ev.offset, ev.size, ev.bit, Completed(st, ev.token), ReadValid(0));
    if reader.due {
      var w :| 0 <= w < |st.writers| && st.writers[w].token == ev.token && st.writers[w].phase.Inserted?;
      assert OnTrack(reader, st.writers[w].region, st.writers[w].phase.d);
    }
  }

  lemma EventKeepsInv<T>(b: Build<T>, base: seq<Slot<T>>, st: System<T>, owner: seq<int>, ev: Event<T>)
    returns (owner': seq<int>)
    requires Inv(b, base, st, owner)
    ensures Inv(b, base, Apply(b, st, ev), owner')
  {
    hide ReaderOk, SlotOk, WriterOk, WriterStep, ReaderStep;
    owner' := owner;
    var st' := Apply(b, st, ev);
    match ev
    case WriterMoves(w) =>
      if w < |st.writers| {
        owner' := NewOwner(b, st, owner, w);
        WriterMoveTable(b, base, st, owner, w);
        forall r | 0 <= r < |st.readers|
          ensures ReaderOk(b, base, st', st'.readers[r])
        {
          WriterMoveReader(b, base, st, owner, w, r);
        }
      }
    case ReaderStarts(_, _, _, _) => ReadersChange(b, base, st, owner, ev);
    case ReaderMoves(_) => ReadersChange(b, base, st, owner, ev);
  }

  /** Events of readers leave the table and the writers alone. */
  lemma ReadersChange<T>(b: Build<T>, base: seq<Slot<T>>, st: System<T>, owner: seq<int>, ev: Event<T>)
    requires Inv(b, base, st, owner) && !ev.WriterMoves?
    ensures Inv(b, base, Apply(b, st, ev), owner)
  {
    var st' := Apply(b, st, ev);
    assert st'.slots == st.slots && st'.writers == st.writers;
    assert TableOk(b, base, st', owner) by {
      assert forall i :: 0 <= i < HASH_TABLE_SIZE && SlotOk(b, base, st, owner, i) ==> SlotOk(b, base, st', owner, i);
      assert forall w :: 0 <= w < |st.writers| && WriterOk(b, st, owner, w) ==> WriterOk(b, st', owner, w);
    }
    forall r | 0 <= r < |st'.readers|
      ensures ReaderOk(b, base, st', st'.readers[r])
    {
      if r < |st.readers| && st'.readers[r] == st.readers[r] {
        assert ReaderOk(b, base, st, st.readers[r]);
        SameReader(b, base, st, st', st.readers[r]);
      } else if ev.ReaderMoves? {
        ReaderMoveReader(b, base, st, owner, ev.r);
        SameReader(b, base, st, st', st'.readers[r]);
      } else {
        ReaderStartsOk(b, base, st, ev);
        SameReader(b, base, st, st', st'.readers[r]);
      }
    }
  }

  lemma SameReader<T>(b: Build<T>, base: seq<Slot<T>>, st: System<T>, st': System<T>, r: Reader<T>)
    requires |st.slots| == HASH_TABLE_SIZE && st'.slots == st.slots && st'.writers == st.writers
    requires (r.stage.Refused? || r.stage.d < HASH_TABLE_SIZE) && (r.bit == READ || r.bit == WRITE)
    requires ReaderOk(b, base, st, r)
    ensures ReaderOk(b, base, st', r)
  {
    if r.due {
      var w :| 0 <= w < |st.writers| && st.writers[w].token == r.token && st.writers[w].phase.Inserted?
               && OnTrack(r, st.writers[w].region, st.writers[w].phase.d);
      assert OnTrack(r, st'.writers[w].region, st'.writers[w].phase.d);
    }
  }

  lemma {:induction false} RunKeepsInv<T>(b: Build<T>, st: System<T>, events: seq<Event<T>>) returns (owner: seq<int>)
    requires Sound(st) && Begins(b, st) && NoneStale(st.slots, st.writers)
    ensures Inv(b, st.slots, Run(b, st, events), owner)
    decreases |events|
  {
    hide Inv, Apply;
    if events == [] {
      owner := seq(HASH_TABLE_SIZE, _ => -1);
      BeginsInv(b, st, owner);
    } else {
      var before := RunKeepsInv(b, st, events[..|events| - 1]);
      owner := EventKeepsInv(b, st.slots, Run(b, st, events[..|events| - 1]), before, events[|events| - 1]);
    }
  }

  lemma BeginsInv<T>(b: Build<T>, st: System<T>, owner: seq<int>)
    requires Sound(st) && Begins(b, st) && NoneStale(st.slots, st.writers)
    requires |owner| == HASH_TABLE_SIZE && forall i :: 0 <= i < |owner| ==> owner[i] == -1
    ensures Inv(b, st.slots, st, owner)
  {
  }

  // ----- What every interleaving guarantees -----

  /** Results of inserts, at any time in any interleaving: no token is reported as a duplicate; two
      writers never hold the same slot; a completed insert sits complete in its slot and is what a
      lookup finds; -1 is returned only when every slot is taken. */
  lemma ConcurrentInsertsAreSafe<T>(b: Build<T>, st: System<T>, events: seq<Event<T>>, v: nat, w: nat)
    requires Sound(st) && Begins(b, st) && NoneStale(st.slots, st.writers) && v < |st.writers| && w < |st.writers|
    ensures var st' := Run(b, st, events);
            var writer := st'.writers[w];
            && !writer.phase.Duplicate?
            && (v != w && Owns(st'.writers[v].phase) && Owns(writer.phase) ==>
                SlotOf(b, st'.writers[v]) != SlotOf(b, writer))
            && (writer.phase.Inserted? ==>
                  && st'.slots[SlotOf(b, writer)] == Slot(true, writer.token, writer.region)
                  && Probe(st'.slots, b.hash(writer.token), writer.token) == writer.phase.d
                  && Lookup(b, st'.slots, writer.token) == Some(writer.region))
            && (writer.phase.Full? ==> forall i :: 0 <= i < |st'.slots| ==> st'.slots[i].valid)
  {
    var owner := RunKeepsInv(b, st, events);
    var st' := Run(b, st, events);
    var writer := st'.writers[w];
    assert WriterOk(b, st', owner, v) && WriterOk(b, st', owner, w);
    if writer.phase.Inserted? {
      assert SlotOk(b, st.slots, st', owner, SlotOf(b, writer));
      ProbeUnique(st'.slots, b.hash(writer.token), writer.token, writer.phase.d);
    }
    if writer.phase.Full? {
      ProbeUnique(st'.slots, b.hash(writer.token), writer.token, HASH_TABLE_SIZE);
      FullCircle(st'.slots, b.hash(writer.token), writer.token);
    }
  }

  /** A lookup that is allowed has seen the complete entry of its own token, never a mix, provided the
      table kept neither that token nor a size or permission. */
  lemma AllowedSawCompleteEntry<T>(b: Build<T>, st: System<T>, events: seq<Event<T>>, r: nat)
    requires Sound(st) && Begins(b, st) && NoneStale(st.slots, st.writers) && r < |Run(b, st, events).readers|
             && Run(b, st, events).readers[r].stage.Allowed?
    requires Unused(st.slots, Run(b, st, events).readers[r].token) && RegionsGone(st.slots)
    ensures var st' := Run(b, st, events);
            var reader := st'.readers[r];
            exists w :: 0 <= w < |st'.writers| && st'.writers[w].phase.Inserted? && st'.writers[w].token == reader.token
                        && Permits(st'.writers[w].region, reader.offset, reader.size, reader.bit)
  {
    var owner := RunKeepsInv(b, st, events);
    var st' := Run(b, st, events);
    var reader := st'.readers[r];
    assert ReaderOk(b, st.slots, st', reader);
    var i := At(b.hash(reader.token), reader.stage.d);
    assert SlotOk(b, st.slots, st', owner, i);
  }

  /** A lookup that begins after its token's insert has completed is allowed exactly when the inserted
      region permits the access, whatever else is going on. */
  lemma LaterLookupIsExact<T>(b: Build<T>, st: System<T>, events: seq<Event<T>>, r: nat)
    requires Sound(st) && Begins(b, st) && NoneStale(st.slots, st.writers) && r < |Run(b, st, events).readers|
    requires Run(b, st, events).readers[r].due
    requires Run(b, st, events).readers[r].stage.Allowed? || Run(b, st, events).readers[r].stage.Refused?
    ensures var st' := Run(b, st, events);
            var reader := st'.readers[r];
            exists w :: 0 <= w < |st'.writers| && st'.writers[w].phase.Inserted? && st'.writers[w].token == reader.token
                        && (reader.stage.Allowed? <==> Permits(st'.writers[w].region, reader.offset, reader.size,
                                                               reader.bit))
  {
    var owner := RunKeepsInv(b, st, events);
    var st' := Run(b, st, events);
    var reader := st'.readers[r];
    assert ReaderOk(b, st.slots, st', reader);
    var w :| 0 <= w < |st'.writers| && st'.writers[w].token == reader.token && st'.writers[w].phase.Inserted?
             && OnTrack(reader, st'.writers[w].region, st'.writers[w].phase.d);
    assert WriterOk(b, st', owner, w);
    assert SlotOk(b, st.slots, st', owner, SlotOf(b, st'.writers[w]));
  }

  // ----- Every insert returns -----

  /** Progress of a writer: two steps per probe, then at most five more. */
  function Rank(phase: Phase): nat {
    match phase
    case Claim(d) => 2 * d
    case Compare(d) => 2 * d + 1
    case PutToken(_) => 2 * HASH_TABLE_SIZE
    case PutOffset(_) => 2 * HASH_TABLE_SIZE + 1
    case PutSize(_) => 2 * HASH_TABLE_SIZE + 2
    case PutPermission(_) => 2 * HASH_TABLE_SIZE + 3
    case Inserted(_) => 2 * HASH_TABLE_SIZE + 4
    case Full => 2 * HASH_TABLE_SIZE + 4
    case Duplicate => 2 * HASH_TABLE_SIZE + 4
  }

  /** Every own step of an unfinished writer advances it and nobody else's step sets it back, so it
      returns after at most HASH_TABLE_SIZE probes (2 * HASH_TABLE_SIZE + 4 steps). */
  lemma EveryStepAdvances<T>(b: Build<T>, st: System<T>, ev: Event<T>, w: nat)
    requires Sound(st) && w < |st.writers|
    ensures var phase, phase' := st.writers[w].phase, Apply(b, st, ev).writers[w].phase;
            && Rank(phase') <= 2 * HASH_TABLE_SIZE + 4
            && (if ev == WriterMoves(w) && !Finished(phase) then Rank(phase') > Rank(phase) else phase' == phase)
            && (Rank(phase') == 2 * HASH_TABLE_SIZE + 4 <==> Finished(phase'))
  {
  }

  ghost function OwnSteps<T>(events: seq<Event<T>>, w: nat): nat {
    if events == [] then 0
    else OwnSteps(events[..|events| - 1], w) + if events[|events| - 1] == WriterMoves(w) then 1 else 0
  }

  lemma {:induction false} WritersReturn<T>(b: Build<T>, st: System<T>, events: seq<Event<T>>, w: nat)
    requires Sound(st) && w < |st.writers|
    ensures var phase := Run(b, st, events).writers[w].phase;
            Finished(phase) || Rank(phase) >= OwnSteps(events, w)
    ensures OwnSteps(events, w) >= 2 * HASH_TABLE_SIZE + 4 ==> Finished(Run(b, st, events).writers[w].phase)
    decreases |events|
  {
    hide Apply;
    if events != [] {
      var before := events[..|events| - 1];
      WritersReturn(b, st, before, w);
      EveryStepAdvances(b, Run(b, st, before), events[|events| - 1], w);
    } else {
      assert Rank(st.writers[w].phase) >= 0;
    }
  }
}
