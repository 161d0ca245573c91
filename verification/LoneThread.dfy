/** The step machine of the concurrent table, run by one thread alone, is the sequential table: from any
    table state a lone insertion ends in what insert_protection_entry leaves and returns, and a lone lookup
    in the decision of the access paths. */
module LoneThread {
  import opened TableSpec
  import opened ConcurrentInsert

  /** The table and the writer after n steps of its own. */
  ghost function WriterAlone<T>(b: Build<T>, slots: seq<Slot<T>>, w: Writer<T>, n: nat): (r: (seq<Slot<T>>, Writer<T>))
    requires |slots| == HASH_TABLE_SIZE && InTable(w.phase)
    ensures |r.0| == HASH_TABLE_SIZE && InTable(r.1.phase)
    decreases n
  {
    if n == 0 then (slots, w)
    else
      var (slots', w') := WriterAlone(b, slots, w, n - 1);
      WriterStep(b, slots', w')
  }

  /** A free slot is filled field by field: flag, token, offset, size, permission. */
  lemma WriterFillsInOrder<T>(b: Build<T>, slots: seq<Slot<T>>, w: Writer<T>, n: nat, d: nat)
    requires |slots| == HASH_TABLE_SIZE && InTable(w.phase) && d < HASH_TABLE_SIZE
    requires WriterAlone(b, slots, w, n) == (slots, w.(phase := Claim(d)))
    requires !slots[(b.hash(w.token) + d) % 0x200_0000].valid
    ensures var i := (b.hash(w.token) + d) % 0x200_0000;
            var left, k := slots[i], w.token;
            var Region(offset, size, permission) := w.region;
            var Region(_, oldSize, oldPermission) := left.region;
            && WriterAlone(b, slots, w, n + 1).0 == slots[i := Slot(true, left.token, left.region)]
            && WriterAlone(b, slots, w, n + 2).0 == slots[i := Slot(true, k, left.region)]
            && WriterAlone(b, slots, w, n + 3).0 == slots[i := Slot(true, k, Region(offset, oldSize, oldPermission))]
            && WriterAlone(b, slots, w, n + 4).0 == slots[i := Slot(true, k, Region(offset, size, oldPermission))]
            && WriterAlone(b, slots, w, n + 5) == (slots[i := Slot(true, k, w.region)], w.(phase := Inserted(d)))
  {
    hide WriterAlone;
    var i := At(b.hash(w.token), d);
    var left, region := slots[i], w.region;
    WriterOnce(b, slots, w, n);
    WriterOnce(b, slots, w, n + 1);
    WriterOnce(b, slots, w, n + 2);
    WriterOnce(b, slots, w, n + 3);
    WriterOnce(b, slots, w, n + 4);
    assert w.region == Region(w.region.offset, w.region.size, w.region.permission);
    assert slots[i := Slot(true, w.token, Region(region.offset, region.size, left.region.permission))]
        [i := Slot(true, w.token, region)] == slots[i := Slot(true, w.token, region)];
  }

  lemma WriterOnce<T>(b: Build<T>, slots: seq<Slot<T>>, w: Writer<T>, n: nat)
    requires |slots| == HASH_TABLE_SIZE && InTable(w.phase)
    ensures var (slots', w') := WriterAlone(b, slots, w, n);
            WriterAlone(b, slots, w, n + 1) == WriterStep(b, slots', w')
  {
  }

  /** How an insertion ends that returns this code. */
  predicate Returns(phase: Phase, code: int) {
    if code == 0 then phase.Inserted? else if code == -2 then phase.Duplicate? else code == -1 && phase.Full?
  }

  lemma {:induction false} LoneWriterFrom<T>(b: Build<T>, slots: seq<Slot<T>>, w: Writer<T>, start: nat, d: nat)
    returns (n: nat)
    requires |slots| == HASH_TABLE_SIZE && InTable(w.phase) && d < HASH_TABLE_SIZE
    requires WriterAlone(b, slots, w, start) == (slots, w.(phase := Claim(d)))
    requires forall e :: 0 <= e < d ==> Passes(slots, b.hash(w.token), w.token, e)
    ensures var (slots', w') := WriterAlone(b, slots, w, n);
            var (s, code) := Insert(b, slots, w.token, w.region);
            slots' == s && Returns(w'.phase, code)
    decreases HASH_TABLE_SIZE - d
  {
    hide WriterAlone;
    var i := At(b.hash(w.token), d);
    if !slots[i].valid {
      ProbeUnique(slots, b.hash(w.token), w.token, d);
      WriterFillsInOrder(b, slots, w, start, d);
      n := start + 5;
    } else {
      WriterOnce(b, slots, w, start);
      WriterOnce(b, slots, w, start + 1);
      n := start + 2;
      if slots[i].token == w.token {
        ProbeUnique(slots, b.hash(w.token), w.token, d);
      } else {
        assert Passes(slots, b.hash(w.token), w.token, d);
        if d + 1 == HASH_TABLE_SIZE {
          ProbeUnique(slots, b.hash(w.token), w.token, HASH_TABLE_SIZE);
        } else {
          n := LoneWriterFrom(b, slots, w, start + 2, d + 1);
        }
      }
    }
  }

  /** A lone insertion is the sequential one, from any table state. */
  lemma LoneWriterInserts<T>(b: Build<T>, slots: seq<Slot<T>>, w: Writer<T>) returns (n: nat)
    requires |slots| == HASH_TABLE_SIZE && w.phase == Claim(0)
    ensures var (slots', w') := WriterAlone(b, slots, w, n);
            var (s, code) := Insert(b, slots, w.token, w.region);
            slots' == s && Returns(w'.phase, code)
  {
    assert w.(phase := Claim(0)) == w;
    n := LoneWriterFrom(b, slots, w, 0, 0);
  }

  // ----- Lookups -----

  predicate Steppable<T>(r: Reader<T>) {
    (r.stage.Refused? || r.stage.d < HASH_TABLE_SIZE) && (r.bit == READ || r.bit == WRITE)
  }

  /** The lookup after n steps of its own. */
  ghost function ReaderAlone<T>(b: Build<T>, slots: seq<Slot<T>>, r: Reader<T>, n: nat): (r': Reader<T>)
    requires |slots| == HASH_TABLE_SIZE && Steppable(r)
    ensures Steppable(r')
    decreases n
  {
    if n == 0 then r else ReaderStep(b, slots, ReaderAlone(b, slots, r, n - 1))
  }

  function Rank(stage: Stage): nat {
    match stage
    case ReadValid(_) => 9
    case ReadToken(_) => 8
    case CheckValid(_) => 7
    case CheckToken(_) => 6
    case CheckEmpty(_) => 5
    case CheckLow(_) => 4
    case CheckHigh(_) => 3
    case CheckHighSize(_, _) => 2
    case CheckBit(_) => 1
    case _ => 0
  }

  /** Where a lone lookup has come: every slot before was passed, and what it has checked holds. */
  ghost predicate OnTrack<T>(b: Build<T>, slots: seq<Slot<T>>, r: Reader<T>)
    requires |slots| == HASH_TABLE_SIZE && Steppable(r)
  {
    && !r.stage.Refused? && Knows(b, slots, r)
    && (forall e :: 0 <= e < r.stage.d ==> Passes(slots, b.hash(r.token), r.token, e))
    && (r.stage.ReadToken? ==> slots[At(b.hash(r.token), r.stage.d)].valid)
    && (Rank(r.stage) <= 7 ==> !Passes(slots, b.hash(r.token), r.token, r.stage.d))
  }

  ghost predicate Decided<T>(b: Build<T>, slots: seq<Slot<T>>, r: Reader<T>)
    requires |slots| == HASH_TABLE_SIZE && Steppable(r)
  {
    if Granted(b, slots, r.token, r.offset, r.size, r.bit) then r.stage.Allowed? else r.stage.Refused?
  }

  /** One step of the probe loop keeps to the track or closes the circle. */
  lemma ProbeGoesOn<T>(b: Build<T>, slots: seq<Slot<T>>, r: Reader<T>)
    requires |slots| == HASH_TABLE_SIZE && Steppable(r) && r.token != b.global && OnTrack(b, slots, r)
    requires Rank(r.stage) > 7
    ensures var next := ReaderStep(b, slots, r);
            && Steppable(next)
            && (if next.stage.Refused? then Decided(b, slots, next)
                else
                  && OnTrack(b, slots, next)
                  && (next.stage.d == r.stage.d + 1 || (next.stage.d == r.stage.d && Rank(next.stage) < Rank(r.stage))))
  {
    hide At, Permits;
    var home := b.hash(r.token);
    if r.stage.ReadToken? && slots[At(home, r.stage.d)].token != r.token {
      assert Passes(slots, home, r.token, r.stage.d);
      if r.stage.d + 1 == HASH_TABLE_SIZE {
        ProbeUnique(slots, home, r.token, HASH_TABLE_SIZE);
      }
    }
  }

  /** One check of the slot found keeps to the track or decides. */
  lemma CheckGoesOn<T>(b: Build<T>, slots: seq<Slot<T>>, r: Reader<T>)
    requires |slots| == HASH_TABLE_SIZE && Steppable(r) && r.token != b.global && OnTrack(b, slots, r)
    requires 1 <= Rank(r.stage) <= 7
    ensures var next := ReaderStep(b, slots, r);
            && Steppable(next)
            && (if next.stage.Refused? then Decided(b, slots, next)
                else OnTrack(b, slots, next) && next.stage.d == r.stage.d && Rank(next.stage) < Rank(r.stage))
  {
    hide At, HasBit, ProbeFrom, Probe;
    ProbeUnique(slots, b.hash(r.token), r.token, r.stage.d);
  }

  lemma TrackEnds<T>(b: Build<T>, slots: seq<Slot<T>>, r: Reader<T>)
    requires |slots| == HASH_TABLE_SIZE && Steppable(r) && r.token != b.global && OnTrack(b, slots, r)
    requires r.stage.Allowed?
    ensures Decided(b, slots, r)
  {
    ProbeUnique(slots, b.hash(r.token), r.token, r.stage.d);
  }

  lemma {:induction false} LoneReaderFrom<T>(b: Build<T>, slots: seq<Slot<T>>, r: Reader<T>, start: nat)
    returns (n: nat)
    requires |slots| == HASH_TABLE_SIZE && Steppable(r) && r.token != b.global
    requires OnTrack(b, slots, ReaderAlone(b, slots, r, start)) && SameLookup(r, ReaderAlone(b, slots, r, start))
    ensures Decided(b, slots, ReaderAlone(b, slots, r, n)) && SameLookup(r, ReaderAlone(b, slots, r, n))
    decreases HASH_TABLE_SIZE - ReaderAlone(b, slots, r, start).stage.d, Rank(ReaderAlone(b, slots, r, start).stage)
  {
    hide Knows, Granted;
    var now := ReaderAlone(b, slots, r, start);
    if now.stage.Allowed? {
      TrackEnds(b, slots, now);
      n := start;
    } else {
      if Rank(now.stage) > 7 {
        ProbeGoesOn(b, slots, now);
      } else {
        CheckGoesOn(b, slots, now);
      }
      assert ReaderAlone(b, slots, r, start + 1) == ReaderStep(b, slots, now);
      if ReaderStep(b, slots, now).stage.Refused? {
        n := start + 1;
      } else {
        n := LoneReaderFrom(b, slots, r, start + 1);
      }
    }
  }

  predicate SameLookup<T(==)>(r: Reader<T>, r': Reader<T>) {
    r' == r.(stage := r'.stage)
  }

  /** A lone lookup is allowed exactly when the access paths grant the access, from any table state. */
  lemma LoneReaderDecides<T>(b: Build<T>, slots: seq<Slot<T>>, r: Reader<T>) returns (n: nat)
    requires |slots| == HASH_TABLE_SIZE && r.token != b.global && (r.bit == READ || r.bit == WRITE)
    requires r.stage == ReadValid(0)
    ensures var end := ReaderAlone(b, slots, r, n).stage;
            if Granted(b, slots, r.token, r.offset, r.size, r.bit) then end.Allowed? else end.Refused?
  {
    hide Granted;
    n := LoneReaderFrom(b, slots, r, 0);
  }
}
