/** Several hosts on one memory, seen as one map from bucket to pair.

    Each operation takes effect at one step: an insert when it stores the head word, a get when it
    reads the head word, a del when it stores its zero word or, if the bucket holds nothing or another
    key, when it reads the head word. The records of these steps, in their order, are the history. */
module Linearization {
  import opened Memory
  import opened Layout
  import opened Chains
  import opened UnprotectedStore
  import opened Publication
  import opened Overlaps

  /** What an operation did and answered. */
  datatype Action =
    | Inserted(pair: Pair)
    | Got(key: Bytes, found: bool, value: Bytes)
    | Deleted(key: Bytes, found: bool)

  datatype Record = Record(h: nat, action: Action)

  type Buckets = map<nat, Pair>

  // ----- One operation after the other -----

  predicate Holds(m: Buckets, key: Bytes) {
    |key| == KEY_SIZE && Bucket(key) in m && m[Bucket(key)].key == key
  }

  function GotFrom(m: Buckets, key: Bytes): Action {
    if Holds(m, key) then Got(key, true, m[Bucket(key)].value) else Got(key, false, [])
  }

  /** The map answers like this. */
  predicate Legal(m: Buckets, action: Action) {
    match action
    case Inserted(pair) => |pair.key| == KEY_SIZE
    case Got(key, _, _) => |key| == KEY_SIZE && action == GotFrom(m, key)
    case Deleted(key, found) => |key| == KEY_SIZE && found == Holds(m, key)
  }

  function After(m: Buckets, action: Action): Buckets {
    if !Legal(m, action) then m
    else
      match action
      case Inserted(pair) => m[Bucket(pair.key) := pair]
      case Got(_, _, _) => m
      case Deleted(key, found) => if found then m - {Bucket(key)} else m
  }

  function MapAfter(history: seq<Record>): Buckets {
    if history == [] then map[] else After(MapAfter(history[..|history| - 1]), history[|history| - 1].action)
  }

  /** Carried out alone and in this order, every operation would have answered as it did. */
  ghost predicate LegalHistory(history: seq<Record>) {
    forall i :: 0 <= i < |history| ==> Legal(MapAfter(history[..i]), history[i].action)
  }

  // ----- The history of a run -----

  /** The address leads to an entry of that key. */
  predicate LeadsTo(m: Bytes, vs: nat, e: nat, key: Bytes) {
    e != 0 && Fits(m, vs, e) && KeyAt(m, vs, e) == key
  }

  /** What an event decides, as the bytes show it: nothing or one operation. */
  function Decides(st: System, vs: nat, ev: Event): (r: seq<Record>)
    ensures |r| <= 1
  {
    if !ev.Move? || ev.h >= |st.hosts| || !Mappable(st.mem, vs, st.hosts[ev.h]) then []
    else
      match st.hosts[ev.h].task
      case WriteHead(pair) => [Record(ev.h, Inserted(pair))]
      case GetHead(key) =>
        var e := WordAt(st.mem, Bucket(key));
        var leads := LeadsTo(st.mem, vs, e, key);
        [Record(ev.h, if leads then Got(key, true, ValueAt(st.mem, vs, e)) else Got(key, false, []))]
      case DelHead(key) =>
        if LeadsTo(st.mem, vs, WordAt(st.mem, Bucket(key)), key) then [] else [Record(ev.h, Deleted(key, false))]
      case DelUnlink(key, _, _) => [Record(ev.h, Deleted(key, true))]
      case _ => []
  }

  function History(st: System, vs: nat, events: seq<Event>): seq<Record>
    decreases |events|
  {
    if events == [] then []
    else
      var before := events[..|events| - 1];
      History(st, vs, before) + Decides(Run(st, vs, before), vs, events[|events| - 1])
  }

  // ----- The map in memory -----

  ghost predicate Led(st: System, b: nat) {
    IsHead(st.hosts, b) && b + 8 <= |st.mem| && WordAt(st.mem, b) != 0 && WordAt(st.mem, b) in st.complete
  }

  /** Every bucket whose head is not zero, with the pair of the entry it leads to. */
  ghost function Contents(st: System): Buckets {
    map b: nat | 0 <= b < |st.mem| && Led(st, b) :: st.complete[WordAt(st.mem, b)].pair
  }

  /** A head word, read as the map's content. */
  lemma HeadShows(st: System, vs: nat, key: Bytes)
    requires Inv(st, vs) && |st.hosts| > 0 && |key| == KEY_SIZE && IsHead(st.hosts, Bucket(key))
    ensures Bucket(key) + 8 <= |st.mem|
    ensures var e := WordAt(st.mem, Bucket(key));
            && (Bucket(key) in Contents(st) <==> e != 0)
            && (LeadsTo(st.mem, vs, e, key) <==> Holds(Contents(st), key))
            && (e != 0 ==>
                  && e in st.complete
                  && Contents(st)[Bucket(key)] == st.complete[e].pair == PairAt(st.mem, vs, e))
  {
    hide Bucket, WordAt, Read, IsHead, TaskOk, HostsOk;
    assert HeadOk(st, Bucket(key));
    var e := WordAt(st.mem, Bucket(key));
    if e != 0 {
      assert EntryOk(st, vs, e);
    }
  }

  /** A head word that keeps its value keeps its content. */
  lemma ContentKept(st: System, vs: nat, ev: Event, b: nat)
    requires Inv(st, vs) && |st.hosts| > 0 && !Stores(st, ev, b)
    ensures var m, m' := Contents(st), Contents(Apply(st, vs, ev));
            (b in m' <==> b in m) && (b in m ==> m'[b] == m[b])
  {
    hide Inv, Apply, WordAt, Stores, IsHead;
    EventKeepsHosts(st, vs, ev);
    if IsHead(st.hosts, b) {
      HeadAfter(st, vs, ev, b);
      var e := WordAt(st.mem, b);
      HeadKnown(st, vs, b);
      if e != 0 {
        HistoryGrows(st, vs, ev, e);
      }
    }
  }

  lemma HeadKnown(st: System, vs: nat, b: nat)
    requires Inv(st, vs) && |st.hosts| > 0 && IsHead(st.hosts, b)
    ensures b + 8 <= |st.mem| && (WordAt(st.mem, b) != 0 ==> WordAt(st.mem, b) in st.complete)
  {
    hide Bucket, WordAt, IsHead, TaskOk, HostsOk, EntryOk;
    assert HeadOk(st, b);
  }

  /** An event that stores no head word leaves the map. */
  lemma MapKept(st: System, vs: nat, ev: Event)
    requires Inv(st, vs) && |st.hosts| > 0 && forall b :: !Stores(st, ev, b)
    ensures Contents(Apply(st, vs, ev)) == Contents(st)
  {
    hide Inv, Apply, Stores, Contents;
    forall b: nat
      ensures var m, m' := Contents(st), Contents(Apply(st, vs, ev));
              (b in m' <==> b in m) && (b in m ==> m'[b] == m[b])
    {
      ContentKept(st, vs, ev, b);
    }
  }

  // ----- One step against the map -----

  /** A del about to unlink finds its key in the bucket. */
  ghost predicate OrderlyAt(st: System, ev: Event) {
    ev.Move? && ev.h < |st.hosts| && st.hosts[ev.h].task.DelUnlink? ==> Holds(Contents(st), st.hosts[ev.h].task.key)
  }

  /** Each event carries out on the map in memory what it records; an unlinking del only if it is
      orderly. */
  lemma EventActsOnMap(st: System, vs: nat, ev: Event)
    requires Inv(st, vs) && |st.hosts| > 0
    ensures var decided := Decides(st, vs, ev);
            && (decided == [] ==> OrderlyAt(st, ev) && Contents(Apply(st, vs, ev)) == Contents(st))
            && (decided != [] ==> (Legal(Contents(st), decided[0].action) <==> OrderlyAt(st, ev)))
            && (decided != [] && OrderlyAt(st, ev) ==>
                  Contents(Apply(st, vs, ev)) == After(Contents(st), decided[0].action))
  {
    hide Inv, Apply, WordAt, Read, Contents, Bucket, IsHead, Mappable;
    if ev.Move? && ev.h < |st.hosts| {
      Mapping(st, vs, ev.h);
      match st.hosts[ev.h].task
      case WriteHead(pair) => InsertActs(st, vs, ev.h);
      case DelUnlink(key, link, _) => UnlinkActs(st, vs, ev.h);
      case _ => LookActs(st, vs, ev.h);
    } else {
      MapKept(st, vs, ev);
    }
  }

  lemma InsertActs(st: System, vs: nat, h: nat)
    requires Inv(st, vs) && h < |st.hosts| && st.hosts[h].task.WriteHead?
    ensures Legal(Contents(st), Inserted(st.hosts[h].task.pair))
    ensures Contents(Apply(st, vs, Move(h))) == After(Contents(st), Inserted(st.hosts[h].task.pair))
  {
    hide Apply, WordAt, Read, Contents, Bucket, IsHead, EntryOk, HeadOk, HostsOk;
    assert TaskOk(st, vs, h);
    var pair := st.hosts[h].task.pair;
    var next := st.hosts[h].next;
    var st' := Apply(st, vs, Move(h));
    HeadAfter(st, vs, Move(h), Bucket(pair.key));
    NextIsPositive(st, vs, Move(h));
    EventKeepsInv(st, vs, Move(h));
    HistoryGrows(st, vs, Move(h), next);
    HeadShows(st', vs, pair.key);
    forall b: nat | b != Bucket(pair.key)
      ensures var m, m' := Contents(st), Contents(st');
              (b in m' <==> b in m) && (b in m ==> m'[b] == m[b])
    {
      ContentKept(st, vs, Move(h), b);
    }
  }

  lemma UnlinkActs(st: System, vs: nat, h: nat)
    requires Inv(st, vs) && h < |st.hosts| && st.hosts[h].task.DelUnlink?
    ensures |st.hosts[h].task.key| == KEY_SIZE
    ensures Contents(Apply(st, vs, Move(h))) == Contents(st) - {Bucket(st.hosts[h].task.key)}
  {
    hide Apply, WordAt, Read, Contents, Bucket, IsHead, EntryOk, HeadOk, HostsOk;
    assert TaskOk(st, vs, h);
    var key := st.hosts[h].task.key;
    var st' := Apply(st, vs, Move(h));
    HeadAfter(st, vs, Move(h), Bucket(key));
    EventKeepsInv(st, vs, Move(h));
    HeadShows(st', vs, key);
    forall b: nat | b != Bucket(key)
      ensures var m, m' := Contents(st), Contents(st');
              (b in m' <==> b in m) && (b in m ==> m'[b] == m[b])
    {
      ContentKept(st, vs, Move(h), b);
    }
  }

  lemma LookActs(st: System, vs: nat, h: nat)
    requires Inv(st, vs) && h < |st.hosts| && !st.hosts[h].task.WriteHead? && !st.hosts[h].task.DelUnlink?
    ensures var decided := Decides(st, vs, Move(h));
            && Contents(Apply(st, vs, Move(h))) == Contents(st)
            && (decided != [] ==>
                  Legal(Contents(st), decided[0].action) && After(Contents(st), decided[0].action) == Contents(st))
  {
    hide Apply, WordAt, Read, Contents, Bucket, IsHead, EntryOk, HeadOk, HostsOk, Mappable;
    MapKept(st, vs, Move(h));
    Mapping(st, vs, h);
    assert TaskOk(st, vs, h);
    var task := st.hosts[h].task;
    if task.GetHead? || task.DelHead? {
      HeadShows(st, vs, task.key);
    }
  }

  // ----- Whole runs -----

  ghost predicate Orderly(st: System, vs: nat, events: seq<Event>) {
    forall k :: 0 <= k < |events| ==> OrderlyAt(Run(st, vs, events[..k]), events[k])
  }

  lemma OrderlyMore(st: System, vs: nat, events: seq<Event>)
    requires events != []
    ensures var n := |events| - 1;
            Orderly(st, vs, events) <==> Orderly(st, vs, events[..n]) && OrderlyAt(Run(st, vs, events[..n]), events[n])
  {
    hide Run, OrderlyAt;
    var n := |events| - 1;
    assert forall k :: 0 <= k <= n ==> events[..n][..k] == events[..k];
  }

  lemma LegalMore(history: seq<Record>, record: Record)
    ensures LegalHistory(history + [record]) <==> LegalHistory(history) && Legal(MapAfter(history), record.action)
    ensures MapAfter(history + [record]) == After(MapAfter(history), record.action)
  {
    hide Legal, After;
    var more := history + [record];
    assert more[..|more| - 1] == history;
    assert forall i :: 0 <= i <= |history| ==> more[..i] == history[..i];
    assert more[|history|] == record && history[..|history|] == history;
  }

  /** The history of a run is one of the map, with every answer the one given, exactly when every del
      that unlinks finds its key in the bucket; and then the heads show that map. */
  lemma {:induction false} LinearizableIffOrderly(st: System, vs: nat, events: seq<Event>)
    requires Initial(st) && |st.hosts| > 0
    ensures LegalHistory(History(st, vs, events)) <==> Orderly(st, vs, events)
    ensures Orderly(st, vs, events) ==> MapAfter(History(st, vs, events)) == Contents(Run(st, vs, events))
    decreases |events|
  {
    hide Apply, Inv, Initial, Decides, OrderlyAt, Contents, Legal, After, Orderly, LegalHistory, MapAfter;
    if events == [] {
      EmptyAtFirst(st, vs);
    } else {
      var n := |events| - 1;
      var before := Run(st, vs, events[..n]);
      LinearizableIffOrderly(st, vs, events[..n]);
      RunKeepsInv(st, vs, events[..n]);
      InitialInv(st, vs);
      RunHosts(st, vs, events[..n]);
      EventActsOnMap(before, vs, events[n]);
      OrderlyMore(st, vs, events);
      var decided := Decides(before, vs, events[n]);
      if decided != [] {
        assert decided == [decided[0]];
        LegalMore(History(st, vs, events[..n]), decided[0]);
      } else {
        assert History(st, vs, events) == History(st, vs, events[..n]);
      }
    }
  }

  lemma EmptyAtFirst(st: System, vs: nat)
    requires Initial(st) && |st.hosts| > 0
    ensures LegalHistory([]) && Orderly(st, vs, []) && MapAfter([]) == Contents(st)
  {
    hide WordAt, IsHead;
  }

  // ----- Runs without overlapped dels -----

  /** Host h has been within one del since the event j, the step that read its head word. */
  ghost predicate DelSpan(st: System, vs: nat, events: seq<Event>, h: nat, j: nat, k: nat) {
    && j < k <= |events| && events[j] == Move(h)
    && h < |Run(st, vs, events[..j]).hosts| && Run(st, vs, events[..j]).hosts[h].task.DelHead?
    && forall i :: j < i <= k ==>
         h < |Run(st, vs, events[..i]).hosts| && Deleting(Run(st, vs, events[..i]).hosts[h].task)
  }

  /** The event k is the unlinking step of a del during which another host stored its head word. */
  ghost predicate Overlapped(st: System, vs: nat, events: seq<Event>, k: nat)
    requires k < |events|
  {
    var at := Run(st, vs, events[..k]);
    var h := events[k].h;
    && events[k].Move? && h < |at.hosts| && at.hosts[h].task.DelUnlink?
    && exists j, i :: DelSpan(st, vs, events, h, j, k)
                      && StoresBetween(st, vs, events, h, at.hosts[h].task.link, j, i, k)
  }

  ghost predicate StoresBetween(st: System, vs: nat, events: seq<Event>, h: nat, b: nat, j: nat, i: nat, k: nat) {
    j < i < k <= |events| && events[i].h != h && Stores(Run(st, vs, events[..i]), events[i], b)
  }

  /** Whoever is within a del has begun it. */
  lemma {:induction false} DelBegan(st: System, vs: nat, events: seq<Event>, h: nat) returns (j: nat)
    requires Initial(st) && h < |Run(st, vs, events).hosts| && Deleting(Run(st, vs, events).hosts[h].task)
    ensures DelSpan(st, vs, events, h, j, |events|)
    decreases |events|
  {
    hide Inv, Apply, Initial;
    j := 0;
    if events == [] {
      NobodyDeleting(st, h);
      assert false;
    } else {
      var n := |events| - 1;
      var before := Run(st, vs, events[..n]);
      RunKeepsInv(st, vs, events[..n]);
      EventKeepsHosts(before, vs, events[n]);
      DelContinues(before, vs, events[n], h);
      assert events[..n + 1] == events;
      if Deleting(before.hosts[h].task) {
        j := DelBegan(st, vs, events[..n], h);
        SpanGrows(st, vs, events, h, j);
      } else {
        j := n;
      }
    }
  }

  lemma NobodyDeleting(st: System, h: nat)
    requires Initial(st) && h < |st.hosts|
    ensures !Deleting(st.hosts[h].task)
  {
  }

  lemma DelContinues(st: System, vs: nat, ev: Event, h: nat)
    requires Inv(st, vs) && h < |st.hosts| && h < |Apply(st, vs, ev).hosts| && Deleting(Apply(st, vs, ev).hosts[h].task)
    ensures Deleting(st.hosts[h].task) || (ev == Move(h) && st.hosts[h].task.DelHead?)
  {
    hide Inv, Bucket, WordAt, Read, Write, PutWord, Usable;
  }

  lemma SpanGrows(st: System, vs: nat, events: seq<Event>, h: nat, j: nat)
    requires events != [] && DelSpan(st, vs, events[..|events| - 1], h, j, |events| - 1)
    requires h < |Run(st, vs, events).hosts| && Deleting(Run(st, vs, events).hosts[h].task)
    ensures DelSpan(st, vs, events, h, j, |events|)
  {
    hide Run, Deleting;
    var n := |events| - 1;
    assert events[..n + 1] == events;
    assert forall i :: 0 <= i <= n ==> events[..n][..i] == events[..i];
    assert events[..n][j] == events[j];
  }

  /** A run from its j-th event on. */
  lemma RunFrom(st: System, vs: nat, events: seq<Event>, j: nat, i: nat)
    requires j < i <= |events|
    ensures Run(Apply(Run(st, vs, events[..j]), vs, events[j]), vs, events[j + 1..i]) == Run(st, vs, events[..i])
  {
    hide Run, Apply;
    RunSnoc(st, vs, events[..j], events[j]);
    assert events[..j] + [events[j]] == events[..j + 1];
    RunConcat(st, vs, events[..j + 1], events[j + 1..i]);
    assert events[..j + 1] + events[j + 1..i] == events[..i];
  }

  /** If no other host stores the head word of a del while it lasts, the del is orderly. */
  lemma UndisturbedIsOrderly(st: System, vs: nat, events: seq<Event>, k: nat)
    requires Initial(st) && |st.hosts| > 0 && k < |events| && !Overlapped(st, vs, events, k)
    ensures OrderlyAt(Run(st, vs, events[..k]), events[k])
  {
    hide Inv, Apply, Initial, Run, DelSpan, Contents, Bucket, WordAt, IsHead, Stores, Deleting;
    var at := Run(st, vs, events[..k]);
    var h := events[k].h;
    if events[k].Move? && h < |at.hosts| && at.hosts[h].task.DelUnlink? {
      assert Deleting(at.hosts[h].task) by {
        UnlinkIsDeleting(at.hosts[h].task);
      }
      var j := DelBegan(st, vs, events[..k], h);
      SpanWithin(st, vs, events, h, j, k);
      var key := Run(st, vs, events[..j]).hosts[h].task.key;
      var during := events[j + 1..k];
      SpanReaches(st, vs, events, h, key, j, k);
      DelUnlinksItsEntryUnlessOverlapped(st, vs, events[..j], h, key, during);
      RunFrom(st, vs, events, j, k);
      NoStoreBetween(st, vs, events, h, key, j, k);
      FoundIsHeld(at, vs, h, key, WordAt(Run(st, vs, events[..j]).mem, Bucket(key)));
    }
  }

  lemma UnlinkIsDeleting(task: Task)
    requires task.DelUnlink?
    ensures Deleting(task)
  {
  }

  lemma SpanWithin(st: System, vs: nat, events: seq<Event>, h: nat, j: nat, k: nat)
    requires k <= |events| && DelSpan(st, vs, events[..k], h, j, k)
    ensures DelSpan(st, vs, events, h, j, k)
    ensures j < k && events[j] == Move(h) && h < |Run(st, vs, events[..j]).hosts|
            && Run(st, vs, events[..j]).hosts[h].task.DelHead?
  {
    hide Run, Deleting;
    assert forall i :: 0 <= i <= k ==> events[..k][..i] == events[..i];
    assert events[..k][j] == events[j];
  }

  lemma SpanReaches(st: System, vs: nat, events: seq<Event>, h: nat, key: Bytes, j: nat, k: nat)
    requires Initial(st) && k < |events| && DelSpan(st, vs, events, h, j, k)
    requires Run(st, vs, events[..j]).hosts[h].task == DelHead(key) && Run(st, vs, events[..k]).hosts[h].task.DelUnlink?
    ensures DelReaches(st, vs, events[..j], h, key, events[j + 1..k])
  {
    hide Run, Deleting, Initial, Apply;
    var found := Apply(Run(st, vs, events[..j]), vs, Move(h));
    var during := events[j + 1..k];
    RunFrom(st, vs, events, j, k);
    forall i | 0 <= i <= |during|
      ensures h < |Run(found, vs, during[..i]).hosts| && Deleting(Run(found, vs, during[..i]).hosts[h].task)
    {
      assert during[..i] == events[j + 1..j + 1 + i];
      RunFrom(st, vs, events, j, j + 1 + i);
    }
  }

  lemma NoStoreBetween(st: System, vs: nat, events: seq<Event>, h: nat, key: Bytes, j: nat, k: nat)
    requires k < |events| && DelSpan(st, vs, events, h, j, k) && !Overlapped(st, vs, events, k)
    requires events[k] == Move(h) && Run(st, vs, events[..k]).hosts[h].task.DelUnlink?
    requires |key| == KEY_SIZE && Run(st, vs, events[..k]).hosts[h].task.link == Bucket(key)
    ensures !OthersStore(Apply(Run(st, vs, events[..j]), vs, Move(h)), vs, events[j + 1..k], h, Bucket(key))
  {
    hide Run, Apply, Stores, DelSpan, Bucket;
    SpanStart(st, vs, events, h, j, k);
    var found := Apply(Run(st, vs, events[..j]), vs, Move(h));
    var during := events[j + 1..k];
    forall i | 0 <= i < |during| && during[i].h != h
      ensures !Stores(Run(found, vs, during[..i]), during[i], Bucket(key))
    {
      assert during[i] == events[j + 1 + i] && during[..i] == events[j + 1..j + 1 + i];
      if i == 0 {
        RunNothing(found, vs);
        RunSnoc(st, vs, events[..j], events[j]);
        assert events[..j] + [events[j]] == events[..j + 1];
      } else {
        RunFrom(st, vs, events, j, j + 1 + i);
      }
      assert !StoresBetween(st, vs, events, h, Bucket(key), j, j + 1 + i, k);
    }
  }

  lemma RunNothing(st: System, vs: nat)
    ensures Run(st, vs, []) == st
  {
  }

  lemma SpanStart(st: System, vs: nat, events: seq<Event>, h: nat, j: nat, k: nat)
    requires DelSpan(st, vs, events, h, j, k)
    ensures j < k <= |events| && events[j] == Move(h) && h < |Run(st, vs, events[..k]).hosts|
  {
  }

  lemma FoundIsHeld(st: System, vs: nat, h: nat, key: Bytes, e: nat)
    requires Inv(st, vs) && |key| == KEY_SIZE && DelCourse(st, h, key, e, Bucket(key)) && st.hosts[h].task.DelUnlink?
    requires Bucket(key) + 8 <= |st.mem| && WordAt(st.mem, Bucket(key)) == e != 0
    ensures Holds(Contents(st), key) && st.hosts[h].task.key == key
  {
    hide Inv, Bucket, WordAt, IsHead, Contents;
    HeadShows(st, vs, key);
  }

  /** Every interleaving without an overlapped del is linearizable. */
  lemma WithoutOverlapLinearizable(st: System, vs: nat, events: seq<Event>)
    requires Initial(st) && |st.hosts| > 0 && forall k :: 0 <= k < |events| ==> !Overlapped(st, vs, events, k)
    ensures LegalHistory(History(st, vs, events))
    ensures MapAfter(History(st, vs, events)) == Contents(Run(st, vs, events))
  {
    hide Initial, Overlapped, OrderlyAt, Run, History, LegalHistory, MapAfter, Contents;
    forall k | 0 <= k < |events|
      ensures OrderlyAt(Run(st, vs, events[..k]), events[k])
    {
      UndisturbedIsOrderly(st, vs, events, k);
    }
    LinearizableIffOrderly(st, vs, events);
  }

  // ----- Answers and program order -----

  /** What a host was asked to do. */
  datatype Call = CallInsert(pair: Pair) | CallGet(key: Bytes) | CallDelete(key: Bytes)

  function CallOf(action: Action): Call {
    match action
    case Inserted(pair) => CallInsert(pair)
    case Got(key, _, _) => CallGet(key)
    case Deleted(key, _) => CallDelete(key)
  }

  /** The call that an event begins, if the host takes it up. */
  ghost function Begins(st: System, vs: nat, ev: Event, h: nat): seq<Call> {
    if ev.h != h || ev.Move? || Apply(st, vs, ev) == st then []
    else
      match ev
      case BeginInsert(_, pair) => [CallInsert(pair)]
      case BeginGet(_, key) => [CallGet(key)]
      case BeginDelete(_, key) => [CallDelete(key)]
  }

  /** All calls a host has begun, in order. */
  ghost function Begun(st: System, vs: nat, events: seq<Event>, h: nat): seq<Call>
    decreases |events|
  {
    if events == [] then []
    else
      var before := events[..|events| - 1];
      Begun(st, vs, before, h) + Begins(Run(st, vs, before), vs, events[|events| - 1], h)
  }

  /** A host's part of a history. */
  function Of(history: seq<Record>, h: nat): seq<Action> {
    if history == [] then []
    else
      var last := history[|history| - 1];
      Of(history[..|history| - 1], h) + if last.h == h then [last.action] else []
  }

  function Calls(actions: seq<Action>): (calls: seq<Call>)
    ensures |calls| == |actions|
  {
    seq(|actions|, i requires 0 <= i < |actions| => CallOf(actions[i]))
  }

  /** The call a host has begun and not yet decided. */
  ghost function Pending(st: System, h: nat): seq<Call>
    requires h < |st.hosts|
  {
    match st.hosts[h].task
    case WriteKey(pair) => [CallInsert(pair)]
    case WriteValue(pair) => [CallInsert(pair)]
    case WriteNext(pair) => [CallInsert(pair)]
    case WriteHead(pair) => [CallInsert(pair)]
    case GetHead(key) => [CallGet(key)]
    case DelHead(key) => [CallDelete(key)]
    case DelCompare(key, e, _) => if HasKey(st, e, key) then [CallDelete(key)] else []
    case DelNext(key, _, _) => [CallDelete(key)]
    case DelUnlink(key, _, _) => [CallDelete(key)]
    case _ => []
  }

  ghost predicate EndsWith(actions: seq<Action>, action: Action) {
    actions != [] && actions[|actions| - 1] == action
  }

  /** What a get answers for an entry. */
  function GotEntry(key: Bytes, pair: Pair): Action {
    if pair.key == key then Got(key, true, pair.value) else Got(key, false, [])
  }

  /** A host that has decided its call will answer, or has answered, what the history says. */
  ghost predicate AnswersAsRecorded(st: System, h: nat, actions: seq<Action>)
    requires h < |st.hosts|
  {
    match st.hosts[h].task
    case GetCompare(key, e) => e in st.complete && EndsWith(actions, GotEntry(key, st.complete[e].pair))
    case GetValue(key, e) => e in st.complete && EndsWith(actions, GotEntry(key, st.complete[e].pair))
    case GetNext(key, e) =>
      e in st.complete && st.complete[e].pair.key != key && EndsWith(actions, Got(key, false, []))
    case GetDone(key, found, value) => EndsWith(actions, Got(key, found, value))
    case DelCompare(key, e, _) => HasKey(st, e, key) || EndsWith(actions, Deleted(key, false))
    case DelAdvance(key, _) => EndsWith(actions, Deleted(key, false))
    case DelDone(key, found) => EndsWith(actions, Deleted(key, found))
    case _ => true
  }

  lemma OfMore(history: seq<Record>, decided: seq<Record>, h: nat)
    requires |decided| <= 1
    ensures Of(history + decided, h)
         == Of(history, h) + if decided != [] && decided[0].h == h then [decided[0].action] else []
  {
    if decided == [] {
      assert history + decided == history;
    } else {
      assert (history + decided)[..|history + decided| - 1] == history;
    }
  }

  /** One event, seen by host h: a call begun is pending until it is recorded, and what is recorded is
      what it answers. */
  lemma EventRecords(st: System, vs: nat, ev: Event, h: nat, actions: seq<Action>)
    requires Inv(st, vs) && h < |st.hosts| && AnswersAsRecorded(st, h, actions)
    ensures var st' := Apply(st, vs, ev);
            var decided := Decides(st, vs, ev);
            var recorded := if decided != [] && decided[0].h == h then [decided[0].action] else [];
            && h < |st'.hosts|
            && Calls(recorded) + Pending(st', h) == Pending(st, h) + Begins(st, vs, ev, h)
            && AnswersAsRecorded(st', h, actions + recorded)
  {
    hide Inv, Apply, Decides, Pending, AnswersAsRecorded;
    EventKeepsHosts(st, vs, ev);
    assert Calls([]) == [] && actions + [] == actions;
    if ev == Move(h) {
      MoveRecords(st, vs, h, actions);
    } else if ev.h == h {
      BeginRecords(st, vs, ev, actions);
    } else {
      OthersKeepPending(st, vs, ev, h, actions);
    }
  }

  lemma BeginRecords(st: System, vs: nat, ev: Event, actions: seq<Action>)
    requires !ev.Move? && ev.h < |st.hosts| && AnswersAsRecorded(st, ev.h, actions)
    ensures var st' := Apply(st, vs, ev);
            && |st'.hosts| == |st.hosts| && Decides(st, vs, ev) == []
            && Pending(st', ev.h) == Pending(st, ev.h) + Begins(st, vs, ev, ev.h)
            && AnswersAsRecorded(st', ev.h, actions)
  {
    hide Usable;
  }

  lemma OthersKeepPending(st: System, vs: nat, ev: Event, h: nat, actions: seq<Action>)
    requires Inv(st, vs) && h < |st.hosts| && ev.h != h && AnswersAsRecorded(st, h, actions)
    ensures var st' := Apply(st, vs, ev);
            && h < |st'.hosts| && Pending(st', h) == Pending(st, h) && AnswersAsRecorded(st', h, actions)
            && (Decides(st, vs, ev) != [] ==> Decides(st, vs, ev)[0].h != h)
  {
    hide Inv, WordAt, Read, Write, PutWord, Usable, IsHead, HostStep, Mappable;
    var task := st.hosts[h].task;
    TaskEntryKnown(st, vs, h);
    if task.GetCompare? || task.GetValue? || task.GetNext? || task.DelCompare? {
      HistoryGrows(st, vs, ev, task.entry);
    }
  }

  lemma TaskEntryKnown(st: System, vs: nat, h: nat)
    requires Inv(st, vs) && h < |st.hosts|
    ensures var task := st.hosts[h].task;
            task.GetCompare? || task.GetValue? || task.GetNext? || task.DelCompare? ==> task.entry in st.complete
  {
    hide Bucket, WordAt, Read, IsHead, HostsOk, EntryOk, HeadOk;
    assert TaskOk(st, vs, h);
  }

  lemma MoveRecords(st: System, vs: nat, h: nat, actions: seq<Action>)
    requires Inv(st, vs) && h < |st.hosts| && AnswersAsRecorded(st, h, actions)
    ensures var st' := Apply(st, vs, Move(h));
            var decided := Decides(st, vs, Move(h));
            var recorded := if decided != [] && decided[0].h == h then [decided[0].action] else [];
            && h < |st'.hosts|
            && Calls(recorded) + Pending(st', h) == Pending(st, h)
            && AnswersAsRecorded(st', h, actions + recorded)
  {
    hide Inv, Apply, Decides, Pending, AnswersAsRecorded;
    if Looking(st.hosts[h].task) {
      MoveRecordsGet(st, vs, h, actions);
    } else if Deleting(st.hosts[h].task) || st.hosts[h].task.DelHead? {
      MoveRecordsDel(st, vs, h, actions);
    } else {
      MoveRecordsOther(st, vs, h, actions);
    }
  }

  lemma MoveRecordsOther(st: System, vs: nat, h: nat, actions: seq<Action>)
    requires Inv(st, vs) && h < |st.hosts| && AnswersAsRecorded(st, h, actions)
    requires !Looking(st.hosts[h].task) && !Deleting(st.hosts[h].task) && !st.hosts[h].task.DelHead?
    ensures var st' := Apply(st, vs, Move(h));
            var decided := Decides(st, vs, Move(h));
            var recorded := if decided != [] && decided[0].h == h then [decided[0].action] else [];
            && h < |st'.hosts|
            && Calls(recorded) + Pending(st', h) == Pending(st, h)
            && AnswersAsRecorded(st', h, actions + recorded)
  {
    hide Inv, Bucket, WordAt, Read, Write, PutWord, IsHead;
    Mapping(st, vs, h);
  }

  lemma MoveRecordsGet(st: System, vs: nat, h: nat, actions: seq<Action>)
    requires Inv(st, vs) && h < |st.hosts| && AnswersAsRecorded(st, h, actions) && Looking(st.hosts[h].task)
    ensures var st' := Apply(st, vs, Move(h));
            var decided := Decides(st, vs, Move(h));
            var recorded := if decided != [] && decided[0].h == h then [decided[0].action] else [];
            && h < |st'.hosts|
            && Calls(recorded) + Pending(st', h) == Pending(st, h)
            && AnswersAsRecorded(st', h, actions + recorded)
  {
    hide Bucket, WordAt, Read, Write, PutWord, IsHead, HostsOk;
    Mapping(st, vs, h);
    assert TaskOk(st, vs, h);
    var task := st.hosts[h].task;
    if task.GetHead? {
      assert HeadOk(st, Bucket(task.key));
      var e := WordAt(st.mem, Bucket(task.key));
      if e != 0 {
        assert EntryOk(st, vs, e);
      }
    } else {
      assert EntryOk(st, vs, task.entry);
    }
  }

  lemma MoveRecordsDel(st: System, vs: nat, h: nat, actions: seq<Action>)
    requires Inv(st, vs) && h < |st.hosts| && AnswersAsRecorded(st, h, actions)
    requires Deleting(st.hosts[h].task) || st.hosts[h].task.DelHead?
    ensures var st' := Apply(st, vs, Move(h));
            var decided := Decides(st, vs, Move(h));
            var recorded := if decided != [] && decided[0].h == h then [decided[0].action] else [];
            && h < |st'.hosts|
            && Calls(recorded) + Pending(st', h) == Pending(st, h)
            && AnswersAsRecorded(st', h, actions + recorded)
  {
    hide Inv, Apply, Decides, Pending, AnswersAsRecorded;
    if st.hosts[h].task.DelHead? {
      MoveRecordsDelHead(st, vs, h, actions);
    } else {
      MoveRecordsDelRest(st, vs, h, actions);
    }
  }

  lemma MoveRecordsDelHead(st: System, vs: nat, h: nat, actions: seq<Action>)
    requires Inv(st, vs) && h < |st.hosts| && AnswersAsRecorded(st, h, actions) && st.hosts[h].task.DelHead?
    ensures var st' := Apply(st, vs, Move(h));
            var decided := Decides(st, vs, Move(h));
            var recorded := if decided != [] && decided[0].h == h then [decided[0].action] else [];
            && h < |st'.hosts|
            && Calls(recorded) + Pending(st', h) == Pending(st, h)
            && AnswersAsRecorded(st', h, actions + recorded)
  {
    hide Inv, Bucket, WordAt, Read, IsHead;
    var key := st.hosts[h].task.key;
    Mapping(st, vs, h);
    DelStarts(st, vs, h, key);
    HeadKnown(st, vs, Bucket(key));
    var e := WordAt(st.mem, Bucket(key));
    if e != 0 {
      EntryReads(st, vs, e);
    }
  }

  lemma MoveRecordsDelRest(st: System, vs: nat, h: nat, actions: seq<Action>)
    requires Inv(st, vs) && h < |st.hosts| && AnswersAsRecorded(st, h, actions) && Deleting(st.hosts[h].task)
    ensures var st' := Apply(st, vs, Move(h));
            var decided := Decides(st, vs, Move(h));
            var recorded := if decided != [] && decided[0].h == h then [decided[0].action] else [];
            && h < |st'.hosts|
            && Calls(recorded) + Pending(st', h) == Pending(st, h)
            && AnswersAsRecorded(st', h, actions + recorded)
  {
    hide Inv, Bucket, WordAt, Read, Write, PutWord, IsHead;
    Mapping(st, vs, h);
    DelEntryKnown(st, vs, h);
    if !st.hosts[h].task.DelUnlink? {
      EntryReads(st, vs, st.hosts[h].task.entry);
    }
  }

  lemma DelEntryKnown(st: System, vs: nat, h: nat)
    requires Inv(st, vs) && h < |st.hosts| && Deleting(st.hosts[h].task)
    ensures !st.hosts[h].task.DelUnlink? ==> st.hosts[h].task.entry in st.complete
  {
    hide Bucket, WordAt, Read, IsHead, HostsOk, EntryOk, HeadOk;
    assert TaskOk(st, vs, h);
  }

  /** Every host's records are its calls in the order it began them, all of them but the one it has not
      decided yet; and a call that has returned has answered what its record says. So the history keeps
      the order of calls that do not overlap. */
  lemma {:induction false} HistoryFollowsCalls(st: System, vs: nat, events: seq<Event>, h: nat)
    requires Initial(st) && h < |st.hosts|
    ensures var end := Run(st, vs, events);
            var actions := Of(History(st, vs, events), h);
            && h < |end.hosts|
            && Calls(actions) + Pending(end, h) == Begun(st, vs, events, h)
            && AnswersAsRecorded(end, h, actions)
    decreases |events|
  {
    hide Inv, Apply, Initial, Decides, Pending, AnswersAsRecorded, Begins;
    if events == [] {
      NothingPending(st, h);
    } else {
      var n := |events| - 1;
      var before := Run(st, vs, events[..n]);
      var history := History(st, vs, events[..n]);
      HistoryFollowsCalls(st, vs, events[..n], h);
      RunKeepsInv(st, vs, events[..n]);
      EventRecords(before, vs, events[n], h, Of(history, h));
      OfMore(history, Decides(before, vs, events[n]), h);
      var decided := Decides(before, vs, events[n]);
      var recorded := if decided != [] && decided[0].h == h then [decided[0].action] else [];
      CallsConcat(Of(history, h), recorded);
      Regroup(Calls(Of(history, h)), Calls(recorded), Pending(Run(st, vs, events), h), Pending(before, h),
              Begins(before, vs, events[n], h));
    }
  }

  lemma Regroup(done: seq<Call>, recorded: seq<Call>, pending: seq<Call>, before: seq<Call>, begun: seq<Call>)
    requires recorded + pending == before + begun
    ensures done + recorded + pending == done + before + begun
  {
    assert done + recorded + pending == done + (recorded + pending);
    assert done + before + begun == done + (before + begun);
  }

  lemma NothingPending(st: System, h: nat)
    requires Initial(st) && h < |st.hosts|
    ensures Pending(st, h) == [] && AnswersAsRecorded(st, h, [])
  {
  }

  lemma CallsConcat(first: seq<Action>, second: seq<Action>)
    ensures Calls(first + second) == Calls(first) + Calls(second)
  {
  }

  /** A longer run only adds to the history. */
  lemma {:induction false} HistoryExtends(st: System, vs: nat, events: seq<Event>, n: nat)
    requires n <= |events|
    ensures History(st, vs, events[..n]) <= History(st, vs, events)
    decreases |events|
  {
    hide Decides, Run;
    if n == |events| {
      assert events[..n] == events;
    } else {
      HistoryExtends(st, vs, events[..|events| - 1], n);
      assert events[..|events| - 1][..n] == events[..n];
    }
  }

  /** Where the i-th record of a host stands in a history. */
  function PlaceOf(history: seq<Record>, h: nat, i: nat): (p: nat)
    requires i < |Of(history, h)|
    ensures p < |history|
  {
    if i < |Of(history[..|history| - 1], h)| then PlaceOf(history[..|history| - 1], h, i) else |history| - 1
  }

  lemma {:induction false} PlaceInPrefix(history: seq<Record>, n: nat, h: nat, i: nat)
    requires n <= |history| && i < |Of(history, h)|
    ensures PlaceOf(history, h, i) < n <==> i < |Of(history[..n], h)|
    decreases |history|
  {
    if n == |history| {
      assert history[..n] == history;
    } else {
      var last := |history| - 1;
      assert history[..last][..n] == history[..n];
      if i < |Of(history[..last], h)| {
        PlaceInPrefix(history[..last], n, h, i);
      } else {
        FewerBefore(history, last, n, h);
      }
    }
  }

  lemma {:induction false} FewerBefore(history: seq<Record>, m: nat, n: nat, h: nat)
    requires n <= m <= |history|
    ensures |Of(history[..n], h)| <= |Of(history[..m], h)|
    decreases m
  {
    if n < m {
      assert history[..m][..m - 1] == history[..m - 1];
      FewerBefore(history, m - 1, n, h);
    }
  }

  /** Real-time order: a call that some host has decided, hence any that has returned, stands in the
      history before every call that another host begins later. */
  lemma LaterCallsComeLater(st: System, vs: nat, events: seq<Event>, n: nat, g: nat, i: nat, h: nat, j: nat)
    requires Initial(st) && g < |st.hosts| && h < |st.hosts| && n <= |events|
    requires i < |Of(History(st, vs, events[..n]), g)|
    requires |Begun(st, vs, events[..n], h)| <= j < |Of(History(st, vs, events), h)|
    ensures i < |Of(History(st, vs, events), g)|
    ensures PlaceOf(History(st, vs, events), g, i) < PlaceOf(History(st, vs, events), h, j)
  {
    hide History, Of, Begun, PlaceOf, Initial;
    var early, whole := History(st, vs, events[..n]), History(st, vs, events);
    HistoryExtends(st, vs, events, n);
    assert whole[..|early|] == early && whole[..|whole|] == whole;
    FewerBefore(whole, |whole|, |early|, g);
    HistoryFollowsCalls(st, vs, events[..n], h);
    PlaceInPrefix(whole, |early|, g, i);
    PlaceInPrefix(whole, |early|, h, j);
  }
}
