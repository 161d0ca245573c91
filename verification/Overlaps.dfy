/** One get or del of a host, followed from the step that reads the head word to its last step, with
    every other host's steps in between. A get answers for the moment it read the head. A del stores
    its zero word blindly, so it removes its own entry only if nobody else stored that head word
    meanwhile; otherwise it drops whatever is there. */
module Overlaps {
  import opened Memory
  import opened Layout
  import opened Chains
  import opened UnprotectedStore
  import opened Publication

  /** The event stores head word b. */
  predicate Stores(st: System, ev: Event, b: nat) {
    ev.Move? && ev.h < |st.hosts| &&
    var task := st.hosts[ev.h].task;
    || (task.WriteHead? && |task.pair.key| == KEY_SIZE && Bucket(task.pair.key) == b)
    || (task.DelUnlink? && task.link == b)
  }

  /** What a head word is after an event. */
  lemma HeadAfter(st: System, vs: nat, ev: Event, b: nat)
    requires Inv(st, vs) && |st.hosts| > 0 && IsHead(st.hosts, b)
    ensures var st' := Apply(st, vs, ev);
            && |st'.hosts| == |st.hosts| && IsHead(st'.hosts, b)
            && |st'.mem| == |st.mem| && b + 8 <= |st.mem|
            && WordAt(st'.mem, b) == if !Stores(st, ev, b) then WordAt(st.mem, b)
                                     else if st.hosts[ev.h].task.WriteHead? then st.hosts[ev.h].next else 0
  {
    hide Bucket, WordAt, Read, Write, EntryOk;
    assert HeadOk(st, b);
    if !ev.Move? {
      BeginEffect(st, vs, ev);
    } else if ev.h < |st.hosts| {
      MoveHosts(st, vs, ev.h);
      Mapping(st, vs, ev.h);
      assert TaskOk(st, vs, ev.h);
      if Stores(st, ev, b) {
        BelowAddressSpace(st, vs, ev.h);
      } else {
        StepFrame(st.mem, vs, st.hosts[ev.h]);
        forall a | b <= a < b + 8
          ensures Apply(st, vs, ev).mem[a] == st.mem[a]
        {
          StepSparesHeads(st, vs, ev.h, b, a);
        }
        WordSame(st.mem, Apply(st, vs, ev).mem, b);
      }
    }
  }

  /** The history only grows. */
  lemma HistoryGrows(st: System, vs: nat, ev: Event, e: nat)
    requires Inv(st, vs) && e in st.complete
    ensures e in Apply(st, vs, ev).complete && Apply(st, vs, ev).complete[e] == st.complete[e]
  {
    hide Inv, HostStep, Mappable;
    if ev.Move? && ev.h < |st.hosts| {
      CompleteGrows(st, vs, ev.h);
    }
  }

  // ----- No entry is published twice -----

  /** The entry is laid out and nobody is about to store its address. */
  ghost predicate Published(st: System, e: nat) {
    e in st.complete && forall g :: 0 <= g < |st.hosts| && st.hosts[g].task.WriteHead? ==> st.hosts[g].next != e
  }

  lemma StaysPublished(st: System, vs: nat, ev: Event, e: nat)
    requires Inv(st, vs) && Published(st, e)
    ensures Published(Apply(st, vs, ev), e)
  {
    hide Inv, Bucket, WordAt, Read, Write, Mappable, Usable;
    HistoryGrows(st, vs, ev, e);
    if ev.Move? && ev.h < |st.hosts| && st.hosts[ev.h].task.WriteNext? {
      CompletesNewEntry(st, vs, ev.h);
    }
  }

  /** Every head word that is not zero leads to a published entry. */
  lemma {:induction false} HeadIsPublished(st: System, vs: nat, events: seq<Event>, b: nat)
    requires Initial(st) && |st.hosts| > 0 && IsHead(st.hosts, b)
    ensures var st' := Run(st, vs, events);
            && Inv(st', vs) && |st'.hosts| == |st.hosts| && IsHead(st'.hosts, b) && b + 8 <= |st'.mem|
            && (WordAt(st'.mem, b) != 0 ==> Published(st', WordAt(st'.mem, b)))
    decreases |events|
  {
    hide Inv, Apply, IsHead, WordAt;
    RunKeepsInv(st, vs, events);
    if events != [] {
      var before := Run(st, vs, events[..|events| - 1]);
      var ev := events[|events| - 1];
      HeadIsPublished(st, vs, events[..|events| - 1], b);
      HeadAfter(before, vs, ev, b);
      if Stores(before, ev, b) {
        if before.hosts[ev.h].task.WriteHead? {
          StoredIsPublished(before, vs, ev.h);
        }
      } else if WordAt(before.mem, b) != 0 {
        StaysPublished(before, vs, ev, WordAt(before.mem, b));
      }
    }
  }

  lemma StoredIsPublished(st: System, vs: nat, h: nat)
    requires Inv(st, vs) && h < |st.hosts| && st.hosts[h].task.WriteHead?
    ensures Published(Apply(st, vs, Move(h)), st.hosts[h].next)
  {
    hide Bucket, HeadOk, EntryOk, Read, WordAt, PutWord, IsHead;
    Mapping(st, vs, h);
    assert TaskOk(st, vs, h);
    forall g | 0 <= g < |st.hosts| && g != h && st.hosts[g].task.WriteHead?
      ensures st.hosts[g].next != st.hosts[h].next
    {
      assert TaskOk(st, vs, g);
    }
  }

  /** Through all these events host h stays within one operation. */
  ghost predicate Stays(st: System, vs: nat, events: seq<Event>, h: nat, within: Task -> bool) {
    forall k :: 0 <= k <= |events| ==>
      h < |Run(st, vs, events[..k]).hosts| && within(Run(st, vs, events[..k]).hosts[h].task)
  }

  lemma StaysLess(st: System, vs: nat, events: seq<Event>, h: nat, within: Task -> bool)
    requires Stays(st, vs, events, h, within) && events != []
    ensures Stays(st, vs, events[..|events| - 1], h, within)
    ensures h < |Run(st, vs, events).hosts| && within(Run(st, vs, events).hosts[h].task)
  {
    hide Run;
    var n := |events| - 1;
    assert events[..n + 1] == events;
    assert forall k :: 0 <= k <= n ==> events[..n][..k] == events[..k];
  }

  // ----- One del -----

  predicate Deleting(task: Task) {
    task.DelCompare? || task.DelNext? || task.DelUnlink? || task.DelAdvance?
  }

  /** Another host stored head word b in one of these events. */
  ghost predicate OthersStore(st: System, vs: nat, events: seq<Event>, h: nat, b: nat) {
    exists k :: 0 <= k < |events| && events[k].h != h && Stores(Run(st, vs, events[..k]), events[k], b)
  }

  /** Where a del of key stands that found entry e through head word b. */
  ghost predicate DelCourse(st: System, h: nat, key: Bytes, e: nat, b: nat) {
    h < |st.hosts| && IsHead(st.hosts, b) && Published(st, e) &&
    match st.hosts[h].task
    case DelCompare(k, f, link) => k == key && f == e && link == b
    case DelNext(k, f, link) => k == key && f == e && link == b && st.complete[e].pair.key == key
    case DelUnlink(k, link, n) => k == key && link == b && n == 0 && st.complete[e].pair.key == key
    case DelAdvance(k, f) => k == key && f == e
    case _ => false
  }

  lemma DelCourseStep(st: System, vs: nat, ev: Event, h: nat, key: Bytes, e: nat, b: nat)
    requires Inv(st, vs) && DelCourse(st, h, key, e, b) && Deleting(Apply(st, vs, ev).hosts[h].task)
    ensures DelCourse(Apply(st, vs, ev), h, key, e, b)
    ensures ev.h == h ==> !Stores(st, ev, b)
  {
    hide Bucket, WordAt, Read, Write, PutWord, HeadOk, Usable, IsHead;
    HeadAfter(st, vs, ev, b);
    StaysPublished(st, vs, ev, e);
    HistoryGrows(st, vs, ev, e);
    if ev.h == h {
      assert EntryOk(st, vs, e);
    }
  }

  lemma {:induction false} DelTrace(st: System, vs: nat, events: seq<Event>, h: nat, key: Bytes, e: nat, b: nat)
    requires Inv(st, vs) && DelCourse(st, h, key, e, b) && Stays(st, vs, events, h, Deleting)
    requires b + 8 <= |st.mem| && WordAt(st.mem, b) == e != 0
    ensures var st' := Run(st, vs, events);
            && Inv(st', vs) && DelCourse(st', h, key, e, b) && b + 8 <= |st'.mem|
            && (WordAt(st'.mem, b) != e <==> OthersStore(st, vs, events, h, b))
    decreases |events|
  {
    hide Inv, Apply, WordAt, Deleting, IsHead, Published, Stays;
    if events != [] {
      var n := |events| - 1;
      var before := Run(st, vs, events[..n]);
      StaysLess(st, vs, events, h, Deleting);
      DelTrace(st, vs, events[..n], h, key, e, b);
      EventKeepsInv(before, vs, events[n]);
      HeadAfter(before, vs, events[n], b);
      DelCourseStep(before, vs, events[n], h, key, e, b);
      StoredIsOther(before, vs, events[n], e);
      OthersStoreMore(st, vs, events, h, b);
    }
  }

  /** No event stores the address of a published entry. */
  lemma StoredIsOther(st: System, vs: nat, ev: Event, e: nat)
    requires Published(st, e)
    ensures ev.h < |st.hosts| && st.hosts[ev.h].task.WriteHead? ==> st.hosts[ev.h].next != e
  {
  }

  lemma OthersStoreMore(st: System, vs: nat, events: seq<Event>, h: nat, b: nat)
    requires events != []
    ensures var n := |events| - 1;
            OthersStore(st, vs, events, h, b) <==>
              OthersStore(st, vs, events[..n], h, b)
                  || (events[n].h != h && Stores(Run(st, vs, events[..n]), events[n], b))
  {
    hide Run, Stores;
    var n := |events| - 1;
    assert forall k :: 0 <= k <= n ==> events[..n][..k] == events[..k];
  }

  /** After the run before, host h looks its key up and finds an entry; during leads it up to the
      step that unlinks. */
  ghost predicate DelReaches(st: System, vs: nat, before: seq<Event>, h: nat, key: Bytes, during: seq<Event>) {
    && Initial(st) && h < |Run(st, vs, before).hosts| && Run(st, vs, before).hosts[h].task == DelHead(key)
    && var found := Apply(Run(st, vs, before), vs, Move(h));
       && Stays(found, vs, during, h, Deleting)
       && h < |Run(found, vs, during).hosts| && Run(found, vs, during).hosts[h].task.DelUnlink?
  }

  /** A del that found an entry and is about to unlink, after any run and beside any other hosts: the
      entry it found carried its key, and its head word still leads there unless another host's
      insert or del has stored that word since. */
  lemma DelUnlinksItsEntryUnlessOverlapped(st: System, vs: nat, before: seq<Event>, h: nat, key: Bytes,
                                           during: seq<Event>)
    requires DelReaches(st, vs, before, h, key, during)
    ensures |key| == KEY_SIZE && Bucket(key) + 8 <= |Run(st, vs, before).mem|
    ensures var start := Run(st, vs, before);
            var found := Apply(start, vs, Move(h));
            var end := Run(found, vs, during);
            var b := Bucket(key);
            var e := WordAt(start.mem, b);
            && Inv(end, vs) && DelCourse(end, h, key, e, b) && e != 0 && b + 8 <= |end.mem|
            && (WordAt(end.mem, b) != e <==> OthersStore(found, vs, during, h, b))
  {
    hide Inv, Bucket, WordAt, Apply, Stays, OthersStore;
    InitialInv(st, vs);
    RunHosts(st, vs, before);
    var start := Run(st, vs, before);
    RunKeepsInv(st, vs, before);
    DelStarts(start, vs, h, key);
    HeadIsPublished(st, vs, before, Bucket(key));
    var found := Apply(start, vs, Move(h));
    EventKeepsInv(start, vs, Move(h));
    HeadAfter(start, vs, Move(h), Bucket(key));
    var e := WordAt(start.mem, Bucket(key));
    assert Deleting(found.hosts[h].task) by {
      StaysNow(found, vs, during, h, Deleting);
    }
    StaysPublished(start, vs, Move(h), e);
    DelTrace(found, vs, during, h, key, e, Bucket(key));
  }

  lemma {:induction false} RunInv(st: System, vs: nat, events: seq<Event>)
    requires Inv(st, vs)
    ensures Inv(Run(st, vs, events), vs)
    decreases |events|
  {
    hide Inv, Apply;
    if events != [] {
      RunInv(st, vs, events[..|events| - 1]);
      EventKeepsInv(Run(st, vs, events[..|events| - 1]), vs, events[|events| - 1]);
    }
  }

  lemma {:induction false} RunHosts(st: System, vs: nat, events: seq<Event>)
    requires Inv(st, vs)
    ensures var st' := Run(st, vs, events);
            |st'.hosts| == |st.hosts| && forall b: nat :: IsHead(st'.hosts, b) <==> IsHead(st.hosts, b)
    decreases |events|
  {
    hide Inv, Apply, IsHead;
    if events != [] {
      var n := |events| - 1;
      RunHosts(st, vs, events[..n]);
      RunInv(st, vs, events[..n]);
      EventKeepsHosts(Run(st, vs, events[..n]), vs, events[n]);
    }
  }

  lemma EventKeepsHosts(st: System, vs: nat, ev: Event)
    requires Inv(st, vs)
    ensures var st' := Apply(st, vs, ev);
            |st'.hosts| == |st.hosts| && forall b: nat :: IsHead(st'.hosts, b) <==> IsHead(st.hosts, b)
  {
    hide Inv;
    if ev.h < |st.hosts| {
      if ev.Move? {
        MoveHosts(st, vs, ev.h);
      } else {
        BeginEffect(st, vs, ev);
        SameIdsSameHeads(st.hosts, Apply(st, vs, ev).hosts);
      }
    }
  }

  lemma StaysNow(st: System, vs: nat, events: seq<Event>, h: nat, within: Task -> bool)
    requires Stays(st, vs, events, h, within)
    ensures h < |st.hosts| && within(st.hosts[h].task)
  {
    assert events[..0] == [];
  }

  /** The first step of a del. */
  lemma DelStarts(st: System, vs: nat, h: nat, key: Bytes)
    requires Inv(st, vs) && h < |st.hosts| && st.hosts[h].task == DelHead(key)
    ensures |key| == KEY_SIZE && IsHead(st.hosts, Bucket(key)) && Bucket(key) + 8 <= |st.mem|
    ensures !Stores(st, Move(h), Bucket(key))
    ensures var e := WordAt(st.mem, Bucket(key));
            Apply(st, vs, Move(h)).hosts[h].task
            == if e == 0 then DelDone(key, false) else DelCompare(key, e, Bucket(key))
  {
    hide Bucket, WordAt, HeadOk, EntryOk, IsHead, HostsOk;
    Mapping(st, vs, h);
    assert TaskOk(st, vs, h);
  }

  /** What the unlinking step does. Without an overlap it is the del of a store nobody else uses: the
      bucket held exactly the entry found, and afterwards nothing. With one it zeroes the head all the
      same, and drops a foreign entry if the head leads to one. */
  lemma DelDropsWhatItFinds(st: System, vs: nat, before: seq<Event>, h: nat, key: Bytes, during: seq<Event>)
    requires DelReaches(st, vs, before, h, key, during)
    ensures |key| == KEY_SIZE && Bucket(key) + 8 <= |Run(st, vs, before).mem|
    ensures var found := Apply(Run(st, vs, before), vs, Move(h));
            var end := Run(found, vs, during);
            var after := Apply(end, vs, Move(h));
            var b := Bucket(key);
            var e := WordAt(Run(st, vs, before).mem, b);
            && b + 8 <= |end.mem| == |after.mem|
            && var c := if WordAt(end.mem, b) == 0 then [] else [WordAt(end.mem, b)];
               && Chain(end.mem, vs, b, c) && Chain(after.mem, vs, b, [])
               && (forall a :: 0 <= a < |end.mem| && !(b <= a < b + 8) ==> after.mem[a] == end.mem[a])
               && (if OthersStore(found, vs, during, h, b) then e !in c
                   else c == [e] && KeyAt(end.mem, vs, e) == key && after.mem == DeletePair(end.mem, vs, b, c, key).0)
  {
    hide Inv, Bucket, WordAt, Read, PutWord, OthersStore, Initial, Stays;
    DelUnlinksItsEntryUnlessOverlapped(st, vs, before, h, key, during);
    var end := Run(Apply(Run(st, vs, before), vs, Move(h)), vs, during);
    var b := Bucket(key);
    Mapping(end, vs, h);
    HeadChain(end, vs, b);
    if WordAt(end.mem, b) != 0 {
      assert Find(Pairs(end.mem, vs, [WordAt(end.mem, b)]), key, 0) ==
             if KeyAt(end.mem, vs, WordAt(end.mem, b)) == key then 0 else 1;
    }
  }

  // ----- What an overlapped del drops -----

  /** The k-th of these events is the last that stores head word b. */
  ghost predicate LastStore(st: System, vs: nat, events: seq<Event>, k: nat, b: nat) {
    && k < |events| && Stores(Run(st, vs, events[..k]), events[k], b)
    && forall j :: k < j < |events| ==> !Stores(Run(st, vs, events[..j]), events[j], b)
  }

  /** The head word is what the last storing event left: the new entry's address after an insert, 0
      after a del. */
  lemma {:induction false} HeadIsLastStored(st: System, vs: nat, events: seq<Event>, k: nat, b: nat)
    requires Inv(st, vs) && |st.hosts| > 0 && IsHead(st.hosts, b) && LastStore(st, vs, events, k, b)
    ensures var at := Run(st, vs, events[..k]);
            var end := Run(st, vs, events);
            && Inv(end, vs) && |end.hosts| > 0 && IsHead(end.hosts, b)
            && b + 8 <= |end.mem|
            && WordAt(end.mem, b) == (if at.hosts[events[k].h].task.WriteHead? then at.hosts[events[k].h].next else 0)
            && (WordAt(end.mem, b) != 0 <==> at.hosts[events[k].h].task.WriteHead?)
    decreases |events|
  {
    hide Inv, Apply, WordAt, IsHead, LastStore;
    LastStoreIsOne(st, vs, events, k, b);
    var n := |events| - 1;
    RunInv(st, vs, events[..n]);
    RunHosts(st, vs, events[..n]);
    HeadAfter(Run(st, vs, events[..n]), vs, events[n], b);
    EventKeepsInv(Run(st, vs, events[..n]), vs, events[n]);
    if k == n {
      NextIsPositive(Run(st, vs, events[..n]), vs, events[n]);
    } else {
      LastStoreLess(st, vs, events, k, b);
      HeadIsLastStored(st, vs, events[..n], k, b);
    }
  }

  lemma LastStoreIsOne(st: System, vs: nat, events: seq<Event>, k: nat, b: nat)
    requires LastStore(st, vs, events, k, b)
    ensures k < |events| && Stores(Run(st, vs, events[..k]), events[k], b)
  {
  }

  lemma LastStoreLess(st: System, vs: nat, events: seq<Event>, k: nat, b: nat)
    requires LastStore(st, vs, events, k, b) && k < |events| - 1
    ensures var n := |events| - 1;
            && LastStore(st, vs, events[..n], k, b) && !Stores(Run(st, vs, events[..n]), events[n], b)
            && events[..n][..k] == events[..k] && events[..n][k] == events[k]
  {
    hide Run, Stores;
    var n := |events| - 1;
    assert forall j :: 0 <= j <= n ==> events[..n][..j] == events[..j];
  }

  lemma NextIsPositive(st: System, vs: nat, ev: Event)
    requires Inv(st, vs) && ev.h < |st.hosts|
    ensures st.hosts[ev.h].next >= PartitionStart(st.hosts[ev.h].id) > 0
  {
    hide EntryOk, HeadOk, TaskOk;
  }

  /** So an overlapped del drops a foreign entry exactly when the last store of its head word was an
      insert's, and finds an empty bucket to zero when it was another del's. */
  lemma OverlappedDelDropsForeignIff(st: System, vs: nat, before: seq<Event>, h: nat, key: Bytes, during: seq<Event>,
                                     k: nat)
    requires DelReaches(st, vs, before, h, key, during)
    requires |key| == KEY_SIZE && LastStore(Apply(Run(st, vs, before), vs, Move(h)), vs, during, k, Bucket(key))
    ensures Bucket(key) + 8 <= |Run(st, vs, before).mem|
    ensures var found := Apply(Run(st, vs, before), vs, Move(h));
            var at := Run(found, vs, during[..k]);
            var end := Run(found, vs, during);
            var b := Bucket(key);
            && during[k].h != h && b + 8 <= |end.mem|
            && (WordAt(end.mem, b) != 0 && WordAt(end.mem, b) != WordAt(Run(st, vs, before).mem, b)
                <==> at.hosts[during[k].h].task.WriteHead?)
            && (WordAt(end.mem, b) == 0 <==> at.hosts[during[k].h].task.DelUnlink?)
  {
    hide Inv, Bucket, WordAt, Apply, Stays, IsHead;
    DelUnlinksItsEntryUnlessOverlapped(st, vs, before, h, key, during);
    RunKeepsInv(st, vs, before);
    DelStarts(Run(st, vs, before), vs, h, key);
    var found := Apply(Run(st, vs, before), vs, Move(h));
    EventKeepsInv(Run(st, vs, before), vs, Move(h));
    EventKeepsHosts(Run(st, vs, before), vs, Move(h));
    HeadIsLastStored(found, vs, during, k, Bucket(key));
    OwnStoreEndsDel(found, vs, during, h, k, Bucket(key));
  }

  /** In the middle of a del the host itself stores no head word. */
  lemma OwnStoreEndsDel(st: System, vs: nat, events: seq<Event>, h: nat, k: nat, b: nat)
    requires Inv(st, vs) && Stays(st, vs, events, h, Deleting) && k < |events|
    requires Stores(Run(st, vs, events[..k]), events[k], b)
    ensures events[k].h != h
  {
    hide Inv, Run, WordAt, PutWord, Bucket;
    assert events[..k + 1][..k] == events[..k] && events[..k + 1][k] == events[k];
    RunSnoc(st, vs, events[..k], events[k]);
    assert events[..k] + [events[k]] == events[..k + 1];
    var at := Run(st, vs, events[..k]);
    assert Deleting(at.hosts[h].task);
    assert Deleting(Run(st, vs, events[..k + 1]).hosts[h].task);
    assert h < |at.hosts|;
    RunInv(st, vs, events[..k]);
    if events[k].h == h {
      Mapping(at, vs, h);
    }
  }

  /** A bucket holds no entry or one complete entry. */
  lemma HeadChain(st: System, vs: nat, b: nat)
    requires Inv(st, vs) && |st.hosts| > 0 && IsHead(st.hosts, b)
    ensures b + 8 <= |st.mem|
    ensures var e := WordAt(st.mem, b);
            && Chain(st.mem, vs, b, if e == 0 then [] else [e])
            && (e != 0 ==> e in st.complete && Fits(st.mem, vs, e) && PairAt(st.mem, vs, e) == st.complete[e].pair)
  {
    hide Bucket, WordAt, Read;
    assert HeadOk(st, b);
    if WordAt(st.mem, b) != 0 {
      assert EntryOk(st, vs, WordAt(st.mem, b));
    }
  }

  // ----- One get -----

  predicate Getting(task: Task) {
    task.GetCompare? || task.GetValue? || task.GetNext? || task.GetDone?
  }

  /** Where a get of key stands whose head word held e, with that pair if e is an entry. */
  ghost predicate GetCourse(st: System, h: nat, key: Bytes, e: nat, pair: Pair) {
    h < |st.hosts| &&
    if e == 0 then st.hosts[h].task == GetDone(key, false, [])
    else
      && e in st.complete && st.complete[e].pair == pair
      && match st.hosts[h].task
         case GetCompare(k, f) => k == key && f == e
         case GetValue(k, f) => k == key && f == e && pair.key == key
         case GetNext(k, f) => k == key && f == e && pair.key != key
         case GetDone(k, found, value) =>
           k == key && (found, value) == if pair.key == key then (true, pair.value) else (false, [])
         case _ => false
  }

  lemma GetCourseStep(st: System, vs: nat, ev: Event, h: nat, key: Bytes, e: nat, pair: Pair)
    requires Inv(st, vs) && GetCourse(st, h, key, e, pair)
    requires h < |Apply(st, vs, ev).hosts| && Getting(Apply(st, vs, ev).hosts[h].task)
    ensures GetCourse(Apply(st, vs, ev), h, key, e, pair)
  {
    hide Bucket, WordAt, Read, Write, PutWord, HeadOk, Usable, IsHead;
    if e != 0 {
      HistoryGrows(st, vs, ev, e);
      assert EntryOk(st, vs, e);
    }
  }

  lemma {:induction false} GetTrace(st: System, vs: nat, events: seq<Event>, h: nat, key: Bytes, e: nat, pair: Pair)
    requires Inv(st, vs) && GetCourse(st, h, key, e, pair) && Stays(st, vs, events, h, Getting)
    ensures Inv(Run(st, vs, events), vs) && GetCourse(Run(st, vs, events), h, key, e, pair)
    decreases |events|
  {
    hide Inv, Apply, Getting, GetCourse, Stays;
    if events != [] {
      var n := |events| - 1;
      StaysLess(st, vs, events, h, Getting);
      GetTrace(st, vs, events[..n], h, key, e, pair);
      EventKeepsInv(Run(st, vs, events[..n]), vs, events[n]);
      GetCourseStep(Run(st, vs, events[..n]), vs, events[n], h, key, e, pair);
    }
  }

  /** Whatever the other hosts do in the meantime, a get that returns answers exactly like a get of a
      store nobody else uses, on the memory as it was when the head word was read. */
  lemma GetAnswersForItsFirstStep(st: System, vs: nat, before: seq<Event>, h: nat, key: Bytes, during: seq<Event>)
    requires Initial(st) && h < |Run(st, vs, before).hosts| && Run(st, vs, before).hosts[h].task == GetHead(key)
    requires Stays(Apply(Run(st, vs, before), vs, Move(h)), vs, during, h, Getting)
    requires Run(Apply(Run(st, vs, before), vs, Move(h)), vs, during).hosts[h].task.GetDone?
    ensures |key| == KEY_SIZE && Bucket(key) + 8 <= |Run(st, vs, before).mem|
    ensures var start := Run(st, vs, before);
            var e := WordAt(start.mem, Bucket(key));
            var c := if e == 0 then [] else [e];
            && Chain(start.mem, vs, Bucket(key), c)
            && var (found, value) := GetPair(start.mem, vs, c, key, []);
               Run(Apply(start, vs, Move(h)), vs, during).hosts[h].task == GetDone(key, found, value)
  {
    hide Inv, Bucket, WordAt, Read, Apply, Stays;
    RunKeepsInv(st, vs, before);
    var start := Run(st, vs, before);
    GetStarts(start, vs, h, key);
    HeadChain(start, vs, Bucket(key));
    var e := WordAt(start.mem, Bucket(key));
    var pair := if e == 0 then Pair(key, []) else start.complete[e].pair;
    EventKeepsInv(start, vs, Move(h));
    if e != 0 {
      HistoryGrows(start, vs, Move(h), e);
      assert Pairs(start.mem, vs, [e])[0] == pair;
    }
    GetTrace(Apply(start, vs, Move(h)), vs, during, h, key, e, pair);
  }

  lemma GetStarts(st: System, vs: nat, h: nat, key: Bytes)
    requires Inv(st, vs) && h < |st.hosts| && st.hosts[h].task == GetHead(key)
    ensures |key| == KEY_SIZE && IsHead(st.hosts, Bucket(key)) && Bucket(key) + 8 <= |st.mem|
    ensures var e := WordAt(st.mem, Bucket(key));
            var task := if e == 0 then GetDone(key, false, []) else GetCompare(key, e);
            Apply(st, vs, Move(h)).hosts == st.hosts[h := st.hosts[h].(task := task)]
  {
    hide Bucket, WordAt, HeadOk, EntryOk, IsHead, HostsOk;
    Mapping(st, vs, h);
    assert TaskOk(st, vs, h);
  }

  // ----- A run in which a del drops a foreign entry -----

  lemma RunSnoc(st: System, vs: nat, events: seq<Event>, ev: Event)
    ensures Run(st, vs, events + [ev]) == Apply(Run(st, vs, events), vs, ev)
  {
    assert (events + [ev])[..|events + [ev]| - 1] == events;
  }

  lemma {:induction false} RunConcat(st: System, vs: nat, first: seq<Event>, second: seq<Event>)
    ensures Run(st, vs, first + second) == Run(Run(st, vs, first), vs, second)
    decreases |second|
  {
    hide Apply;
    if second == [] {
      assert first + second == first;
    } else {
      var n := |second| - 1;
      RunConcat(st, vs, first, second[..n]);
      RunSnoc(st, vs, first + second[..n], second[n]);
      assert first + second == first + second[..n] + [second[n]];
    }
  }

  function InsertEvents(h: nat, pair: Pair): seq<Event> {
    [] + [BeginInsert(h, pair)] + [Move(h)] + [Move(h)] + [Move(h)] + [Move(h)]
  }

  function FindEvents(h: nat, key: Bytes): seq<Event> {
    [] + [BeginDelete(h, key)] + [Move(h)] + [Move(h)] + [Move(h)]
  }

  lemma MoveEffect(st: System, vs: nat, h: nat)
    requires Inv(st, vs) && h < |st.hosts|
    ensures Mappable(st.mem, vs, st.hosts[h]) && Inv(Apply(st, vs, Move(h)), vs)
    ensures Apply(st, vs, Move(h)).hosts == st.hosts[h := HostStep(st.mem, vs, st.hosts[h]).1]
  {
    hide Inv, HostStep, Mappable;
    Mapping(st, vs, h);
    MoveKeepsInv(st, vs, h);
  }

  /** An insert that nobody interrupts. */
  lemma InsertAlone(st: System, vs: nat, h: nat, pair: Pair)
    requires Inv(st, vs) && h < |st.hosts| && Ready(st.hosts[h])
    requires |pair.value| == vs && Usable(st.hosts, pair.key)
             && st.hosts[h].next + EntrySize(vs) <= PartitionEnd(st.hosts[h].id)
    ensures var st' := Run(st, vs, InsertEvents(h, pair));
            && Inv(st', vs) && st'.hosts == st.hosts[h := Bump(st.hosts[h], vs)]
            && st'.complete == st.complete[st.hosts[h].next := Entry(h, pair)]
            && Bucket(pair.key) + 8 <= |st'.mem| && WordAt(st'.mem, Bucket(pair.key)) == st.hosts[h].next
  {
    hide Inv, Bucket, WordAt, PutWord, Write, Usable, Run, Mappable, IsHead;
    var begin := BeginInsert(h, pair);
    var s1 := Apply(st, vs, begin);
    var s2 := Apply(s1, vs, Move(h));
    var s3 := Apply(s2, vs, Move(h));
    var s4 := Apply(s3, vs, Move(h));
    UsableIsHead(st.hosts, pair.key);
    EventKeepsInv(st, vs, begin);
    EventKeepsHosts(st, vs, begin);
    MoveEffect(s1, vs, h);
    EventKeepsHosts(s1, vs, Move(h));
    MoveEffect(s2, vs, h);
    EventKeepsHosts(s2, vs, Move(h));
    MoveEffect(s3, vs, h);
    EventKeepsHosts(s3, vs, Move(h));
    MoveEffect(s4, vs, h);
    HeadAfter(s4, vs, Move(h), Bucket(pair.key));
    InsertUnrolled(st, vs, h, pair);
  }

  lemma InsertUnrolled(st: System, vs: nat, h: nat, pair: Pair)
    ensures Run(st, vs, InsertEvents(h, pair))
         == Apply(Apply(Apply(Apply(Apply(st, vs, BeginInsert(h, pair)), vs, Move(h)), vs, Move(h)), vs, Move(h)), vs,
                  Move(h))
  {
    hide Apply;
    RunSnoc(st, vs, [], BeginInsert(h, pair));
    RunSnoc(st, vs, [] + [BeginInsert(h, pair)], Move(h));
    RunSnoc(st, vs, [] + [BeginInsert(h, pair)] + [Move(h)], Move(h));
    RunSnoc(st, vs, [] + [BeginInsert(h, pair)] + [Move(h)] + [Move(h)], Move(h));
    RunSnoc(st, vs, [] + [BeginInsert(h, pair)] + [Move(h)] + [Move(h)] + [Move(h)], Move(h));
  }

  /** A del up to its last step, when the bucket holds the key. */
  lemma FindAlone(st: System, vs: nat, h: nat, key: Bytes, e: nat)
    requires Inv(st, vs) && h < |st.hosts| && Ready(st.hosts[h]) && Usable(st.hosts, key)
    requires Bucket(key) + 8 <= |st.mem| && WordAt(st.mem, Bucket(key)) == e != 0
    requires e in st.complete && st.complete[e].pair.key == key
    ensures Run(st, vs, FindEvents(h, key))
            == st.(hosts := st.hosts[h := st.hosts[h].(task := DelUnlink(key, Bucket(key), 0))])
    ensures Inv(Run(st, vs, FindEvents(h, key)), vs)
  {
    hide Inv, Bucket, WordAt, PutWord, Write, Read, Usable, Run, Mappable, IsHead;
    var begin := BeginDelete(h, key);
    var s1 := Apply(st, vs, begin);
    var s2 := Apply(s1, vs, Move(h));
    var s3 := Apply(s2, vs, Move(h));
    EventKeepsInv(st, vs, begin);
    MoveEffect(s1, vs, h);
    EntryReads(s2, vs, e);
    MoveEffect(s2, vs, h);
    MoveEffect(s3, vs, h);
    FindUnrolled(st, vs, h, key);
  }

  lemma EntryReads(st: System, vs: nat, e: nat)
    requires Inv(st, vs) && e in st.complete
    ensures Fits(st.mem, vs, e) && PairAt(st.mem, vs, e) == st.complete[e].pair && NextAt(st.mem, vs, e) == 0
  {
    hide TaskOk, HeadOk, HostsOk;
    assert EntryOk(st, vs, e);
  }

  lemma FindUnrolled(st: System, vs: nat, h: nat, key: Bytes)
    ensures Run(st, vs, FindEvents(h, key))
            == Apply(Apply(Apply(Apply(st, vs, BeginDelete(h, key)), vs, Move(h)), vs, Move(h)), vs, Move(h))
  {
    hide Apply;
    RunSnoc(st, vs, [], BeginDelete(h, key));
    RunSnoc(st, vs, [] + [BeginDelete(h, key)], Move(h));
    RunSnoc(st, vs, [] + [BeginDelete(h, key)] + [Move(h)], Move(h));
    RunSnoc(st, vs, [] + [BeginDelete(h, key)] + [Move(h)] + [Move(h)], Move(h));
  }

  function RaceEvents(p1: Pair, p2: Pair): seq<Event> {
    InsertEvents(0, p1) + FindEvents(0, p1.key) + InsertEvents(1, p2)
  }

  /** Host 0 inserts p1 and goes as far as unlinking it again; host 1 inserts p2 into the same bucket,
      from start to end; host 0 takes its last step. Then no walk finds p2, which nobody deleted. */
  lemma OverlappedDelDropsAnothersEntry(st: System, vs: nat, p1: Pair, p2: Pair)
    requires Initial(st) && |st.hosts| >= 2 && EntrySize(vs) <= DATA_PARTITION_SIZE
    requires |p1.value| == vs == |p2.value| && Usable(st.hosts, p1.key) && Usable(st.hosts, p2.key)
    requires p1.key != p2.key && Bucket(p1.key) == Bucket(p2.key)
    ensures var end := Run(st, vs, RaceEvents(p1, p2));
            var after := Run(st, vs, RaceEvents(p1, p2) + [Move(0)]);
            var b := Bucket(p2.key);
            var e := st.hosts[1].next;
            && |end.hosts| == |st.hosts| == |after.hosts|
            && end.hosts[0].task == DelUnlink(p1.key, b, 0) && end.hosts[1] == Bump(st.hosts[1], vs)
            && Chain(end.mem, vs, b, [e]) && PairAt(end.mem, vs, e) == p2
            && Chain(after.mem, vs, b, []) && after.hosts[0].task == DelDone(p1.key, true)
  {
    hide Inv, Bucket, WordAt, PutWord, Write, Read, Run, Mappable, IsHead, InsertEvents, FindEvents;
    InitialInv(st, vs);
    var h1, h2 := st.hosts[0], st.hosts[1];
    var s1 := Run(st, vs, InsertEvents(0, p1));
    InsertAlone(st, vs, 0, p1);
    UsableKept(st.hosts, s1.hosts, p1.key);
    UsableKept(st.hosts, s1.hosts, p2.key);
    FindAlone(s1, vs, 0, p1.key, h1.next);
    RunConcat(st, vs, InsertEvents(0, p1), FindEvents(0, p1.key));
    var s2 := Run(s1, vs, FindEvents(0, p1.key));
    UsableKept(s1.hosts, s2.hosts, p2.key);
    InsertAlone(s2, vs, 1, p2);
    RunConcat(st, vs, InsertEvents(0, p1) + FindEvents(0, p1.key), InsertEvents(1, p2));
    var end := Run(s2, vs, InsertEvents(1, p2));
    UsableIsHead(end.hosts, p2.key);
    HeadChain(end, vs, Bucket(p2.key));
    MoveEffect(end, vs, 0);
    HeadAfter(end, vs, Move(0), Bucket(p2.key));
    RunSnoc(st, vs, RaceEvents(p1, p2), Move(0));
  }

  lemma UsableKept(hosts: seq<Host>, hosts': seq<Host>, key: Bytes)
    requires Usable(hosts, key) && |hosts| == |hosts'| && forall h :: 0 <= h < |hosts| ==> hosts[h].id == hosts'[h].id
    ensures Usable(hosts', key)
  {
  }
}
