/** Several hosts on one byte memory, one read_cxl or write_cxl call per step.

    Each host runs inserts, gets and deletes of its own store object, one at a time; steps of
    different hosts interleave arbitrarily. An entry is laid out completely before its address is
    stored in a head word, nobody ever writes into a completed entry, and del stores the zero next
    word it read, so a non-zero head always leads to one complete entry. In-place update is not part
    of this protocol. */
module Publication {
  import opened Memory
  import opened Layout
  import opened Chains
  import opened UnprotectedStore

  /** What a host is about to do next. entry is the address being visited. */
  datatype Task =
    | Idle
    | WriteKey(pair: Pair) | WriteValue(pair: Pair) | WriteNext(pair: Pair) | WriteHead(pair: Pair)
    | GetHead(key: Bytes) | GetCompare(key: Bytes, entry: nat)
    | GetValue(key: Bytes, entry: nat) | GetNext(key: Bytes, entry: nat)
    | GetDone(key: Bytes, found: bool, value: Bytes)
    | DelHead(key: Bytes)
    | DelCompare(key: Bytes, entry: nat, link: nat) | DelNext(key: Bytes, entry: nat, link: nat)
    | DelUnlink(key: Bytes, link: nat, next: nat) | DelAdvance(key: Bytes, entry: nat)
    | DelDone(key: Bytes, found: bool)

  datatype Host = Host(id: nat, next: nat, task: Task)

  /** History: the address, owner and content of every entry laid out so far. */
  datatype Entry = Entry(owner: nat, pair: Pair)

  datatype System = System(mem: Bytes, hosts: seq<Host>, complete: map<nat, Entry>)

  datatype Event =
    | BeginInsert(h: nat, pair: Pair)
    | BeginGet(h: nat, key: Bytes)
    | BeginDelete(h: nat, key: Bytes)
    | Move(h: nat)

  // ----- Steps -----

  /** The addresses that the next step touches are mapped. */
  predicate Mappable(m: Bytes, vs: nat, host: Host) {
    match host.task
    case Idle => true
    case GetDone(_, _, _) => true
    case DelDone(_, _) => true
    case WriteKey(pair) => WellFormedPair(pair, vs) && Fits(m, vs, host.next)
    case WriteValue(pair) => WellFormedPair(pair, vs) && Fits(m, vs, host.next)
    case WriteNext(pair) => WellFormedPair(pair, vs) && Fits(m, vs, host.next)
    case WriteHead(pair) => WellFormedPair(pair, vs) && Bucket(pair.key) + 8 <= |m|
    case GetHead(key) => |key| == KEY_SIZE && Bucket(key) + 8 <= |m|
    case DelHead(key) => |key| == KEY_SIZE && Bucket(key) + 8 <= |m|
    case DelUnlink(_, link, _) => link + 8 <= |m|
    case _ => Fits(m, vs, host.task.entry)
  }

  function Bump(host: Host, vs: nat): Host {
    host.(next := host.next + EntrySize(vs), task := Idle)
  }

  /** The memory and the host after one call. */
  function HostStep(m: Bytes, vs: nat, host: Host): (r: (Bytes, Host))
    requires Mappable(m, vs, host)
    ensures |r.0| == |m|
  {
    match host.task
    case Idle => (m, host)
    case GetDone(_, _, _) => (m, host)
    case DelDone(_, _) => (m, host)
    case WriteKey(pair) => (Write(m, host.next, pair.key), host.(task := WriteValue(pair)))
    case WriteValue(pair) => (Write(m, host.next + KEY_SIZE, pair.value), host.(task := WriteNext(pair)))
    case WriteNext(pair) => (PutWord(m, host.next + KEY_SIZE + vs, 0), host.(task := WriteHead(pair)))
    case WriteHead(pair) => (PutWord(m, Bucket(pair.key), host.next), Bump(host, vs))
    case GetHead(key) =>
      var e := WordAt(m, Bucket(key));
      (m, host.(task := if e == 0 then GetDone(key, false, []) else GetCompare(key, e)))
    case GetCompare(key, e) =>
      (m, host.(task := if KeyAt(m, vs, e) == key then GetValue(key, e) else GetNext(key, e)))
    case GetValue(key, e) => (m, host.(task := GetDone(key, true, ValueAt(m, vs, e))))
    case GetNext(key, e) =>
      var n := NextAt(m, vs, e);
      (m, host.(task := if n == 0 then GetDone(key, false, []) else GetCompare(key, n)))
    case DelHead(key) =>
      var e := WordAt(m, Bucket(key));
      (m, host.(task := if e == 0 then DelDone(key, false) else DelCompare(key, e, Bucket(key))))
    case DelCompare(key, e, link) =>
      (m, host.(task := if KeyAt(m, vs, e) == key then DelNext(key, e, link) else DelAdvance(key, e)))
    case DelNext(key, e, link) => (m, host.(task := DelUnlink(key, link, NextAt(m, vs, e))))
    case DelUnlink(key, link, n) => (PutWord(m, link, n), host.(task := DelDone(key, true)))
    case DelAdvance(key, e) =>
      var n := NextAt(m, vs, e);
      (m, host.(task := if n == 0 then DelDone(key, false) else DelCompare(key, n, e + KEY_SIZE + vs)))
  }

  predicate Ready(host: Host) {
    host.task.Idle? || host.task.GetDone? || host.task.DelDone?
  }

  /** No index word that the key uses lies in any host's partition. */
  predicate Usable(hosts: seq<Host>, key: Bytes) {
    |key| == KEY_SIZE && forall h :: 0 <= h < |hosts| ==> ClearOf(hosts[h].id, PartitionId(key))
  }

  function Apply(st: System, vs: nat, ev: Event): System {
    if ev.h >= |st.hosts| then st
    else
      var host := st.hosts[ev.h];
      match ev
      case BeginInsert(h, pair) =>
        if Ready(host) && |pair.value| == vs && Usable(st.hosts, pair.key)
            && host.next + EntrySize(vs) <= PartitionEnd(host.id)
        then st.(hosts := st.hosts[h := host.(task := WriteKey(pair))]) else st
      case BeginGet(h, key) =>
        if Ready(host) && Usable(st.hosts, key) then st.(hosts := st.hosts[h := host.(task := GetHead(key))]) else st
      case BeginDelete(h, key) =>
        if Ready(host) && Usable(st.hosts, key) then st.(hosts := st.hosts[h := host.(task := DelHead(key))]) else st
      case Move(h) =>
        if Mappable(st.mem, vs, host) then
          var (m, host') := HostStep(st.mem, vs, host);
          var complete :=
            if host.task.WriteNext? then st.complete[host.next := Entry(h, host.task.pair)] else st.complete;
          System(m, st.hosts[h := host'], complete)
        else st
  }

  function Run(st: System, vs: nat, events: seq<Event>): System
    decreases |events|
  {
    if events == [] then st else Apply(Run(st, vs, events[..|events| - 1]), vs, events[|events| - 1])
  }

  // ----- The invariant -----

  /** A head word outside every host's partition. */
  predicate IsHead(hosts: seq<Host>, b: nat) {
    IsIndexWord(b) && forall h :: 0 <= h < |hosts| ==> b + 8 <= PartitionStart(hosts[h].id)
  }

  lemma UsableIsHead(hosts: seq<Host>, key: Bytes)
    requires Usable(hosts, key)
    ensures |key| == KEY_SIZE && IsHead(hosts, Bucket(key))
  {
    BucketIsIndexWord(key);
    forall h | 0 <= h < |hosts|
      ensures Bucket(key) + 8 <= PartitionStart(hosts[h].id)
    {
      BucketClearOfPartition(key, hosts[h].id);
    }
  }

  /** Where a host's own complete entries end. */
  function Frontier(host: Host, vs: nat): nat {
    if host.task.WriteHead? then host.next + EntrySize(vs) else host.next
  }

  ghost predicate HostsOk(st: System, vs: nat) {
    && (forall h :: 0 <= h < |st.hosts| ==>
          && Mapped(|st.mem|, st.hosts[h].id)
          && PartitionStart(st.hosts[h].id) <= st.hosts[h].next <= PartitionEnd(st.hosts[h].id))
    && (forall g, h :: 0 <= g < h < |st.hosts| ==> st.hosts[g].id != st.hosts[h].id)
  }

  /** A completed entry lies in its owner's partition, behind its frontier, and is intact. */
  ghost predicate EntryOk(st: System, vs: nat, e: nat)
    requires e in st.complete
  {
    var owner := st.complete[e].owner;
    && owner < |st.hosts| && PartitionStart(st.hosts[owner].id) <= e
    && e + EntrySize(vs) <= Frontier(st.hosts[owner], vs)
    && Fits(st.mem, vs, e) && PairAt(st.mem, vs, e) == st.complete[e].pair && NextAt(st.mem, vs, e) == 0
    && WellFormedPair(st.complete[e].pair, vs)
  }

  /** A head word is zero or leads to a completed entry of that bucket. */
  ghost predicate HeadOk(st: System, b: nat) {
    b + 8 <= |st.mem| &&
    var e := WordAt(st.mem, b);
    e == 0 || (e in st.complete && |st.complete[e].pair.key| == KEY_SIZE && Bucket(st.complete[e].pair.key) == b)
  }

  ghost predicate HasKey(st: System, e: nat, key: Bytes) {
    e in st.complete && st.complete[e].pair.key == key
  }

  ghost predicate Answered(st: System, key: Bytes, value: Bytes) {
    exists e :: e in st.complete && st.complete[e].pair == Pair(key, value)
  }

  predicate IsBucket(key: Bytes, b: nat) {
    |key| == KEY_SIZE && Bucket(key) == b
  }

  /** What a host relies on between its steps. */
  ghost predicate TaskOk(st: System, vs: nat, h: nat)
    requires h < |st.hosts|
  {
    var host := st.hosts[h];
    var building := Fits(st.mem, vs, host.next) && host.next + EntrySize(vs) <= PartitionEnd(host.id);
    match host.task
    case Idle => true
    case WriteKey(pair) => building && WellFormedPair(pair, vs) && IsHead(st.hosts, Bucket(pair.key))
    case WriteValue(pair) =>
      building && WellFormedPair(pair, vs) && IsHead(st.hosts, Bucket(pair.key))
      && KeyAt(st.mem, vs, host.next) == pair.key
    case WriteNext(pair) =>
      building && WellFormedPair(pair, vs) && IsHead(st.hosts, Bucket(pair.key))
      && PairAt(st.mem, vs, host.next) == pair
    case WriteHead(pair) =>
      building && WellFormedPair(pair, vs) && IsHead(st.hosts, Bucket(pair.key))
      && host.next in st.complete && st.complete[host.next] == Entry(h, pair)
    case GetHead(key) => |key| == KEY_SIZE && IsHead(st.hosts, Bucket(key))
    case GetCompare(key, e) => e in st.complete
    case GetValue(key, e) => HasKey(st, e, key)
    case GetNext(key, e) => e in st.complete
    case GetDone(key, found, value) => found ==> Answered(st, key, value)
    case DelHead(key) => |key| == KEY_SIZE && IsHead(st.hosts, Bucket(key))
    case DelCompare(key, e, link) => e in st.complete && IsHead(st.hosts, link) && IsBucket(key, link)
    case DelNext(key, e, link) => HasKey(st, e, key) && IsHead(st.hosts, link) && IsBucket(key, link)
    case DelUnlink(key, link, n) => IsHead(st.hosts, link) && IsBucket(key, link) && n == 0
    case DelAdvance(key, e) => e in st.complete
    case DelDone(_, _) => true
  }

  ghost predicate Inv(st: System, vs: nat) {
    && HostsOk(st, vs)
    && (forall e :: e in st.complete ==> EntryOk(st, vs, e))
    && (forall b: nat :: IsHead(st.hosts, b) && |st.hosts| > 0 ==> HeadOk(st, b))
    && (forall h :: 0 <= h < |st.hosts| ==> TaskOk(st, vs, h))
  }

  /** Zeroed index, every host idle at the start of its own partition, nothing written yet. */
  ghost predicate Initial(st: System) {
    && st.complete == map[]
    && (forall h :: 0 <= h < |st.hosts| ==>
          && Mapped(|st.mem|, st.hosts[h].id) && st.hosts[h].next == PartitionStart(st.hosts[h].id)
          && st.hosts[h].task == Idle)
    && (forall g, h :: 0 <= g < h < |st.hosts| ==> st.hosts[g].id != st.hosts[h].id)
    && (forall b: nat :: IsHead(st.hosts, b) && |st.hosts| > 0 ==> b + 8 <= |st.mem| && WordAt(st.mem, b) == 0)
  }

  // ----- Frames -----

  /** Which bytes a host's next step may change: its own unpublished entry, or one head word. */
  predicate MayChange(vs: nat, host: Host, a: nat) {
    match host.task
    case WriteKey(_) => host.next <= a < host.next + EntrySize(vs)
    case WriteValue(_) => host.next <= a < host.next + EntrySize(vs)
    case WriteNext(_) => host.next <= a < host.next + EntrySize(vs)
    case WriteHead(pair) => |pair.key| == KEY_SIZE && Bucket(pair.key) <= a < Bucket(pair.key) + 8
    case DelUnlink(_, link, _) => link <= a < link + 8
    case _ => false
  }

  lemma StepFrame(m: Bytes, vs: nat, host: Host)
    requires Mappable(m, vs, host)
    ensures forall a :: 0 <= a < |m| && !MayChange(vs, host, a) ==> HostStep(m, vs, host).0[a] == m[a]
  {
    hide Bucket;
  }

  /** No step changes a byte of a completed entry. */
  lemma StepSparesEntries(st: System, vs: nat, h: nat, e: nat, a: nat)
    requires Inv(st, vs) && h < |st.hosts| && e in st.complete && e <= a < e + EntrySize(vs)
    ensures !MayChange(vs, st.hosts[h], a)
  {
    hide Bucket, HeadOk;
    assert EntryOk(st, vs, e) && TaskOk(st, vs, h);
    var g := st.complete[e].owner;
    if g != h {
      assert st.hosts[g].id != st.hosts[h].id;
      PartitionsDisjoint(st.hosts[g].id, st.hosts[h].id);
      OwnBeforeEnd(st, vs, g);
    }
  }

  lemma OwnBeforeEnd(st: System, vs: nat, g: nat)
    requires Inv(st, vs) && g < |st.hosts|
    ensures Frontier(st.hosts[g], vs) <= PartitionEnd(st.hosts[g].id)
  {
    hide Bucket, HeadOk, EntryOk;
    assert TaskOk(st, vs, g);
  }

  /** Nor a byte of the entry that another host is building. */
  lemma StepSparesBuilding(st: System, vs: nat, h: nat, g: nat, a: nat)
    requires Inv(st, vs) && h < |st.hosts| && g < |st.hosts| && g != h
    requires st.hosts[g].next <= a < st.hosts[g].next + EntrySize(vs) <= PartitionEnd(st.hosts[g].id)
    ensures !MayChange(vs, st.hosts[h], a)
  {
    hide Bucket, HeadOk, EntryOk;
    assert TaskOk(st, vs, h);
    assert st.hosts[g].id != st.hosts[h].id;
    PartitionsDisjoint(st.hosts[g].id, st.hosts[h].id);
  }

  /** Nor a head word other than the one it stores. */
  lemma StepSparesHeads(st: System, vs: nat, h: nat, b: nat, a: nat)
    requires Inv(st, vs) && h < |st.hosts| && IsHead(st.hosts, b) && b <= a < b + 8
    ensures MayChange(vs, st.hosts[h], a) ==>
              var task := st.hosts[h].task;
              (task.WriteHead? && b == Bucket(task.pair.key)) || (task.DelUnlink? && b == task.link)
  {
    hide HeadOk, EntryOk, Bucket;
    assert TaskOk(st, vs, h);
  }

  lemma Mapping(st: System, vs: nat, h: nat)
    requires Inv(st, vs) && h < |st.hosts|
    ensures Mappable(st.mem, vs, st.hosts[h])
  {
    hide Bucket;
    assert TaskOk(st, vs, h);
    var task := st.hosts[h].task;
    if task.GetCompare? || task.GetValue? || task.GetNext? || task.DelCompare? || task.DelNext? || task.DelAdvance? {
      assert EntryOk(st, vs, task.entry);
    }
  }

  // ----- The invariant is kept -----

  lemma MoveHosts(st: System, vs: nat, h: nat)
    requires Inv(st, vs) && h < |st.hosts|
    ensures var st' := Apply(st, vs, Move(h));
            && HostsOk(st', vs) && |st'.hosts| == |st.hosts| && |st'.mem| == |st.mem|
            && (forall g :: 0 <= g < |st.hosts| ==>
                st'.hosts[g].id == st.hosts[g].id && (g != h ==> st'.hosts[g] == st.hosts[g]))
            && (forall b: nat :: IsHead(st'.hosts, b) <==> IsHead(st.hosts, b))
  {
    hide Bucket, HeadOk, EntryOk, Read, WordAt, Write, PutWord, IsHead;
    assert TaskOk(st, vs, h);
    SameIdsSameHeads(st.hosts, Apply(st, vs, Move(h)).hosts);
  }

  lemma MoveEntry(st: System, vs: nat, h: nat, e: nat)
    requires Inv(st, vs) && h < |st.hosts| && e in Apply(st, vs, Move(h)).complete
    ensures EntryOk(Apply(st, vs, Move(h)), vs, e)
  {
    hide Bucket, HeadOk, Read, WordAt, Write;
    var st' := Apply(st, vs, Move(h));
    var host := st.hosts[h];
    Mapping(st, vs, h);
    MoveHosts(st, vs, h);
    assert TaskOk(st, vs, h);
    if host.task.WriteNext? && e == host.next {
      ReadSame(st.mem, st'.mem, e, KEY_SIZE);
      ReadSame(st.mem, st'.mem, e + KEY_SIZE, vs);
    } else {
      assert EntryOk(st, vs, e);
      StepFrame(st.mem, vs, host);
      forall a | e <= a < e + EntrySize(vs)
        ensures st'.mem[a] == st.mem[a]
      {
        StepSparesEntries(st, vs, h, e, a);
      }
      EntrySame(st.mem, st'.mem, vs, e);
    }
  }

  lemma MoveHead(st: System, vs: nat, h: nat, b: nat)
    requires Inv(st, vs) && h < |st.hosts| && IsHead(st.hosts, b)
    ensures HeadOk(Apply(st, vs, Move(h)), b)
  {
    hide Bucket, HostsOk, Read, WordAt, Write;
    var st' := Apply(st, vs, Move(h));
    var host := st.hosts[h];
    Mapping(st, vs, h);
    assert TaskOk(st, vs, h) && HeadOk(st, b);
    if host.task.WriteHead? && b == Bucket(host.task.pair.key) {
      assert EntryOk(st, vs, host.next);
      BelowAddressSpace(st, vs, h);
    } else if host.task.DelUnlink? && b == host.task.link {
    } else {
      StepFrame(st.mem, vs, host);
      forall a | b <= a < b + 8
        ensures st'.mem[a] == st.mem[a]
      {
        StepSparesHeads(st, vs, h, b, a);
      }
      WordSame(st.mem, st'.mem, b);
    }
  }

  lemma BelowAddressSpace(st: System, vs: nat, h: nat)
    requires Inv(st, vs) && h < |st.hosts|
    ensures st.hosts[h].next < U64
  {
    hide EntryOk, HeadOk, TaskOk;
  }

  lemma MoveOwnTask(st: System, vs: nat, h: nat)
    requires Inv(st, vs) && h < |st.hosts|
    ensures TaskOk(Apply(st, vs, Move(h)), vs, h)
  {
    hide Inv, TaskOk, Apply;
    match st.hosts[h].task
    case WriteKey(_) => MoveOwnEntry(st, vs, h);
    case WriteValue(_) => MoveOwnEntry(st, vs, h);
    case WriteNext(_) => MoveOwnEntry(st, vs, h);
    case GetHead(_) => MoveOwnGet(st, vs, h);
    case GetCompare(_, _) => MoveOwnGet(st, vs, h);
    case GetValue(_, _) => MoveOwnGet(st, vs, h);
    case GetNext(_, _) => MoveOwnGet(st, vs, h);
    case _ => MoveOwnDel(st, vs, h);
  }

  predicate Building(task: Task) {
    task.WriteKey? || task.WriteValue? || task.WriteNext?
  }

  lemma MoveOwnEntry(st: System, vs: nat, h: nat)
    requires Inv(st, vs) && h < |st.hosts| && Building(st.hosts[h].task)
    ensures TaskOk(Apply(st, vs, Move(h)), vs, h)
  {
    hide Bucket, HostsOk, Read, WordAt, Write, IsHead, EntryOk, HeadOk;
    var st' := Apply(st, vs, Move(h));
    var host := st.hosts[h];
    Mapping(st, vs, h);
    MoveHosts(st, vs, h);
    assert TaskOk(st, vs, h);
    match host.task
    case WriteKey(pair) => ReadBack(st.mem, host.next, pair.key);
    case WriteValue(pair) =>
      ReadSame(st.mem, st'.mem, host.next, KEY_SIZE);
      ReadBack(st.mem, host.next + KEY_SIZE, pair.value);
    case WriteNext(pair) =>
  }

  predicate Looking(task: Task) {
    task.GetHead? || task.GetCompare? || task.GetValue? || task.GetNext?
  }

  lemma MoveOwnGet(st: System, vs: nat, h: nat)
    requires Inv(st, vs) && h < |st.hosts| && Looking(st.hosts[h].task)
    ensures TaskOk(Apply(st, vs, Move(h)), vs, h)
  {
    hide Bucket, HostsOk, Read, WordAt, Write, IsHead;
    var st' := Apply(st, vs, Move(h));
    var host := st.hosts[h];
    Mapping(st, vs, h);
    MoveHosts(st, vs, h);
    assert TaskOk(st, vs, h);
    match host.task
    case GetHead(key) => assert HeadOk(st, Bucket(key));
    case GetCompare(key, e) => assert EntryOk(st, vs, e);
    case GetValue(key, e) =>
      assert EntryOk(st, vs, e);
      assert st'.complete[e].pair == Pair(key, ValueAt(st.mem, vs, e));
    case GetNext(key, e) => assert EntryOk(st, vs, e);
  }

  lemma MoveOwnDel(st: System, vs: nat, h: nat)
    requires Inv(st, vs) && h < |st.hosts| && !Building(st.hosts[h].task) && !Looking(st.hosts[h].task)
    ensures TaskOk(Apply(st, vs, Move(h)), vs, h)
  {
    hide Bucket, HostsOk, Read, WordAt, Write, IsHead;
    var st' := Apply(st, vs, Move(h));
    var host := st.hosts[h];
    Mapping(st, vs, h);
    MoveHosts(st, vs, h);
    assert TaskOk(st, vs, h);
    match host.task
    case DelHead(key) => assert HeadOk(st, Bucket(key));
    case DelCompare(key, e, link) => assert EntryOk(st, vs, e);
    case DelNext(key, e, link) => assert EntryOk(st, vs, e);
    case DelAdvance(key, e) => assert EntryOk(st, vs, e);
    case _ =>
  }

  lemma MoveOtherTask(st: System, vs: nat, h: nat, g: nat)
    requires Inv(st, vs) && h < |st.hosts| && g < |st.hosts| && g != h
    ensures TaskOk(Apply(st, vs, Move(h)), vs, g)
  {
    hide Bucket, Read, WordAt, Write, IsHead, HostStep, HeadOk;
    var st' := Apply(st, vs, Move(h));
    var other := st.hosts[g];
    Mapping(st, vs, h);
    MoveHosts(st, vs, h);
    assert TaskOk(st, vs, g);
    CompleteGrows(st, vs, h);
    if other.task.WriteValue? || other.task.WriteNext? {
      StepFrame(st.mem, vs, st.hosts[h]);
      forall a | other.next <= a < other.next + EntrySize(vs)
        ensures st'.mem[a] == st.mem[a]
      {
        StepSparesBuilding(st, vs, h, g, a);
      }
      EntrySame(st.mem, st'.mem, vs, other.next);
    }
    if other.task.GetDone? && other.task.found {
      var e :| e in st.complete && st.complete[e].pair == Pair(other.task.key, other.task.value);
      assert st'.complete[e].pair == Pair(other.task.key, other.task.value);
    }
  }

  /** The address a host is about to complete is new. */
  lemma CompletesNewEntry(st: System, vs: nat, h: nat)
    requires Inv(st, vs) && h < |st.hosts| && st.hosts[h].task.WriteNext?
    ensures st.hosts[h].next !in st.complete
  {
    hide Bucket, HeadOk, Read, WordAt;
    var next := st.hosts[h].next;
    if next in st.complete {
      assert EntryOk(st, vs, next) && TaskOk(st, vs, h);
      var g := st.complete[next].owner;
      OwnBeforeEnd(st, vs, g);
      if g != h {
        assert st.hosts[g].id != st.hosts[h].id;
        PartitionsDisjoint(st.hosts[g].id, st.hosts[h].id);
      }
    }
  }

  /** So the history only grows. */
  lemma CompleteGrows(st: System, vs: nat, h: nat)
    requires Inv(st, vs) && h < |st.hosts|
    ensures var st' := Apply(st, vs, Move(h));
            forall e :: e in st.complete ==> e in st'.complete && st'.complete[e] == st.complete[e]
  {
    hide Inv, HostStep, Mappable;
    if st.hosts[h].task.WriteNext? {
      CompletesNewEntry(st, vs, h);
    }
  }

  lemma MoveKeepsInv(st: System, vs: nat, h: nat)
    requires Inv(st, vs) && h < |st.hosts|
    ensures Inv(Apply(st, vs, Move(h)), vs)
  {
    hide HostsOk, EntryOk, HeadOk, TaskOk, Apply, IsHead;
    var st' := Apply(st, vs, Move(h));
    MoveHosts(st, vs, h);
    forall e | e in st'.complete
      ensures EntryOk(st', vs, e)
    {
      MoveEntry(st, vs, h, e);
    }
    forall b: nat | IsHead(st'.hosts, b)
      ensures HeadOk(st', b)
    {
      MoveHead(st, vs, h, b);
    }
    forall g | 0 <= g < |st'.hosts|
      ensures TaskOk(st', vs, g)
    {
      if g == h {
        MoveOwnTask(st, vs, h);
      } else {
        MoveOtherTask(st, vs, h, g);
      }
    }
  }

  lemma SameIdsSameHeads(hosts: seq<Host>, hosts': seq<Host>)
    requires |hosts| == |hosts'| && forall h :: 0 <= h < |hosts| ==> hosts[h].id == hosts'[h].id
    ensures forall b: nat :: IsHead(hosts', b) <==> IsHead(hosts, b)
  {
  }

  /** Beginning an operation changes one idle host's task and nothing else. */
  lemma BeginEffect(st: System, vs: nat, ev: Event)
    requires Inv(st, vs) && !ev.Move?
    ensures var st' := Apply(st, vs, ev);
            && st'.mem == st.mem && st'.complete == st.complete && |st'.hosts| == |st.hosts|
            && (forall g :: 0 <= g < |st.hosts| ==>
                st'.hosts[g].id == st.hosts[g].id && st'.hosts[g].next == st.hosts[g].next)
            && (forall g :: 0 <= g < |st.hosts| ==> Frontier(st'.hosts[g], vs) == Frontier(st.hosts[g], vs))
            && (forall g :: 0 <= g < |st.hosts| ==> st'.hosts[g] == st.hosts[g] || (g == ev.h && TaskOk(st', vs, g)))
  {
    hide Bucket, PartitionId, Read, WordAt, EntryOk, HeadOk, IsHead, ClearOf;
    var st' := Apply(st, vs, ev);
    if st' != st {
      var key := if ev.BeginInsert? then ev.pair.key else ev.key;
      UsableIsHead(st.hosts, key);
      SameIdsSameHeads(st.hosts, st'.hosts);
    }
  }

  lemma BeginKeepsInv(st: System, vs: nat, ev: Event)
    requires Inv(st, vs) && !ev.Move?
    ensures Inv(Apply(st, vs, ev), vs)
  {
    hide Bucket, Read, WordAt, IsHead, Apply;
    var st' := Apply(st, vs, ev);
    BeginEffect(st, vs, ev);
    SameIdsSameHeads(st.hosts, st'.hosts);
    forall e | e in st'.complete
      ensures EntryOk(st', vs, e)
    {
      assert EntryOk(st, vs, e);
    }
    forall b: nat | IsHead(st'.hosts, b) && |st'.hosts| > 0
      ensures HeadOk(st', b)
    {
      assert HeadOk(st, b);
    }
    forall g | 0 <= g < |st'.hosts|
      ensures TaskOk(st', vs, g)
    {
      if st'.hosts[g] == st.hosts[g] {
        SameTask(st, st', vs, g);
      }
    }
  }

  lemma SameTask(st: System, st': System, vs: nat, g: nat)
    requires g < |st.hosts| == |st'.hosts| && TaskOk(st, vs, g) && st'.hosts[g] == st.hosts[g]
    requires st'.mem == st.mem && st'.complete == st.complete
    requires forall b: nat :: IsHead(st'.hosts, b) <==> IsHead(st.hosts, b)
    ensures TaskOk(st', vs, g)
  {
    hide Bucket, Read, WordAt, IsHead;
    var task := st.hosts[g].task;
    if task.GetDone? && task.found {
      var e :| e in st.complete && st.complete[e].pair == Pair(task.key, task.value);
      assert e in st'.complete;
    }
  }

  lemma EventKeepsInv(st: System, vs: nat, ev: Event)
    requires Inv(st, vs)
    ensures Inv(Apply(st, vs, ev), vs)
  {
    hide Inv, Apply;
    if ev.h >= |st.hosts| {
      OutOfRange(st, vs, ev);
    } else if ev.Move? {
      MoveKeepsInv(st, vs, ev.h);
    } else {
      BeginKeepsInv(st, vs, ev);
    }
  }

  lemma {:induction false} RunKeepsInv(st: System, vs: nat, events: seq<Event>)
    requires Initial(st)
    ensures Inv(Run(st, vs, events), vs)
    decreases |events|
  {
    if events == [] {
      InitialInv(st, vs);
    } else {
      hide Inv, Apply;
      RunKeepsInv(st, vs, events[..|events| - 1]);
      EventKeepsInv(Run(st, vs, events[..|events| - 1]), vs, events[|events| - 1]);
    }
  }

  lemma OutOfRange(st: System, vs: nat, ev: Event)
    requires ev.h >= |st.hosts|
    ensures Apply(st, vs, ev) == st
  {
  }

  lemma InitialInv(st: System, vs: nat)
    requires Initial(st)
    ensures Inv(st, vs)
  {
    hide Bucket, WordAt;
  }

  // ----- What every interleaving guarantees -----

  /** At any time a head word is zero or leads to one entry with complete key, value and zero next;
      that entry belongs to the bucket, and walking the bucket visits it and ends. */
  lemma HeadsLeadToCompleteEntries(st: System, vs: nat, events: seq<Event>, b: nat)
    requires Initial(st) && |st.hosts| > 0 && IsHead(Run(st, vs, events).hosts, b) && |Run(st, vs, events).hosts| > 0
    ensures var st' := Run(st, vs, events);
            b + 8 <= |st'.mem| &&
            var e := WordAt(st'.mem, b);
            if e == 0 then Chain(st'.mem, vs, b, [])
            else
              && Chain(st'.mem, vs, b, [e])
              && e in st'.complete && PairAt(st'.mem, vs, e) == st'.complete[e].pair && NextAt(st'.mem, vs, e) == 0
              && Bucket(KeyAt(st'.mem, vs, e)) == b
  {
    hide Bucket, WordAt, Read;
    RunKeepsInv(st, vs, events);
    var st' := Run(st, vs, events);
    assert HeadOk(st', b);
    var e := WordAt(st'.mem, b);
    if e != 0 {
      assert EntryOk(st', vs, e);
    }
  }

  /** A get that reports success returns a value that some insert stored under exactly that key; every
      host can always take its next step. */
  lemma GetsReturnInsertedValues(st: System, vs: nat, events: seq<Event>, h: nat)
    requires Initial(st) && h < |Run(st, vs, events).hosts|
    ensures var st' := Run(st, vs, events);
            && Mappable(st'.mem, vs, st'.hosts[h])
            && (st'.hosts[h].task.GetDone? && st'.hosts[h].task.found ==>
                  exists e :: e in st'.complete
                      && st'.complete[e].pair == Pair(st'.hosts[h].task.key, st'.hosts[h].task.value))
  {
    hide Bucket;
    RunKeepsInv(st, vs, events);
    var st' := Run(st, vs, events);
    Mapping(st', vs, h);
    assert TaskOk(st', vs, h);
  }

  /** Whoever moves, completed entries keep every byte, and no byte of another host's partition changes. */
  lemma NobodyTouchesOthers(st: System, vs: nat, events: seq<Event>, h: nat, a: nat)
    requires Initial(st) && h < |Run(st, vs, events).hosts| && a < |Run(st, vs, events).mem|
    ensures var before := Run(st, vs, events);
            var after := Apply(before, vs, Move(h));
            && (forall e :: e in before.complete && e <= a < e + EntrySize(vs) ==>
                |after.mem| == |before.mem| && after.mem[a] == before.mem[a])
            && (forall g :: 0 <= g < |before.hosts| && g != h
                            && PartitionStart(before.hosts[g].id) <= a < PartitionEnd(before.hosts[g].id) ==>
                  |after.mem| == |before.mem| && after.mem[a] == before.mem[a])
  {
    hide Bucket, Write, WordAt, HostStep;
    RunKeepsInv(st, vs, events);
    var before := Run(st, vs, events);
    Mapping(before, vs, h);
    StepFrame(before.mem, vs, before.hosts[h]);
    forall e | e in before.complete && e <= a < e + EntrySize(vs)
      ensures !MayChange(vs, before.hosts[h], a)
    {
      StepSparesEntries(before, vs, h, e, a);
    }
    forall g | 0 <= g < |before.hosts| && g != h
        && PartitionStart(before.hosts[g].id) <= a < PartitionEnd(before.hosts[g].id)
      ensures !MayChange(vs, before.hosts[h], a)
    {
      StepSparesPartition(before, vs, h, g, a);
    }
  }

  lemma StepSparesPartition(st: System, vs: nat, h: nat, g: nat, a: nat)
    requires Inv(st, vs) && h < |st.hosts| && g < |st.hosts| && g != h
    requires PartitionStart(st.hosts[g].id) <= a < PartitionEnd(st.hosts[g].id)
    ensures !MayChange(vs, st.hosts[h], a)
  {
    hide Bucket, HeadOk, EntryOk;
    assert TaskOk(st, vs, h);
    assert st.hosts[g].id != st.hosts[h].id;
    PartitionsDisjoint(st.hosts[g].id, st.hosts[h].id);
  }
}
