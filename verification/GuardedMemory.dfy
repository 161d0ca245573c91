/** Runs of guarded stores mixed with every operation on the table: what a guarded read returns is
    what the last granted store left. */
module GuardedMemory {
  import opened Memory
  import opened Layout
  import opened TableSpec
  import opened ProtectedStore
  import opened GshmObject
  import TableRuns

  /** A write_cxl under a token, or an operation on the protection table. */
  datatype Action<T> =
    | Store(offset: nat, data: Bytes, token: T)
    | Table(op: TableRuns.Op<T>)

  datatype State<T> = State(table: seq<Slot<T>>, mem: Bytes)

  /** The action is a store that the table grants. */
  predicate GrantedStore<T(==)>(b: Build<T>, table: seq<Slot<T>>, act: Action<T>)
    requires |table| == HASH_TABLE_SIZE
  {
    act.Store? && Granted(b, table, act.token, act.offset, |act.data|, WRITE)
  }

  /** A store that is granted stays in the data area; a refused one may name any range. */
  predicate Defined<T(==)>(b: Build<T>, st: State<T>, act: Action<T>) {
    && |st.table| == HASH_TABLE_SIZE
    && (act.Table? ==> TableRuns.WellFormed(act.op))
    && (GrantedStore(b, st.table, act) ==> act.offset + |act.data| <= |st.mem|)
  }

  function Step<T(==)>(b: Build<T>, st: State<T>, act: Action<T>): (st': State<T>)
    requires Defined(b, st, act)
    ensures |st'.table| == HASH_TABLE_SIZE && |st'.mem| == |st.mem|
  {
    match act
    case Store(offset, data, _) =>
      if GrantedStore(b, st.table, act) then st.(mem := Write(st.mem, offset, data)) else st
    case Table(op) => st.(table := TableRuns.TableStep(b, st.table, op).0)
  }

  ghost predicate DefinedRun<T>(b: Build<T>, st: State<T>, acts: seq<Action<T>>)
    decreases |acts|, 0
  {
    && |st.table| == HASH_TABLE_SIZE
    && (acts != [] ==>
          && DefinedRun(b, st, acts[..|acts| - 1])
          && Defined(b, Run(b, st, acts[..|acts| - 1]), acts[|acts| - 1]))
  }

  ghost function Run<T>(b: Build<T>, st: State<T>, acts: seq<Action<T>>): (st': State<T>)
    requires DefinedRun(b, st, acts)
    ensures |st'.table| == HASH_TABLE_SIZE && |st'.mem| == |st.mem|
    decreases |acts|, 1
  {
    if acts == [] then st else Step(b, Run(b, st, acts[..|acts| - 1]), acts[|acts| - 1])
  }

  lemma DefinedPrefix<T>(b: Build<T>, st: State<T>, acts: seq<Action<T>>, n: nat)
    requires DefinedRun(b, st, acts) && n <= |acts|
    ensures DefinedRun(b, st, acts[..n])
    ensures n < |acts| ==> Defined(b, Run(b, st, acts[..n]), acts[n])
    decreases |acts|
  {
    hide Step, Defined;
    if n == |acts| {
      assert acts[..n] == acts;
    } else {
      DefinedPrefix(b, st, acts[..|acts| - 1], n);
      assert acts[..|acts| - 1][..n] == acts[..n];
    }
  }

  /** The i-th action of the run is a store into the range p, n that is granted at its time. */
  ghost predicate Overwrites<T>(b: Build<T>, st: State<T>, acts: seq<Action<T>>, i: nat, p: nat, n: nat)
    requires DefinedRun(b, st, acts) && i < |acts|
  {
    DefinedPrefix(b, st, acts, i);
    && GrantedStore(b, Run(b, st, acts[..i]).table, acts[i])
    && !DisjointRanges(p, n, acts[i].offset, |acts[i].data|)
  }

  /** While no granted store touches a range, its bytes stay, whatever is refused there, stored
      elsewhere, issued, revoked or cleared. */
  lemma {:induction false} UntouchedBytesStay<T>(b: Build<T>, st: State<T>, acts: seq<Action<T>>, from: nat, p: nat,
                                                 n: nat)
    requires DefinedRun(b, st, acts) && from <= |acts| && p + n <= |st.mem|
    requires forall i :: from <= i < |acts| ==> !Overwrites(b, st, acts, i, p, n)
    ensures DefinedRun(b, st, acts[..from])
    ensures Read(Run(b, st, acts).mem, p, n) == Read(Run(b, st, acts[..from]).mem, p, n)
    decreases |acts|
  {
    hide Granted, Read, Write, Step, Run, DefinedRun, Defined;
    if from == |acts| {
      assert acts[..from] == acts;
    } else {
      var last := |acts| - 1;
      DefinedPrefix(b, st, acts, last);
      forall i | from <= i < last
        ensures !Overwrites(b, st, acts[..last], i, p, n)
      {
        assert acts[..last][..i] == acts[..i];
        assert !Overwrites(b, st, acts, i, p, n);
      }
      UntouchedBytesStay(b, st, acts[..last], from, p, n);
      assert acts[..last][..from] == acts[..from];
      RunLast(b, st, acts);
      assert !Overwrites(b, st, acts, last, p, n);
      StepSpares(b, Run(b, st, acts[..last]), acts[last], p, n);
    }
  }

  lemma RunLast<T>(b: Build<T>, st: State<T>, acts: seq<Action<T>>)
    requires DefinedRun(b, st, acts) && acts != []
    ensures DefinedRun(b, st, acts[..|acts| - 1])
    ensures Defined(b, Run(b, st, acts[..|acts| - 1]), acts[|acts| - 1])
    ensures Run(b, st, acts) == Step(b, Run(b, st, acts[..|acts| - 1]), acts[|acts| - 1])
  {
    hide Step, Defined;
  }

  lemma StepSpares<T>(b: Build<T>, st: State<T>, act: Action<T>, p: nat, n: nat)
    requires Defined(b, st, act) && p + n <= |st.mem|
    requires GrantedStore(b, st.table, act) ==> DisjointRanges(p, n, act.offset, |act.data|)
    ensures Read(Step(b, st, act).mem, p, n) == Read(st.mem, p, n)
  {
    hide Granted;
    ReadSame(st.mem, Step(b, st, act).mem, p, n);
  }

  /** A granted read returns the bytes of the last granted store that touched them, through whatever
      token and whatever was issued, revoked or cleared in between. */
  lemma ReadReturnsLastGrantedStore<T>(b: Build<T>, st: State<T>, acts: seq<Action<T>>, i: nat, p: nat, n: nat, k: T,
                                       buffer: Bytes)
    requires DefinedRun(b, st, acts) && i < |acts| && DefinedRun(b, st, acts[..i])
    requires GrantedStore(b, Run(b, st, acts[..i]).table, acts[i])
    requires acts[i].offset <= p && p + n <= acts[i].offset + |acts[i].data|
    requires forall j :: i < j < |acts| ==> !Overwrites(b, st, acts, j, p, n)
    ensures p + n <= |st.mem|
    ensures var end := Run(b, st, acts);
            GuardedRead(b, end.table, end.mem, p, n, buffer, k)
            == if Granted(b, end.table, k, p, n, READ) then acts[i].data[p - acts[i].offset..p - acts[i].offset + n]
               else buffer
  {
    hide Granted, Run, Read, Step, DefinedRun;
    DefinedPrefix(b, st, acts, i);
    UntouchedBytesStay(b, st, acts, i + 1, p, n);
    assert acts[..i + 1][..i] == acts[..i] && acts[..i + 1][i] == acts[i];
    RunLast(b, st, acts[..i + 1]);
    GrantedStoreWrites(b, Run(b, st, acts[..i]), acts[i], p, n);
  }

  lemma GrantedStoreWrites<T>(b: Build<T>, st: State<T>, act: Action<T>, p: nat, n: nat)
    requires Defined(b, st, act) && GrantedStore(b, st.table, act)
    requires act.offset <= p && p + n <= act.offset + |act.data|
    ensures Read(Step(b, st, act).mem, p, n) == act.data[p - act.offset..p - act.offset + n]
  {
    hide Granted, Read, Write;
    ReadWritten(st.mem, act.offset, act.data, p, n);
  }

  /** And if no granted store touched them, the bytes from before the run. */
  lemma ReadReturnsInitialBytes<T>(b: Build<T>, st: State<T>, acts: seq<Action<T>>, p: nat, n: nat, k: T, buffer: Bytes)
    requires DefinedRun(b, st, acts) && p + n <= |st.mem|
    requires forall j :: 0 <= j < |acts| ==> !Overwrites(b, st, acts, j, p, n)
    ensures var end := Run(b, st, acts);
            GuardedRead(b, end.table, end.mem, p, n, buffer, k)
            == if Granted(b, end.table, k, p, n, READ) then Read(st.mem, p, n) else buffer
  {
    hide Granted, Step, Defined;
    UntouchedBytesStay(b, st, acts, 0, p, n);
    assert acts[..0] == [];
  }

  // ----- The object carries out such runs -----

  /** One action by the object's own methods. */
  method ServeAction<T(==)>(store: Gshm<T>, act: Action<T>)
    requires store.Valid() && Defined(store.build, State(store.table[..], store.mem[..]), act)
    modifies store.table, store.mem
    ensures store.Valid()
    ensures State(store.table[..], store.mem[..])
         == Step(store.build, old(State(store.table[..], store.mem[..])), act)
  {
    hide Granted, Write;
    match act {
      case Store(offset, data, token) =>
        var _ := store.WriteCxl(offset, data, token);
      case Table(op) =>
        match op {
          case Issue(k, region) => var _ := store.InsertProtectionEntry(k, region);
          case Withdraw(k) => var _ := store.RevokeCxl(k);
          case Wipe => store.ClearProtectionTable();
          case Check(k, offset, size, bit) => var _ := store.Check(offset, size, bit, k);
        }
    }
  }

  /** A whole run of write_cxl, insert, revoke, clear and access checks. */
  method ServeActions<T(==)>(store: Gshm<T>, acts: seq<Action<T>>)
    requires store.Valid() && DefinedRun(store.build, State(store.table[..], store.mem[..]), acts)
    modifies store.table, store.mem
    ensures store.Valid()
    ensures State(store.table[..], store.mem[..])
         == Run(store.build, old(State(store.table[..], store.mem[..])), acts)
  {
    hide Step, Defined;
    ghost var st := State(store.table[..], store.mem[..]);
    var n := 0;
    DefinedPrefix(store.build, st, acts, 0);
    while n < |acts|
      invariant n <= |acts| && store.Valid() && DefinedRun(store.build, st, acts[..n])
      invariant State(store.table[..], store.mem[..]) == Run(store.build, st, acts[..n])
    {
      DefinedPrefix(store.build, st, acts, n);
      DefinedPrefix(store.build, st, acts, n + 1);
      assert acts[..n + 1][..n] == acts[..n];
      ServeAction(store, acts[n]);
      n := n + 1;
    }
    assert acts[..n] == acts;
  }
}
