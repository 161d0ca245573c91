/** Whole sequential runs of the protection table, compared with a plain map from token to region.

    The same map machine is the reference for both builds. With an arbitrary hash the table agrees
    with it over every run without revocation; with the 16-bit multiplicative hash it agrees over
    every run whatsoever, because no probe ever leaves its home slot. */
module TableRuns {
  import opened Memory
  import opened TableSpec
  import FibonacciHash

  datatype Op<T> =
    | Issue(k: T, region: Region)
    | Withdraw(k: T)
    | Wipe
    | Check(k: T, offset: nat, size: nat, bit: nat)

  datatype Out = Code(code: int) | Decision(granted: bool)

  predicate WellFormed<T>(op: Op<T>) {
    op.Check? ==> op.bit == READ || op.bit == WRITE
  }

  function TableStep<T(==)>(b: Build<T>, s: seq<Slot<T>>, op: Op<T>): (r: (seq<Slot<T>>, Out))
    requires |s| == HASH_TABLE_SIZE && WellFormed(op)
    ensures |r.0| == HASH_TABLE_SIZE
  {
    match op
    case Issue(k, region) => var (s', code) := Insert(b, s, k, region); (s', Code(code))
    case Withdraw(k) => var (s', code) := Revoke(b, s, k); (s', Code(code))
    case Wipe => (Clear(b, s), Code(0))
    case Check(k, offset, size, bit) => (s, Decision(Granted(b, s, k, offset, size, bit)))
  }

  /** The reference machine: a finite map with the capacity of the table. */
  function MapStep<T(==)>(b: Build<T>, m: map<T, Region>, op: Op<T>): (map<T, Region>, Out)
    requires WellFormed(op)
  {
    match op
    case Issue(k, region) =>
      if k in m then (m, Code(-2))
      else if |m| == HASH_TABLE_SIZE then (m, Code(-1))
      else (m[k := region], Code(0))
    case Withdraw(k) =>
      if k in m || k == b.global then (m - {k}, Code(0)) else (m, Code(-1))
    case Wipe => (map[], Code(0))
    case Check(k, offset, size, bit) =>
      (m, Decision(k == b.global || (k in m && Permits(m[k], offset, size, bit))))
  }

  function RunTable<T(==)>(b: Build<T>, s: seq<Slot<T>>, ops: seq<Op<T>>): (r: (seq<Slot<T>>, seq<Out>))
    requires |s| == HASH_TABLE_SIZE && forall op :: op in ops ==> WellFormed(op)
    ensures |r.0| == HASH_TABLE_SIZE
    decreases |ops|
  {
    if ops == [] then (s, [])
    else
      var (s1, out) := TableStep(b, s, ops[0]);
      var (s2, outs) := RunTable(b, s1, ops[1..]);
      (s2, [out] + outs)
  }

  function RunMap<T(==)>(b: Build<T>, m: map<T, Region>, ops: seq<Op<T>>): (map<T, Region>, seq<Out>)
    requires forall op :: op in ops ==> WellFormed(op)
    decreases |ops|
  {
    if ops == [] then (m, [])
    else
      var (m1, out) := MapStep(b, m, ops[0]);
      var (m2, outs) := RunMap(b, m1, ops[1..]);
      (m2, [out] + outs)
  }

  // ----- Representation -----

  ghost predicate NoneValid<T>(s: seq<Slot<T>>) {
    forall i :: 0 <= i < |s| ==> !s[i].valid
  }

  ghost predicate Unique<T>(s: seq<Slot<T>>) {
    forall i, j :: 0 <= i < j < |s| && s[i].valid && s[j].valid ==> s[i].token != s[j].token
  }

  /** The valid slots hold exactly the bindings of m, each once. */
  ghost predicate Holds<T>(s: seq<Slot<T>>, m: map<T, Region>) {
    && (forall i :: 0 <= i < |s| && s[i].valid ==> s[i].token in m && m[s[i].token] == s[i].region)
    && (forall k :: k in m ==> !Absent(s, k))
    && Unique(s)
    && |m| == |ValidSlots(s)|
  }

  /** All slots from a token's home up to its own slot are valid and hold other tokens. */
  ghost predicate Packed<T>(b: Build<T>, s: seq<Slot<T>>)
    requires |s| == HASH_TABLE_SIZE
  {
    forall i, e :: 0 <= i < |s| && s[i].valid && 0 <= e < Distance(b.hash(s[i].token), i) ==>
      Passes(s, b.hash(s[i].token), s[i].token, e)
  }

  /** Every valid slot is the home of its token. */
  ghost predicate Homed<T>(b: Build<T>, s: seq<Slot<T>>)
    requires |s| == HASH_TABLE_SIZE
  {
    forall i :: 0 <= i < |s| && s[i].valid ==> i == b.hash(s[i].token)
  }

  lemma PackedLookup<T>(b: Build<T>, s: seq<Slot<T>>, m: map<T, Region>, k: T)
    requires |s| == HASH_TABLE_SIZE && Packed(b, s) && Holds(s, m)
    ensures Lookup(b, s, k) == if k in m then Some(m[k]) else None
  {
    if k in m {
      var i :| 0 <= i < |s| && s[i].valid && s[i].token == k;
      ProbeUnique(s, b.hash(k), k, Distance(b.hash(k), i));
    }
  }

  lemma IssueAgrees<T>(b: Build<T>, s: seq<Slot<T>>, m: map<T, Region>, k: T, region: Region)
    requires |s| == HASH_TABLE_SIZE && Packed(b, s) && Holds(s, m)
    ensures var (s', out) := TableStep(b, s, Issue(k, region));
            var (m', out') := MapStep(b, m, Issue(k, region));
            out == out' && Packed(b, s') && Holds(s', m')
  {
    PackedLookup(b, s, m, k);
    FullCount(s);
    IssuePacked(b, s, k, region);
    var home := b.hash(k);
    var d := Probe(s, home, k);
    if d == HASH_TABLE_SIZE {
      FullCircle(s, home, k);
    } else if !s[At(home, d)].valid {
      FillAdds(s, m, At(home, d), k, region);
    }
  }

  /** Filling an invalid slot with a token not bound so far adds exactly its binding. */
  lemma FillAdds<T>(s: seq<Slot<T>>, m: map<T, Region>, p: nat, k: T, region: Region)
    requires p < |s| && !s[p].valid && k !in m && Holds(s, m)
    ensures Holds(s[p := Slot(true, k, region)], m[k := region])
  {
    var s' := s[p := Slot(true, k, region)];
    FillCount(s, m, p, k, region);
    forall i | 0 <= i < |s'| && s'[i].valid
      ensures s'[i].token in m[k := region] && m[k := region][s'[i].token] == s'[i].region
    {
      assert i != p ==> s'[i] == s[i] && s[i].token != k;
    }
    forall k' | k' in m[k := region]
      ensures !Absent(s', k')
    {
      if k' != k {
        var i :| 0 <= i < |s| && s[i].valid && s[i].token == k';
        assert s'[i].valid && s'[i].token == k';
      } else {
        assert s'[p].valid && s'[p].token == k';
      }
    }
  }

  lemma FillCount<T>(s: seq<Slot<T>>, m: map<T, Region>, p: nat, k: T, region: Region)
    requires p < |s| && !s[p].valid && k !in m && |m| == |ValidSlots(s)|
    ensures |m[k := region]| == |ValidSlots(s[p := Slot(true, k, region)])|
  {
    assert ValidSlots(s[p := Slot(true, k, region)]) == ValidSlots(s) + {p};
  }

  lemma IssuePacked<T>(b: Build<T>, s: seq<Slot<T>>, k: T, region: Region)
    requires |s| == HASH_TABLE_SIZE && Packed(b, s)
    ensures Packed(b, Insert(b, s, k, region).0)
  {
    var s' := Insert(b, s, k, region).0;
    var d := Probe(s, b.hash(k), k);
    forall i, e | 0 <= i < |s| && s'[i].valid && 0 <= e < Distance(b.hash(s'[i].token), i)
      ensures Passes(s', b.hash(s'[i].token), s'[i].token, e)
    {
      if s'[i] == s[i] {
        assert Passes(s, b.hash(s[i].token), s[i].token, e);
      } else {
        AtInjectiveDistance(b.hash(k), d, i);
        assert Passes(s, b.hash(k), k, e);
      }
    }
  }

  lemma AtInjectiveDistance(home: Index, d: nat, i: Index)
    requires d < HASH_TABLE_SIZE && At(home, d) == i
    ensures Distance(home, i) == d
  {
    AtInjective(home, d, Distance(home, i));
  }

  lemma OneBindingLess<T>(m: map<T, Region>, k: T)
    requires k in m
    ensures |m - {k}| == |m| - 1
  {
    assert (m - {k}).Keys == m.Keys - {k};
    assert |(m - {k}).Keys| == |m - {k}| && |m.Keys| == |m|;
  }

  /** Resetting the one slot that holds k removes exactly k's binding. */
  lemma HoleRemoves<T>(s: seq<Slot<T>>, m: map<T, Region>, p: nat)
    requires p < |s| && s[p].valid && Holds(s, m)
    ensures Holds(s[p := s[p].(valid := false)], m - {s[p].token})
  {
    var s' := s[p := s[p].(valid := false)];
    HoleCount(s, m, p);
    HoleKeepsOthers(s, m, p);
    assert Unique(s');
  }

  lemma HoleKeepsOthers<T>(s: seq<Slot<T>>, m: map<T, Region>, p: nat)
    requires p < |s| && s[p].valid && Holds(s, m)
    ensures var s', m' := s[p := s[p].(valid := false)], m - {s[p].token};
            && (forall i :: 0 <= i < |s'| && s'[i].valid ==> s'[i].token in m' && m'[s'[i].token] == s'[i].region)
            && (forall k :: k in m' ==> !Absent(s', k))
  {
    hide ValidSlots;
    var s' := s[p := s[p].(valid := false)];
    var k := s[p].token;
    forall i | 0 <= i < |s| && s'[i].valid
      ensures s'[i].token in m - {k} && (m - {k})[s'[i].token] == s'[i].region
    {
      assert s'[i] == s[i] && s[i].token != k;
    }
    forall k' | k' in m - {k}
      ensures !Absent(s', k')
    {
      var i :| 0 <= i < |s| && s[i].valid && s[i].token == k';
      assert s'[i].valid && s'[i].token == k';
    }
  }

  lemma HoleCount<T>(s: seq<Slot<T>>, m: map<T, Region>, p: nat)
    requires p < |s| && s[p].valid && s[p].token in m && |m| == |ValidSlots(s)|
    ensures |m - {s[p].token}| == |ValidSlots(s[p := s[p].(valid := false)])|
  {
    assert ValidSlots(s) == ValidSlots(s[p := s[p].(valid := false)]) + {p};
    OneBindingLess(m, s[p].token);
  }

  lemma WithdrawAgrees<T>(b: Build<T>, s: seq<Slot<T>>, m: map<T, Region>, k: T)
    requires |s| == HASH_TABLE_SIZE && Packed(b, s) && Holds(s, m) && k != b.global
    ensures var (s', out) := TableStep(b, s, Withdraw(k));
            var (m', out') := MapStep(b, m, Withdraw(k));
            out == out' && Holds(s', m')
  {
    PackedLookup(b, s, m, k);
    if k in m {
      HoleRemoves(s, m, At(b.hash(k), Probe(s, b.hash(k), k)));
    }
  }

  lemma NoneValidHoldsNothing<T>(b: Build<T>, s: seq<Slot<T>>)
    requires |s| == HASH_TABLE_SIZE && NoneValid(s)
    ensures Holds(s, map[]) && Packed(b, s) && Homed(b, s)
  {
    assert ValidSlots(s) == {};
  }

  // ----- Open addressing over any hash -----

  lemma PackedStep<T>(b: Build<T>, s: seq<Slot<T>>, m: map<T, Region>, op: Op<T>)
    requires |s| == HASH_TABLE_SIZE && Packed(b, s) && Holds(s, m) && WellFormed(op) && !op.Withdraw?
    ensures var (s', out) := TableStep(b, s, op);
            var (m', out') := MapStep(b, m, op);
            out == out' && Packed(b, s') && Holds(s', m')
  {
    match op
    case Issue(k, region) => IssueAgrees(b, s, m, k, region);
    case Check(k, _, _, _) => PackedLookup(b, s, m, k);
    case Wipe => NoneValidHoldsNothing(b, Clear(b, s));
  }

  /** Issue, check and clear agree with the map, and no slot on a probe path is ever skipped. */
  lemma {:induction false} RunsWithoutRevocationAreMapRuns<T>(
          b: Build<T>, s: seq<Slot<T>>, m: map<T, Region>, ops: seq<Op<T>>)
    requires |s| == HASH_TABLE_SIZE && Packed(b, s) && Holds(s, m)
    requires forall op :: op in ops ==> WellFormed(op) && !op.Withdraw?
    ensures RunTable(b, s, ops).1 == RunMap(b, m, ops).1
    ensures Holds(RunTable(b, s, ops).0, RunMap(b, m, ops).0) && Packed(b, RunTable(b, s, ops).0)
    decreases |ops|
  {
    if ops != [] {
      PackedStep(b, s, m, ops[0]);
      RunsWithoutRevocationAreMapRuns(b, TableStep(b, s, ops[0]).0, MapStep(b, m, ops[0]).0, ops[1..]);
    }
  }

  /** From an empty table: results equal the map's, and every token ever accepted and not cleared is
      still found with the region it was issued for. */
  lemma OpenAddressingIsAMap<T>(b: Build<T>, s: seq<Slot<T>>, ops: seq<Op<T>>, k: T)
    requires |s| == HASH_TABLE_SIZE && NoneValid(s)
    requires forall op :: op in ops ==> WellFormed(op) && !op.Withdraw?
    ensures var (s', outs) := RunTable(b, s, ops);
            var (m', outs') := RunMap(b, map[], ops);
            && outs == outs'
            && Unique(s') && Packed(b, s')
            && Lookup(b, s', k) == if k in m' then Some(m'[k]) else None
  {
    NoneValidHoldsNothing(b, s);
    RunsWithoutRevocationAreMapRuns(b, s, map[], ops);
    PackedLookup(b, RunTable(b, s, ops).0, RunMap(b, map[], ops).0, k);
  }

  /** Why an issue is refused, after any run without revocation: -2 exactly when some slot holds the
      token, -1 exactly when none does and every slot is taken; a refusal changes nothing. */
  lemma RefusalReasons<T>(b: Build<T>, s: seq<Slot<T>>, ops: seq<Op<T>>, k: T, region: Region)
    requires |s| == HASH_TABLE_SIZE && NoneValid(s)
    requires forall op :: op in ops ==> WellFormed(op) && !op.Withdraw?
    ensures var s' := RunTable(b, s, ops).0;
            var (s'', code) := Insert(b, s', k, region);
            && (code == -2 <==> !Absent(s', k))
            && (code == -1 <==> Absent(s', k) && forall i :: 0 <= i < |s'| ==> s'[i].valid)
            && (code != 0 ==> s'' == s')
  {
    NoneValidHoldsNothing(b, s);
    RunsWithoutRevocationAreMapRuns(b, s, map[], ops);
    var s' := RunTable(b, s, ops).0;
    IssueAgrees(b, s', RunMap(b, map[], ops).0, k, region);
    FullCount(s');
  }

  // ----- Revocation over any hash -----

  /** Every token is issued only while no valid slot holds it. */
  ghost predicate FreshRun<T>(b: Build<T>, s: seq<Slot<T>>, ops: seq<Op<T>>)
    requires |s| == HASH_TABLE_SIZE && forall op :: op in ops ==> WellFormed(op)
    decreases |ops|
  {
    ops != [] ==>
      && (ops[0].Issue? ==> Absent(s, ops[0].k))
      && FreshRun(b, TableStep(b, s, ops[0]).0, ops[1..])
  }

  lemma {:induction false} FreshRunsStayUnique<T>(b: Build<T>, s: seq<Slot<T>>, ops: seq<Op<T>>)
    requires |s| == HASH_TABLE_SIZE && Unique(s)
    requires (forall op :: op in ops ==> WellFormed(op)) && FreshRun(b, s, ops)
    ensures Unique(RunTable(b, s, ops).0)
    decreases |ops|
  {
    if ops != [] {
      FreshRunsStayUnique(b, TableStep(b, s, ops[0]).0, ops[1..]);
    }
  }

  /** A token in no valid slot stays in none, and is refused at every check, until it is issued. */
  lemma {:induction false} AbsentStaysRefused<T>(b: Build<T>, s: seq<Slot<T>>, k: T, ops: seq<Op<T>>)
    requires |s| == HASH_TABLE_SIZE && Absent(s, k) && k != b.global
    requires forall op :: op in ops ==> WellFormed(op) && !(op.Issue? && op.k == k)
    ensures Absent(RunTable(b, s, ops).0, k)
    ensures |RunTable(b, s, ops).1| == |ops|
    ensures forall i :: 0 <= i < |ops| && ops[i].Check? && ops[i].k == k ==> RunTable(b, s, ops).1[i] == Decision(false)
    decreases |ops|
  {
    if ops != [] {
      var rest := ops[1..];
      var (s1, out) := TableStep(b, s, ops[0]);
      AbsentStaysRefused(b, s1, k, rest);
      assert forall i :: 0 < i < |ops| ==> ops[i] == rest[i - 1];
    }
  }

  /** Over whole runs and any hash: once a fresh run from an empty table has successfully revoked k,
      k stays refused until it is reissued, whatever else is issued, revoked or cleared. */
  lemma RevokedStaysRefused<T>(b: Build<T>, s: seq<Slot<T>>, before: seq<Op<T>>, k: T, after: seq<Op<T>>)
    requires |s| == HASH_TABLE_SIZE && NoneValid(s) && k != b.global
    requires (forall op :: op in before ==> WellFormed(op)) && FreshRun(b, s, before)
    requires forall op :: op in after ==> WellFormed(op) && !(op.Issue? && op.k == k)
    requires Revoke(b, RunTable(b, s, before).0, k).1 == 0
    ensures var s' := Revoke(b, RunTable(b, s, before).0, k).0;
            var (s'', outs) := RunTable(b, s', after);
            && Absent(s'', k) && |outs| == |after|
            && forall i :: 0 <= i < |after| && after[i].Check? && after[i].k == k ==> outs[i] == Decision(false)
  {
    FreshRunsStayUnique(b, s, before);
    var s1 := RunTable(b, s, before).0;
    AbsentStaysRefused(b, Revoke(b, s1, k).0, k, after);
  }

  // ----- The 256-bit build -----

  /** shkey_t of the wide build: equality compares the id and every byte of the MAC. */
  datatype WideToken = WideToken(tokenId: nat, hmac: Bytes)

  /** The hash is SHA-256 cut down to an index; nothing about it is used. A clear resets only valid. */
  function Build256(hash: WideToken -> Index): Build<WideToken> {
    Build(hash, WideToken(0, seq(32, _ => 0)), false)
  }

  /** Why the wide build promises less after a revocation. Issue two tokens on an empty table and
      revoke the first: the second is lost to lookups exactly when the two homes coincide, and then
      the table takes it a second time although it still holds it. */
  lemma RevocationHidesCollidingToken(hash: WideToken -> Index, s: seq<Slot<WideToken>>, k1: WideToken, k2: WideToken,
                                      region: Region)
    requires |s| == HASH_TABLE_SIZE && NoneValid(s)
    requires k1 != k2 && k1 != Build256(hash).global && k2 != Build256(hash).global
    ensures var b := Build256(hash);
            var s2 := Insert(b, Insert(b, s, k1, region).0, k2, region).0;
            var s3 := Revoke(b, s2, k1).0;
            && Lookup(b, s2, k2) == Some(region)
            && (Lookup(b, s3, k2) == None <==> hash(k1) == hash(k2))
            && (Insert(b, s3, k2, region).1 == 0 <==> hash(k1) == hash(k2))
            && !Absent(s3, k2)
  {
    var b := Build256(hash);
    var h1, h2 := hash(k1), hash(k2);
    assert At(h1, 0) == h1 && At(h2, 0) == h2 && At(h1, 1) != h1;
    ProbeUnique(s, h1, k1, 0);
    var s1 := Insert(b, s, k1, region).0;
    var d := if h1 == h2 then 1 else 0;
    ProbeUnique(s1, h2, k2, d);
    InsertThenLookup(b, s1, k2, region);
    var s2 := Insert(b, s1, k2, region).0;
    ProbeUnique(s2, h1, k1, 0);
    var s3 := Revoke(b, s2, k1).0;
    assert s3[At(h2, d)].valid && s3[At(h2, d)].token == k2;
    ProbeUnique(s3, h2, k2, 0);
  }

  /** Its clear resets the flags and keeps what the slots hold; its reserved token is all zero. */
  lemma WideClearKeepsTokens(hash: WideToken -> Index, s: seq<Slot<WideToken>>, i: nat)
    requires i < |s|
    ensures |Clear(Build256(hash), s)| == |s|
    ensures Clear(Build256(hash), s)[i] == Slot(false, s[i].token, s[i].region)
    ensures var reserved := Build256(hash).global;
            && reserved.tokenId == 0 && |reserved.hmac| == 32
            && forall j :: 0 <= j < 32 ==> reserved.hmac[j] == 0
  {
  }

  // ----- The 16-bit build -----

  function Build16(): Build<FibonacciHash.Token16> {
    Build((k: FibonacciHash.Token16) => FibonacciHash.HashFunction(k), 0, true)
  }

  /** Its clear leaves zero slots, and token 0 is granted every access to whatever table. */
  lemma SixteenBitClearWipes(s: seq<Slot<FibonacciHash.Token16>>, offset: nat, size: nat)
    ensures Clear(Build16(), s) == seq(|s|, _ => Slot(false, 0, Region(0, 0, 0)))
    ensures |s| == HASH_TABLE_SIZE ==>
              Granted(Build16(), s, 0, offset, size, 1) && Granted(Build16(), s, 0, offset, size, 2)
  {
  }

  /** When every valid slot is a home, no probe moves: it stops where it starts. */
  lemma HomedProbe(s: seq<Slot<FibonacciHash.Token16>>, k: FibonacciHash.Token16)
    requires |s| == HASH_TABLE_SIZE && Homed(Build16(), s)
    ensures Probe(s, Build16().hash(k), k) == 0
  {
    var home := Build16().hash(k);
    if s[home].valid && s[home].token != k {
      FibonacciHash.DistinctTokensAreTenApart(s[home].token, k);
    }
    assert At(home, 0) == home;
    ProbeUnique(s, home, k, 0);
  }

  lemma HomedWithdraw(s: seq<Slot<FibonacciHash.Token16>>, m: map<FibonacciHash.Token16, Region>,
                      k: FibonacciHash.Token16)
    requires |s| == HASH_TABLE_SIZE && Homed(Build16(), s) && Holds(s, m)
    ensures var (s', out) := TableStep(Build16(), s, Withdraw(k));
            var (m', out') := MapStep(Build16(), m, Withdraw(k));
            out == out' && Holds(s', m')
  {
    hide FibonacciHash.HashFunction;
    HomedIsPacked(s);
    if k != Build16().global {
      WithdrawAgrees(Build16(), s, m, k);
    } else {
      HomedWithdrawGlobal(s, m);
    }
  }

  /** The reserved token's home slot holds nothing but the reserved token. */
  lemma HomedWithdrawGlobal(s: seq<Slot<FibonacciHash.Token16>>, m: map<FibonacciHash.Token16, Region>)
    requires |s| == HASH_TABLE_SIZE && Homed(Build16(), s) && Holds(s, m)
    ensures Holds(Revoke(Build16(), s, 0).0, m - {0})
  {
    hide FibonacciHash.HashFunction;
    var home := Build16().hash(0);
    if s[home].valid {
      HomedProbe(s, 0);
      assert At(home, 0) == home;
      HoleRemoves(s, m, home);
    } else {
      assert Absent(s, 0);
      UnboundStays(s, m, 0);
      assert s[home := s[home].(valid := false)] == s;
    }
  }

  lemma UnboundStays<T>(s: seq<Slot<T>>, m: map<T, Region>, k: T)
    requires Absent(s, k) && Holds(s, m)
    ensures m - {k} == m
  {
    assert k !in m;
  }

  lemma HomedStaysHomed(s: seq<Slot<FibonacciHash.Token16>>, op: Op<FibonacciHash.Token16>)
    requires |s| == HASH_TABLE_SIZE && WellFormed(op) && Homed(Build16(), s)
    ensures Homed(Build16(), TableStep(Build16(), s, op).0)
  {
    hide FibonacciHash.HashFunction;
    if op.Issue? {
      HomedProbe(s, op.k);
      assert At(Build16().hash(op.k), 0) == Build16().hash(op.k);
    }
  }

  lemma HomedStep(s: seq<Slot<FibonacciHash.Token16>>, m: map<FibonacciHash.Token16, Region>,
                  op: Op<FibonacciHash.Token16>)
    requires |s| == HASH_TABLE_SIZE && WellFormed(op) && Homed(Build16(), s) && Holds(s, m)
    ensures var (s', out) := TableStep(Build16(), s, op);
            var (m', out') := MapStep(Build16(), m, op);
            out == out' && Homed(Build16(), s') && Holds(s', m')
  {
    hide FibonacciHash.HashFunction;
    HomedStaysHomed(s, op);
    HomedIsPacked(s);
    if op.Withdraw? {
      HomedWithdraw(s, m, op.k);
    } else {
      PackedStep(Build16(), s, m, op);
    }
  }

  lemma HomedIsPacked(s: seq<Slot<FibonacciHash.Token16>>)
    requires |s| == HASH_TABLE_SIZE && Homed(Build16(), s)
    ensures Packed(Build16(), s)
  {
  }

  lemma {:induction false} HomedRun(s: seq<Slot<FibonacciHash.Token16>>, m: map<FibonacciHash.Token16, Region>,
                                    ops: seq<Op<FibonacciHash.Token16>>)
    requires |s| == HASH_TABLE_SIZE && Homed(Build16(), s) && Holds(s, m)
    requires forall op :: op in ops ==> WellFormed(op)
    ensures RunTable(Build16(), s, ops).1 == RunMap(Build16(), m, ops).1
    ensures Homed(Build16(), RunTable(Build16(), s, ops).0)
    ensures Holds(RunTable(Build16(), s, ops).0, RunMap(Build16(), m, ops).0)
    decreases |ops|
  {
    if ops != [] {
      HomedStep(s, m, ops[0]);
      HomedRun(TableStep(Build16(), s, ops[0]).0, MapStep(Build16(), m, ops[0]).0, ops[1..]);
    }
  }

  /** Homes occupy a thirty-second of the table, so a homed table is never near full. */
  lemma HomedHasRoom(s: seq<Slot<FibonacciHash.Token16>>)
    requires |s| == HASH_TABLE_SIZE && Homed(Build16(), s)
    ensures |ValidSlots(s)| <= FibonacciHash.HOMES
  {
    var homes := Indices(FibonacciHash.HOMES);
    forall i | i in ValidSlots(s)
      ensures i in homes
    {
      assert i == Build16().hash(s[i].token);
    }
    SubsetSize(ValidSlots(s), homes);
  }

  /** The 16-bit table is exactly a map over every run of issues, revocations, clears and checks:
      every code and every access decision agrees, each valid token sits in its home slot, no probe
      moves, and no token is ever refused for lack of space. */
  lemma SixteenBitTableIsAMap(s: seq<Slot<FibonacciHash.Token16>>, ops: seq<Op<FibonacciHash.Token16>>,
                              k: FibonacciHash.Token16)
    requires |s| == HASH_TABLE_SIZE && NoneValid(s) && forall op :: op in ops ==> WellFormed(op)
    ensures var (s', outs) := RunTable(Build16(), s, ops);
            var (m', outs') := RunMap(Build16(), map[], ops);
            && outs == outs'
            && Homed(Build16(), s') && Holds(s', m')
            && Probe(s', Build16().hash(k), k) == 0
            && (Absent(s', k) ==> forall region :: Insert(Build16(), s', k, region).1 == 0)
  {
    NoneValidHoldsNothing(Build16(), s);
    HomedRun(s, map[], ops);
    HomedProbe(RunTable(Build16(), s, ops).0, k);
  }
}
