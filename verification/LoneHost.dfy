/** The step machine of several hosts, run by one host alone, is the sequential store: on chains of any
    length a lone get, del or insert ends in what the operation answers and leaves. */
module LoneHost {
  import opened Memory
  import opened Layout
  import opened Chains
  import opened UnprotectedStore
  import opened Publication

  /** The memory and the host after n calls of its own, stopping short of an unmapped address. */
  function HostAlone(m: Bytes, vs: nat, host: Host, n: nat): (r: (Bytes, Host))
    ensures |r.0| == |m|
    decreases n
  {
    if n == 0 then (m, host)
    else
      var (m', host') := HostAlone(m, vs, host, n - 1);
      if Mappable(m', vs, host') then HostStep(m', vs, host') else (m', host')
  }

  lemma HostOnce(m: Bytes, vs: nat, host: Host, n: nat)
    ensures var (m', host') := HostAlone(m, vs, host, n);
            Mappable(m', vs, host') ==> HostAlone(m, vs, host, n + 1) == HostStep(m', vs, host')
  {
  }

  /** An insert's four calls, whenever a lone host comes to make one: key, value, next word, head word. */
  lemma LoneInsertPublishes(m0: Bytes, vs: nat, host0: Host, n: nat, pair: Pair)
    requires var (m, host) := HostAlone(m0, vs, host0, n);
             && host.task == WriteKey(pair) && WellFormedPair(pair, vs)
             && Fits(m, vs, host.next) && Bucket(pair.key) + 8 <= |m|
    ensures var (m, host) := HostAlone(m0, vs, host0, n);
            && HostAlone(m0, vs, host0, n + 1).0 == Write(m, host.next, pair.key)
            && HostAlone(m0, vs, host0, n + 2).0 == Write(Write(m, host.next, pair.key), host.next + 64, pair.value)
            && HostAlone(m0, vs, host0, n + 3).0 == WriteEntry(m, vs, host.next, pair)
            && HostAlone(m0, vs, host0, n + 4)
               == (Publish(m, vs, host.next, pair), host.(next := host.next + 72 + vs, task := Idle))
  {
    hide HostAlone, HostStep, Mappable, Write, PutWord, Bucket;
    var (m, host) := HostAlone(m0, vs, host0, n);
    var m1 := Write(m, host.next, pair.key);
    var m2 := Write(m1, host.next + KEY_SIZE, pair.value);
    var m3 := PutWord(m2, host.next + KEY_SIZE + vs, 0);
    InsertCalls(m, m1, m2, m3, vs, host, pair);
    HostOnce(m0, vs, host0, n);
    HostOnce(m0, vs, host0, n + 1);
    HostOnce(m0, vs, host0, n + 2);
    HostOnce(m0, vs, host0, n + 3);
  }

  lemma InsertCalls(m: Bytes, m1: Bytes, m2: Bytes, m3: Bytes, vs: nat, host: Host, pair: Pair)
    requires host.task == WriteKey(pair) && WellFormedPair(pair, vs) && |m| == |m1| == |m2| == |m3|
    requires Fits(m, vs, host.next) && Bucket(pair.key) + 8 <= |m|
    ensures Mappable(m, vs, host)
            && HostStep(m, vs, host) == (Write(m, host.next, pair.key), host.(task := WriteValue(pair)))
    ensures var h1 := host.(task := WriteValue(pair));
            Mappable(m1, vs, h1)
            && HostStep(m1, vs, h1)
               == (Write(m1, host.next + KEY_SIZE, pair.value), host.(task := WriteNext(pair)))
    ensures var h2 := host.(task := WriteNext(pair));
            Mappable(m2, vs, h2)
            && HostStep(m2, vs, h2)
               == (PutWord(m2, host.next + KEY_SIZE + vs, 0), host.(task := WriteHead(pair)))
    ensures var h3 := host.(task := WriteHead(pair));
            Mappable(m3, vs, h3)
            && HostStep(m3, vs, h3)
               == (PutWord(m3, Bucket(pair.key), host.next), host.(next := host.next + 72 + vs, task := Idle))
  {
    hide Write, PutWord, Bucket;
  }

  lemma HostNone(m: Bytes, vs: nat, host: Host)
    ensures HostAlone(m, vs, host, 0) == (m, host)
  {
  }

  /** Where a lone get stands before its i-th entry. */
  function GetAt(chain: seq<nat>, key: Bytes, i: nat): Task
    requires i <= |chain|
  {
    if i < |chain| then GetCompare(key, chain[i]) else GetDone(key, false, [])
  }

  lemma {:induction false} LoneGetFrom(m: Bytes, vs: nat, host: Host, head: nat, chain: seq<nat>, key: Bytes,
                                       start: nat, i: nat) returns (n: nat)
    requires Chain(m, vs, head, chain) && i <= |chain| && i <= Find(Pairs(m, vs, chain), key, 0)
    requires HostAlone(m, vs, host, start) == (m, host.(task := GetAt(chain, key, i)))
    ensures var (found, value) := GetPair(m, vs, chain, key, []);
            HostAlone(m, vs, host, n) == (m, host.(task := GetDone(key, found, value)))
    decreases |chain| - i
  {
    hide HostAlone, Find, Pairs, KeyAt, WordAt;
    n := start;
    WalkStep(m, vs, head, chain, key, i);
    if i < |chain| {
      KeyIsRead(m, vs, chain[i]);
      HostOnce(m, vs, host, start);
      HostOnce(m, vs, host, start + 1);
      n := start + 2;
      if i != Find(Pairs(m, vs, chain), key, 0) {
        assert NextAt(m, vs, chain[i]) == Link(chain, i + 1);
        n := LoneGetFrom(m, vs, host, head, chain, key, start + 2, i + 1);
      }
    }
  }

  lemma KeyIsRead(m: Bytes, vs: nat, entry: nat)
    requires Fits(m, vs, entry)
    ensures KeyAt(m, vs, entry) == Read(m, entry, KEY_SIZE)
  {
  }

  /** A lone get answers for the first pair of the chain that has its key. */
  lemma LoneGetReads(m: Bytes, vs: nat, host: Host, chain: seq<nat>, key: Bytes) returns (n: nat)
    requires |key| == KEY_SIZE && host.task == GetHead(key) && Chain(m, vs, Bucket(key), chain)
    ensures var (found, value) := GetPair(m, vs, chain, key, []);
            HostAlone(m, vs, host, n) == (m, host.(task := GetDone(key, found, value)))
  {
    hide HostAlone, Find, Pairs, WordAt, Bucket, Chain;
    WalkStart(m, vs, Bucket(key), chain);
    HostNone(m, vs, host);
    HostOnce(m, vs, host, 0);
    assert |chain| > 0 ==> chain[0] != 0;
    n := LoneGetFrom(m, vs, host, Bucket(key), chain, key, 1, 0);
  }

  function DelAt(vs: nat, head: nat, chain: seq<nat>, key: Bytes, i: nat): Task
    requires i <= |chain|
  {
    if i < |chain| then DelCompare(key, chain[i], LinkOffset(vs, head, chain, i)) else DelDone(key, false)
  }

  /** The calls of a del at one entry. */
  lemma DelTries(m: Bytes, vs: nat, host: Host, start: nat, key: Bytes, e: nat, link: nat)
    requires HostAlone(m, vs, host, start) == (m, host.(task := DelCompare(key, e, link)))
    requires Fits(m, vs, e) && link + 8 <= |m|
    ensures KeyAt(m, vs, e) == key ==>
              HostAlone(m, vs, host, start + 3)
              == (PutWord(m, link, NextAt(m, vs, e)), host.(task := DelDone(key, true)))
    ensures KeyAt(m, vs, e) != key ==>
              var n := NextAt(m, vs, e);
              HostAlone(m, vs, host, start + 2)
              == (m, host.(task := if n == 0 then DelDone(key, false) else DelCompare(key, n, e + KEY_SIZE + vs)))
  {
    hide HostAlone, KeyAt, NextAt, PutWord;
    HostOnce(m, vs, host, start);
    HostOnce(m, vs, host, start + 1);
    HostOnce(m, vs, host, start + 2);
  }

  lemma {:induction false} LoneDeleteFrom(m: Bytes, vs: nat, host: Host, head: nat, chain: seq<nat>, key: Bytes,
                                          start: nat, i: nat) returns (n: nat)
    requires Chain(m, vs, head, chain) && i <= |chain| && i <= Find(Pairs(m, vs, chain), key, 0)
    requires HostAlone(m, vs, host, start) == (m, host.(task := DelAt(vs, head, chain, key, i)))
    ensures var (m', found) := DeletePair(m, vs, head, chain, key);
            HostAlone(m, vs, host, n) == (m', host.(task := DelDone(key, found)))
    decreases |chain| - i
  {
    hide HostAlone, HostStep, Mappable, Find, Pairs, KeyAt, WordAt, PutWord;
    n := start;
    WalkStep(m, vs, head, chain, key, i);
    if i < |chain| {
      KeyIsRead(m, vs, chain[i]);
      LinkIsWord(m, vs, head, chain, i);
      DelTries(m, vs, host, start, key, chain[i], LinkOffset(vs, head, chain, i));
      if i == Find(Pairs(m, vs, chain), key, 0) {
        n := start + 3;
      } else {
        assert NextAt(m, vs, chain[i]) == Link(chain, i + 1);
        n := LoneDeleteFrom(m, vs, host, head, chain, key, start + 2, i + 1);
      }
    }
  }

  /** A lone del redirects the link before the first such pair to whatever followed it. */
  lemma LoneDeleteRemoves(m: Bytes, vs: nat, host: Host, chain: seq<nat>, key: Bytes) returns (n: nat)
    requires |key| == KEY_SIZE && host.task == DelHead(key) && Chain(m, vs, Bucket(key), chain)
    ensures var (m', found) := DeletePair(m, vs, Bucket(key), chain, key);
            HostAlone(m, vs, host, n) == (m', host.(task := DelDone(key, found)))
  {
    hide HostAlone, Find, Pairs, WordAt, Bucket, Chain, DeletePair;
    WalkStart(m, vs, Bucket(key), chain);
    HostNone(m, vs, host);
    HostOnce(m, vs, host, 0);
    assert |chain| > 0 ==> chain[0] != 0;
    n := LoneDeleteFrom(m, vs, host, Bucket(key), chain, key, 1, 0);
  }

  /** A host that is not in the middle of an operation can begin any, with a 64-byte key whose index table
      no host partition covers; an insert needs room in the host's own partition. */
  lemma CallsBegin(st: System, vs: nat, h: nat, pair: Pair)
    requires h < |st.hosts| && |pair.key| == 64 && |pair.value| == vs
    requires st.hosts[h].task.Idle? || st.hosts[h].task.GetDone? || st.hosts[h].task.DelDone?
    requires forall g :: 0 <= g < |st.hosts| ==> st.hosts[g].id >= 1 || pair.key[7] < 64
    ensures Apply(st, vs, BeginGet(h, pair.key)) == st.(hosts := st.hosts[h := st.hosts[h].(task := GetHead(pair.key))])
    ensures Apply(st, vs, BeginDelete(h, pair.key))
         == st.(hosts := st.hosts[h := st.hosts[h].(task := DelHead(pair.key))])
    ensures var host := st.hosts[h];
            Apply(st, vs, BeginInsert(h, pair))
            == if host.next + 72 + vs <= 0x800_0000 + 0x4000_0000 * (host.id + 1)
               then st.(hosts := st.hosts[h := host.(task := WriteKey(pair))]) else st
  {
    KeyWordBytes(pair.key);
  }
}
