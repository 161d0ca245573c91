/** The unprotected store: hash index, bucket chains and per-host bump allocator over a byte array. */
module UnprotectedStore {
  import opened Memory
  import opened Layout
  import opened Chains

  /** What the operations of one host act on. */
  datatype Store = Store(mem: Bytes, next: nat)

  predicate WellFormedPair(pair: Pair, vs: nat) {
    |pair.key| == KEY_SIZE && |pair.value| == vs
  }

  /** The memory reaches at least to the end of the host's partition (hence past the index tables),
      and addresses fit in 64 bits. */
  predicate Mapped(length: nat, host: nat) {
    host < 256 && PartitionEnd(host) <= length < U64
  }

  lemma BucketMapped(key: Bytes, length: nat, host: nat)
    requires |key| == KEY_SIZE && Mapped(length, host)
    ensures Bucket(key) + 8 <= length
  {
    BucketInTable(key);
  }

  /** Lay out an entry at a given offset and make the bucket's head word point to it. */
  function Publish(m: Bytes, vs: nat, entry: nat, pair: Pair): (r: Bytes)
    requires WellFormedPair(pair, vs) && Fits(m, vs, entry) && Bucket(pair.key) + 8 <= |m|
    ensures |r| == |m|
  {
    PutWord(WriteEntry(m, vs, entry, pair), Bucket(pair.key), entry)
  }

  function InsertPair(st: Store, host: nat, vs: nat, pair: Pair): (r: (Store, bool))
    requires WellFormedPair(pair, vs) && Mapped(|st.mem|, host)
    ensures |r.0.mem| == |st.mem|
  {
    BucketMapped(pair.key, |st.mem|, host);
    if st.next + EntrySize(vs) > PartitionEnd(host) then (st, false)
    else (Store(Publish(st.mem, vs, st.next, pair), st.next + EntrySize(vs)), true)
  }

  ghost function GetPair(m: Bytes, vs: nat, chain: seq<nat>, key: Bytes, buffer: Bytes): (bool, Bytes)
    requires AllFit(m, vs, chain)
  {
    var i := Find(Pairs(m, vs, chain), key, 0);
    if i < |chain| then (true, ValueAt(m, vs, chain[i])) else (false, buffer)
  }

  ghost function UpdatePair(m: Bytes, vs: nat, chain: seq<nat>, pair: Pair): (r: (Bytes, bool))
    requires AllFit(m, vs, chain) && WellFormedPair(pair, vs)
    ensures |r.0| == |m|
  {
    var i := Find(Pairs(m, vs, chain), pair.key, 0);
    if i < |chain| then (Write(m, chain[i] + KEY_SIZE, pair.value), true) else (m, false)
  }

  ghost function DeletePair(m: Bytes, vs: nat, head: nat, chain: seq<nat>, key: Bytes): (r: (Bytes, bool))
    requires Chain(m, vs, head, chain)
    ensures |r.0| == |m|
  {
    var i := Find(Pairs(m, vs, chain), key, 0);
    if i < |chain| then (PutWord(m, LinkOffset(vs, head, chain, i), NextAt(m, vs, chain[i])), true) else (m, false)
  }

  /** put walks the chain with its own hard-coded value size and inserts on a miss. */
  ghost function PutPair(st: Store, host: nat, chain: seq<nat>, pair: Pair): (r: (Store, bool))
    requires WellFormedPair(pair, PUT_VALUE_SIZE) && Mapped(|st.mem|, host)
    requires AllFit(st.mem, PUT_VALUE_SIZE, chain)
    ensures |r.0.mem| == |st.mem|
  {
    var (mem', found) := UpdatePair(st.mem, PUT_VALUE_SIZE, chain, pair);
    if found then (Store(mem', st.next), true) else InsertPair(st, host, PUT_VALUE_SIZE, pair)
  }

  /** One step of any chain walk: the entry reached is the wanted one exactly when its key compares
      equal, and otherwise its next word leads on. */
  lemma WalkStep(m: Bytes, vs: nat, head: nat, chain: seq<nat>, key: Bytes, i: nat)
    requires Chain(m, vs, head, chain) && i <= Find(Pairs(m, vs, chain), key, 0) && i <= |chain|
    ensures i < |chain| ==>
              && chain[i] != 0 && chain[i] + EntrySize(vs) <= |m|
              && (Read(m, chain[i], KEY_SIZE) == key <==> i == Find(Pairs(m, vs, chain), key, 0))
              && WordAt(m, chain[i] + KEY_SIZE + vs) == Link(chain, i + 1)
    ensures i == |chain| ==> i == Find(Pairs(m, vs, chain), key, 0)
    ensures LinkOffset(vs, head, chain, i) + 8 <= |m|
  {
    hide Read, WordAt;
    LinkIsWord(m, vs, head, chain, i);
    if i < |chain| {
      assert Pairs(m, vs, chain)[i].key == KeyAt(m, vs, chain[i]);
      assert NextAt(m, vs, chain[i]) == Link(chain, i + 1);
    }
  }

  /** Where every walk starts. */
  lemma WalkStart(m: Bytes, vs: nat, head: nat, chain: seq<nat>)
    requires Chain(m, vs, head, chain)
    ensures head + 8 <= |m| && AllFit(m, vs, chain)
    ensures WordAt(m, head) == Link(chain, 0)
  {
  }

  // ----- What the operations do to a chain of any length -----

  /** get answers with the value of the first pair that has the key, and fails exactly when none has. */
  lemma GetReadsFirstMatch(m: Bytes, vs: nat, head: nat, chain: seq<nat>, key: Bytes, buffer: Bytes)
    requires Chain(m, vs, head, chain)
    ensures var ps := Pairs(m, vs, chain);
            var (found, value) := GetPair(m, vs, chain, key, buffer);
            && (found <==> exists i :: 0 <= i < |ps| && ps[i].key == key)
            && (found ==> exists i :: 0 <= i < |ps| && ps[i] == Pair(key, value)
                                      && forall j :: 0 <= j < i ==> ps[j].key != key)
            && (!found ==> value == buffer)
  {
    var i := Find(Pairs(m, vs, chain), key, 0);
    if i < |chain| {
      assert Pairs(m, vs, chain)[i] == Pair(key, ValueAt(m, vs, chain[i]));
    }
  }

  /** update rewrites the value of the first match, in place, and nothing else. */
  lemma UpdateReplacesFirstMatch(m: Bytes, vs: nat, head: nat, chain: seq<nat>, pair: Pair)
    requires Chain(m, vs, head, chain) && Separate(vs, head, chain) && WellFormedPair(pair, vs)
    ensures var ps := Pairs(m, vs, chain);
            var i := Find(ps, pair.key, 0);
            var (m', found) := UpdatePair(m, vs, chain, pair);
            && Chain(m', vs, head, chain)
            && Pairs(m', vs, chain) == (if found then ps[i := pair] else ps)
            && forall a :: 0 <= a < |m| && m'[a] != m[a] ==>
                 i < |chain| && chain[i] + KEY_SIZE <= a < chain[i] + KEY_SIZE + vs
  {
    var i := Find(Pairs(m, vs, chain), pair.key, 0);
    if i < |chain| {
      UpdateInPlace(m, vs, head, chain, i, pair.value);
    }
  }

  /** del removes exactly the first match and keeps the others, in order, and all other bytes. */
  lemma DeleteRemovesFirstMatch(m: Bytes, vs: nat, head: nat, chain: seq<nat>, key: Bytes)
    requires Chain(m, vs, head, chain) && Separate(vs, head, chain)
    ensures var ps := Pairs(m, vs, chain);
            var i := Find(ps, key, 0);
            var (m', found) := DeletePair(m, vs, head, chain, key);
            && (found <==> i < |chain|)
            && (found ==>
                  && Chain(m', vs, head, Splice(chain, i, i + 1))
                  && Pairs(m', vs, Splice(chain, i, i + 1)) == Splice(ps, i, i + 1))
            && (!found ==> m' == m)
            && forall a :: 0 <= a < |m| && m'[a] != m[a] ==>
                 LinkOffset(vs, head, chain, i) <= a < LinkOffset(vs, head, chain, i) + 8
  {
    hide Read, Write, Decode, Encode, WordAt, PutWord, Find, Pairs;
    var i := Find(Pairs(m, vs, chain), key, 0);
    if i < |chain| {
      assert NextAt(m, vs, chain[i]) == Link(chain, i + 1);
      Relink(m, vs, head, chain, i, i + 1);
    }
  }

  /** insert, and put on a miss: whatever chain the bucket had, afterwards it has the new entry alone, at
      the address where the allocator stood; a full partition refuses it and nothing changes. */
  lemma InsertLeavesOneEntry(st: Store, host: nat, vs: nat, pair: Pair)
    requires WellFormedPair(pair, vs) && Mapped(|st.mem|, host) && PartitionStart(host) <= st.next
    requires Bucket(pair.key) + 8 <= PartitionStart(host)
    ensures var (st', ok) := InsertPair(st, host, vs, pair);
            && (ok <==> st.next + 72 + vs <= 0x800_0000 + 0x4000_0000 * (host + 1))
            && (!ok ==> st' == st)
            && (ok ==>
                  && st'.next == st.next + 72 + vs
                  && Chain(st'.mem, vs, Bucket(pair.key), [st.next])
                  && Pairs(st'.mem, vs, [st.next]) == [pair]
                  && forall a :: 0 <= a < |st.mem| && st'.mem[a] != st.mem[a] ==>
                       st.next <= a < st.next + 72 + vs || Bucket(pair.key) <= a < Bucket(pair.key) + 8)
  {
    hide Bucket, Read, Write, Encode, Decode;
    var head := Bucket(pair.key);
    if st.next + EntrySize(vs) <= PartitionEnd(host) {
      var m1 := WriteEntry(st.mem, vs, st.next, pair);
      var m := Publish(st.mem, vs, st.next, pair);
      EntryWritten(st.mem, vs, st.next, pair);
      EntrySame(m1, m, vs, st.next);
      assert Pairs(m, vs, [st.next]) == [pair];
    }
  }

  // ----- The batch allocator -----

  datatype Allocator = Allocator(next: nat, available: nat)

  /** Where the next batched insert goes and how it moves the allocator. */
  function BatchStep(al: Allocator, batch: nat, kvSize: nat): (r: (nat, Allocator))
    requires 1 <= batch && al.available <= batch
    ensures r.1.available <= batch
  {
    if al.available == 0 then (al.next, Allocator(al.next + kvSize * batch, batch - 1))
    else (al.next + (batch - al.available) * kvSize, al.(available := al.available - 1))
  }

  // ----- The store object -----

  /** The bytes agree up to one where they differ by this. */
  ghost predicate DiffersBy(m: Bytes, offset: nat, buf: Bytes, result: int) {
    exists j :: 0 <= j < |buf| && offset + j < |m| && m[offset..offset + j] == buf[..j]
                && result == m[offset + j] as int - buf[j] as int
  }

  class GshmUpr {
    const mem: array<byte>
    const hostId: nat
    const valueSize: nat
    const useBatch: bool
    const kvSize: nat
    const batchKvs: nat
    var nextFreeOffset: nat
    var availableSlots: nat

    ghost predicate Valid()
      reads this
    {
      Mapped(mem.Length, hostId) && PartitionStart(hostId) <= nextFreeOffset && 1 <= batchKvs
          && availableSlots <= batchKvs
    }

    ghost function State(): Store
      reads this, mem
    {
      Store(mem[..], nextFreeOffset)
    }

    constructor (mem: array<byte>, hostId: nat, valueSize: nat, useBatch: bool, kvSize: nat, batchKvs: nat)
      requires Mapped(mem.Length, hostId) && 1 <= batchKvs
      ensures Valid() && this.mem == mem && this.hostId == hostId && this.valueSize == valueSize
      ensures this.useBatch == useBatch && this.kvSize == kvSize && this.batchKvs == batchKvs
      ensures nextFreeOffset == PartitionStart(hostId) && availableSlots == batchKvs
    {
      this.mem, this.hostId, this.valueSize := mem, hostId, valueSize;
      this.useBatch, this.kvSize, this.batchKvs := useBatch, kvSize, batchKvs;
      nextFreeOffset := PartitionStart(hostId);
      availableSlots := batchKvs;
    }

    /** The bytes copied out; the destination buffer of the caller is a value here. */
    method ReadCxl(offset: nat, size: nat) returns (code: int, buf: Bytes)
      requires offset + size <= mem.Length
      ensures code == 0 && buf == Read(mem[..], offset, size)
    {
      buf := [];
      while |buf| < size
        invariant |buf| <= size && buf == mem[offset..offset + |buf|]
      {
        buf := buf + [mem[offset + |buf|]];
      }
      code := 0;
    }

    method WriteCxl(offset: nat, buf: Bytes) returns (code: int)
      requires offset + |buf| <= mem.Length
      modifies mem
      ensures code == 0
      ensures mem[..] == Write(old(mem[..]), offset, buf)
    {
      var i := 0;
      while i < |buf|
        invariant i <= |buf|
        invariant forall j :: 0 <= j < i ==> mem[offset + j] == buf[j]
        invariant forall a :: 0 <= a < mem.Length && !(offset <= a < offset + i) ==> mem[a] == old(mem[a])
      {
        mem[offset + i] := buf[i];
        i := i + 1;
      }
      code := 0;
    }

    /** safe_memcmp: the difference at the first mismatch, or 0. */
    method CompareCxl(offset: nat, buf: Bytes) returns (result: int)
      requires offset + |buf| <= mem.Length
      ensures result == 0 <==> Read(mem[..], offset, |buf|) == buf
      ensures result != 0 ==> DiffersBy(mem[..], offset, buf, result)
    {
      var i := 0;
      while i < |buf|
        invariant i <= |buf|
        invariant forall j :: 0 <= j < i ==> mem[offset + j] == buf[j]
      {
        if mem[offset + i] != buf[i] {
          assert Read(mem[..], offset, |buf|)[i] != buf[i];
          assert mem[..][offset..offset + i] == buf[..i];
          return mem[offset + i] as int - buf[i] as int;
        }
        i := i + 1;
      }
      result := 0;
    }

    /** A read of eight bytes into a local 64-bit variable. */
    method ReadWord(offset: nat) returns (word: nat)
      requires offset + 8 <= mem.Length
      ensures word == WordAt(mem[..], offset)
    {
      var _, buf := ReadCxl(offset, 8);
      word := Decode(buf);
    }

    method WriteWord(offset: nat, word: nat)
      requires offset + 8 <= mem.Length
      modifies mem
      ensures mem[..] == PutWord(old(mem[..]), offset, word)
    {
      var _ := WriteCxl(offset, Encode(word, 8));
    }

    method Get(key: Bytes, buffer: Bytes, ghost chain: seq<nat>) returns (found: bool, value: Bytes)
      requires Valid() && |key| == KEY_SIZE
      requires Chain(mem[..], valueSize, Bucket(key), chain)
      ensures (found, value) == GetPair(mem[..], valueSize, chain, key, buffer)
    {
      hide DiffersBy, Read, Write, WordAt, PutWord, Decode, Encode, Bucket, Find, Chain, AllFit, Pairs, PairAt;
      WalkStart(mem[..], valueSize, Bucket(key), chain);
      var entry := ReadWord(Bucket(key));
      ghost var i := 0;
      ghost var m := mem[..];
      while entry != 0
        invariant i <= |chain| && entry == Link(chain, i)
        invariant i <= Find(Pairs(m, valueSize, chain), key, 0)
        decreases |chain| - i
      {
        WalkStep(m, valueSize, Bucket(key), chain, key, i);
        var c := CompareCxl(entry, key);
        if c == 0 {
          var _, v := ReadCxl(entry + KEY_SIZE, valueSize);
          return true, v;
        }
        entry := ReadWord(entry + KEY_SIZE + valueSize);
        i := i + 1;
      }
      return false, buffer;
    }

    method Update(pair: Pair, ghost chain: seq<nat>) returns (found: bool)
      requires Valid() && WellFormedPair(pair, valueSize)
      requires Chain(mem[..], valueSize, Bucket(pair.key), chain)
      modifies mem
      ensures (mem[..], found) == UpdatePair(old(mem[..]), valueSize, chain, pair)
    {
      hide DiffersBy, Read, Write, WordAt, PutWord, Decode, Encode, Bucket, Find, Chain, AllFit, Pairs, PairAt;
      WalkStart(mem[..], valueSize, Bucket(pair.key), chain);
      var entry := ReadWord(Bucket(pair.key));
      ghost var i := 0;
      ghost var m := mem[..];
      while entry != 0
        invariant i <= |chain| && entry == Link(chain, i)
        invariant i <= Find(Pairs(m, valueSize, chain), pair.key, 0)
        invariant mem[..] == m
        decreases |chain| - i
      {
        WalkStep(m, valueSize, Bucket(pair.key), chain, pair.key, i);
        var c := CompareCxl(entry, pair.key);
        if c == 0 {
          var _ := WriteCxl(entry + KEY_SIZE, pair.value);
          return true;
        }
        entry := ReadWord(entry + KEY_SIZE + valueSize);
        i := i + 1;
      }
      found := false;
    }

    /** The writes shared by both branches of insert and by put: key, value, zero next, head word. */
    method WriteAndPublish(offset: nat, vs: nat, pair: Pair)
      requires Valid() && WellFormedPair(pair, vs) && offset + EntrySize(vs) <= mem.Length
      modifies mem
      ensures Bucket(pair.key) + 8 <= mem.Length
      ensures mem[..] == Publish(old(mem[..]), vs, offset, pair)
    {
      hide Read, Write, WordAt, PutWord, Bucket;
      BucketMapped(pair.key, mem.Length, hostId);
      var _ := WriteCxl(offset, pair.key);
      var _ := WriteCxl(offset + KEY_SIZE, pair.value);
      WriteWord(offset + KEY_SIZE + vs, 0);
      WriteWord(Bucket(pair.key), offset);
    }

    /** The non-batched tail of insert and put: refuse past the partition end, else append and advance. */
    method Append(vs: nat, pair: Pair) returns (ok: bool)
      requires Valid() && WellFormedPair(pair, vs)
      modifies this, mem
      ensures Valid() && availableSlots == old(availableSlots)
      ensures (State(), ok) == InsertPair(old(State()), hostId, vs, pair)
    {
      hide Read, Write, Decode, Encode;
      if nextFreeOffset + EntrySize(vs) > PartitionEnd(hostId) {
        return false;
      }
      WriteAndPublish(nextFreeOffset, vs, pair);
      nextFreeOffset := nextFreeOffset + EntrySize(vs);
      ok := true;
    }

    method Insert(pair: Pair) returns (ok: bool)
      requires Valid() && WellFormedPair(pair, valueSize)
      requires useBatch ==>
                 var (offset, _) := BatchStep(Allocator(nextFreeOffset, availableSlots), batchKvs, kvSize);
                 offset + EntrySize(valueSize) <= mem.Length
      modifies this, mem
      ensures Valid()
      ensures !useBatch ==>
                && (State(), ok) == InsertPair(old(State()), hostId, valueSize, pair)
                && availableSlots == old(availableSlots)
      ensures useBatch ==>
                var (offset, al) := BatchStep(old(Allocator(nextFreeOffset, availableSlots)), batchKvs, kvSize);
                && ok && Allocator(nextFreeOffset, availableSlots) == al
                && Bucket(pair.key) + 8 <= mem.Length
                && mem[..] == Publish(old(mem[..]), valueSize, offset, pair)
    {
      hide Read, Write, Decode, Encode, WriteEntry;
      if useBatch {
        if availableSlots == 0 {
          availableSlots := batchKvs - 1;
          var startOffset := nextFreeOffset;
          nextFreeOffset := nextFreeOffset + kvSize * batchKvs;
          WriteAndPublish(startOffset, valueSize, pair);
        } else {
          var startOffset := nextFreeOffset + (batchKvs - availableSlots) * kvSize;
          availableSlots := availableSlots - 1;
          WriteAndPublish(startOffset, valueSize, pair);
        }
        return true;
      }
      ok := Append(valueSize, pair);
    }

    method Put(pair: Pair, ghost chain: seq<nat>) returns (ok: bool)
      requires Valid() && WellFormedPair(pair, PUT_VALUE_SIZE)
      requires Chain(mem[..], PUT_VALUE_SIZE, Bucket(pair.key), chain)
      modifies this, mem
      ensures Valid() && availableSlots == old(availableSlots)
      ensures (State(), ok) == PutPair(old(State()), hostId, chain, pair)
    {
      hide DiffersBy, Read, Write, WordAt, PutWord, Decode, Encode, Bucket, Find, Chain, AllFit, Pairs, PairAt,
           InsertPair;
      WalkStart(mem[..], PUT_VALUE_SIZE, Bucket(pair.key), chain);
      var entry := ReadWord(Bucket(pair.key));
      ghost var i := 0;
      ghost var m := mem[..];
      while entry != 0
        invariant i <= |chain| && entry == Link(chain, i)
        invariant i <= Find(Pairs(m, PUT_VALUE_SIZE, chain), pair.key, 0)
        invariant mem[..] == m && nextFreeOffset == old(nextFreeOffset) && availableSlots == old(availableSlots)
        decreases |chain| - i
      {
        WalkStep(m, PUT_VALUE_SIZE, Bucket(pair.key), chain, pair.key, i);
        var c := CompareCxl(entry, pair.key);
        if c == 0 {
          var _ := WriteCxl(entry + KEY_SIZE, pair.value);
          return true;
        }
        entry := ReadWord(entry + KEY_SIZE + PUT_VALUE_SIZE);
        i := i + 1;
      }
      ok := Append(PUT_VALUE_SIZE, pair);
    }

    method Del(key: Bytes, ghost chain: seq<nat>) returns (found: bool)
      requires Valid() && |key| == KEY_SIZE
      requires Chain(mem[..], valueSize, Bucket(key), chain)
      modifies mem
      ensures (mem[..], found) == DeletePair(old(mem[..]), valueSize, Bucket(key), chain, key)
    {
      hide DiffersBy, Read, Write, WordAt, PutWord, Decode, Encode, Bucket, Find, Chain, AllFit, Pairs, PairAt;
      WalkStart(mem[..], valueSize, Bucket(key), chain);
      var entry := ReadWord(Bucket(key));
      var prevNextOffset := Bucket(key);
      ghost var i := 0;
      ghost var m := mem[..];
      while entry != 0
        invariant i <= |chain| && entry == Link(chain, i)
                  && prevNextOffset == LinkOffset(valueSize, Bucket(key), chain, i)
        invariant i <= Find(Pairs(m, valueSize, chain), key, 0)
        invariant mem[..] == m
        decreases |chain| - i
      {
        WalkStep(m, valueSize, Bucket(key), chain, key, i);
        var c := CompareCxl(entry, key);
        if c == 0 {
          var nextEntry := ReadWord(entry + KEY_SIZE + valueSize);
          WriteWord(prevNextOffset, nextEntry);
          return true;
        }
        prevNextOffset := entry + KEY_SIZE + valueSize;
        entry := ReadWord(entry + KEY_SIZE + valueSize);
        i := i + 1;
      }
      found := false;
    }
  }
}
