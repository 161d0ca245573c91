/** Bucket chains in byte memory: entries laid out as key, value, next word, linked from a head word.

    A chain is read off as a list of pairs. Looking up, updating in place and unlinking are then the
    list operations "first pair with this key", "replace one value" and "drop one pair", for chains
    of any length. */
module Chains {
  import opened Memory
  import opened Layout

  datatype Pair = Pair(key: Bytes, value: Bytes)

  predicate Fits(m: Bytes, vs: nat, entry: nat) {
    entry + EntrySize(vs) <= |m|
  }

  function KeyAt(m: Bytes, vs: nat, entry: nat): Bytes
    requires Fits(m, vs, entry)
  {
    Read(m, entry, KEY_SIZE)
  }

  function ValueAt(m: Bytes, vs: nat, entry: nat): Bytes
    requires Fits(m, vs, entry)
  {
    Read(m, entry + KEY_SIZE, vs)
  }

  function NextAt(m: Bytes, vs: nat, entry: nat): nat
    requires Fits(m, vs, entry)
  {
    WordAt(m, entry + KEY_SIZE + vs)
  }

  function PairAt(m: Bytes, vs: nat, entry: nat): Pair
    requires Fits(m, vs, entry)
  {
    Pair(KeyAt(m, vs, entry), ValueAt(m, vs, entry))
  }

  /** An entry byte by byte: 64 bytes of key, the value, and eight bytes of next word, low byte first. */
  lemma EntryLayout(m: Bytes, vs: nat, entry: nat)
    requires entry + 72 + vs <= |m|
    ensures Fits(m, vs, entry) && |KeyAt(m, vs, entry)| == 64 && |ValueAt(m, vs, entry)| == vs
    ensures forall i :: 0 <= i < 64 ==> KeyAt(m, vs, entry)[i] == m[entry + i]
    ensures forall i :: 0 <= i < vs ==> ValueAt(m, vs, entry)[i] == m[entry + 64 + i]
    ensures var p := entry + 64 + vs;
            NextAt(m, vs, entry)
            == m[p] as int + 0x100 * (m[p + 1] as int + 0x100 * (m[p + 2] as int + 0x100 * (m[p + 3] as int
               + 0x100 * (m[p + 4] as int + 0x100 * (m[p + 5] as int + 0x100 * (m[p + 6] as int
               + 0x100 * m[p + 7] as int))))))
  {
    WordBytes(m, entry + 64 + vs);
  }

  /** The word that leads to the i-th entry; 0 ends the chain. */
  function Link(chain: seq<nat>, i: nat): nat
    requires i <= |chain|
  {
    if i < |chain| then chain[i] else 0
  }

  /** Where that word is stored: the head word, or the next field of the entry before. */
  function LinkOffset(vs: nat, head: nat, chain: seq<nat>, i: nat): nat
    requires i <= |chain|
  {
    if i == 0 then head else chain[i - 1] + KEY_SIZE + vs
  }

  ghost predicate AllFit(m: Bytes, vs: nat, chain: seq<nat>) {
    forall i :: 0 <= i < |chain| ==> chain[i] != 0 && Fits(m, vs, chain[i])
  }

  /** Following the links from the word at head visits exactly the entries of chain, then ends. */
  ghost predicate Chain(m: Bytes, vs: nat, head: nat, chain: seq<nat>) {
    && head + 8 <= |m|
    && AllFit(m, vs, chain)
    && WordAt(m, head) == Link(chain, 0)
    && forall i {:trigger NextAt(m, vs, chain[i])} :: 0 <= i < |chain| ==> NextAt(m, vs, chain[i]) == Link(chain, i + 1)
  }

  /** A chain link by link: a zero word ends it, any other word leads to an entry whose next word is the
      head of the rest. */
  lemma ChainUnfolds(m: Bytes, vs: nat, head: nat, chain: seq<nat>)
    ensures Chain(m, vs, head, chain)
       <==> head + 8 <= |m| &&
            if chain == [] then WordAt(m, head) == 0
            else
              && WordAt(m, head) == chain[0] != 0 && chain[0] + 72 + vs <= |m|
              && Chain(m, vs, chain[0] + 64 + vs, chain[1..])
  {
    hide WordAt, Decode, Read;
    if chain != [] {
      if Chain(m, vs, head, chain) {
        RestIsChain(m, vs, head, chain);
      }
      if && head + 8 <= |m| && WordAt(m, head) == chain[0] != 0 && chain[0] + 72 + vs <= |m|
         && Chain(m, vs, chain[0] + 64 + vs, chain[1..]) {
        ChainGrows(m, vs, head, chain);
      }
    }
  }

  lemma RestIsChain(m: Bytes, vs: nat, head: nat, chain: seq<nat>)
    requires Chain(m, vs, head, chain) && chain != []
    ensures Chain(m, vs, chain[0] + 64 + vs, chain[1..])
  {
    hide WordAt, Decode, Read;
    assert NextAt(m, vs, chain[0]) == Link(chain, 1) == Link(chain[1..], 0);
    forall i | 0 <= i < |chain[1..]|
      ensures NextAt(m, vs, chain[1..][i]) == Link(chain[1..], i + 1)
    {
      assert NextAt(m, vs, chain[i + 1]) == Link(chain, i + 2);
    }
  }

  lemma ChainGrows(m: Bytes, vs: nat, head: nat, chain: seq<nat>)
    requires chain != [] && head + 8 <= |m| && WordAt(m, head) == chain[0] != 0 && Fits(m, vs, chain[0])
    requires Chain(m, vs, chain[0] + 64 + vs, chain[1..])
    ensures Chain(m, vs, head, chain)
  {
    hide WordAt, Decode, Read;
    forall i | 0 <= i < |chain|
      ensures chain[i] != 0 && Fits(m, vs, chain[i]) && NextAt(m, vs, chain[i]) == Link(chain, i + 1)
    {
      if i > 0 {
        assert chain[i] == chain[1..][i - 1];
        assert NextAt(m, vs, chain[1..][i - 1]) == Link(chain[1..], i);
      }
    }
  }

  /** Entries overlap neither each other nor the head word. */
  ghost predicate Separate(vs: nat, head: nat, chain: seq<nat>) {
    && (forall i :: 0 <= i < |chain| ==> DisjointRanges(head, 8, chain[i], EntrySize(vs)))
    && (forall i, j :: 0 <= i < j < |chain| ==> DisjointRanges(chain[i], EntrySize(vs), chain[j], EntrySize(vs)))
  }

  ghost function Pairs(m: Bytes, vs: nat, chain: seq<nat>): (ps: seq<Pair>)
    requires AllFit(m, vs, chain)
    ensures |ps| == |chain|
    ensures forall i :: 0 <= i < |chain| ==> ps[i] == PairAt(m, vs, chain[i])
  {
    seq(|chain|, i requires 0 <= i < |chain| => PairAt(m, vs, chain[i]))
  }

  /** The first pair at or after i with the given key; |ps| if there is none. */
  function Find(ps: seq<Pair>, key: Bytes, i: nat): (r: nat)
    requires i <= |ps|
    ensures i <= r <= |ps|
    ensures forall j :: i <= j < r ==> ps[j].key != key
    ensures r < |ps| ==> ps[r].key == key
    decreases |ps| - i
  {
    if i == |ps| || ps[i].key == key then i else Find(ps, key, i + 1)
  }

  /** The memory determines the chain. */
  lemma {:induction false} ChainUnique(m: Bytes, vs: nat, head: nat, c1: seq<nat>, c2: seq<nat>, i: nat)
    requires Chain(m, vs, head, c1) && Chain(m, vs, head, c2)
    requires i <= |c1| && i <= |c2| && c1[..i] == c2[..i] && Link(c1, i) == Link(c2, i)
    ensures c1 == c2
    decreases |c1| - i
  {
    if i < |c1| {
      assert NextAt(m, vs, c1[i]) == Link(c1, i + 1) && NextAt(m, vs, c2[i]) == Link(c2, i + 1);
      assert c1[..i + 1] == c2[..i + 1];
      ChainUnique(m, vs, head, c1, c2, i + 1);
    }
  }

  /** An entry none of whose bytes changed reads as before. */
  lemma EntrySame(m: Bytes, m': Bytes, vs: nat, entry: nat)
    requires |m| == |m'| && Fits(m, vs, entry)
    requires forall a :: entry <= a < entry + EntrySize(vs) ==> m'[a] == m[a]
    ensures PairAt(m', vs, entry) == PairAt(m, vs, entry) && NextAt(m', vs, entry) == NextAt(m, vs, entry)
  {
    ReadSame(m, m', entry, KEY_SIZE);
    ReadSame(m, m', entry + KEY_SIZE, vs);
    WordSame(m, m', entry + KEY_SIZE + vs);
  }

  /** update: the matching pair gets the new value; every other pair, every link and every byte
      outside that value stay. */
  lemma UpdateInPlace(m: Bytes, vs: nat, head: nat, chain: seq<nat>, i: nat, value: Bytes)
    requires Chain(m, vs, head, chain) && Separate(vs, head, chain) && i < |chain| && |value| == vs
    ensures var m' := Write(m, chain[i] + KEY_SIZE, value);
            && Chain(m', vs, head, chain)
            && Pairs(m', vs, chain) == Pairs(m, vs, chain)[i := Pair(KeyAt(m, vs, chain[i]), value)]
            && forall a :: 0 <= a < |m| && !(chain[i] + KEY_SIZE <= a < chain[i] + KEY_SIZE + vs) ==> m'[a] == m[a]
  {
    hide Read, Decode, Encode;
    var m' := Write(m, chain[i] + KEY_SIZE, value);
    forall j | 0 <= j < |chain|
      ensures KeyAt(m', vs, chain[j]) == KeyAt(m, vs, chain[j]) && NextAt(m', vs, chain[j]) == NextAt(m, vs, chain[j])
      ensures ValueAt(m', vs, chain[j]) == if j == i then value else ValueAt(m, vs, chain[j])
    {
      if j == i {
        ReadSame(m, m', chain[i], KEY_SIZE);
        ReadBack(m, chain[i] + KEY_SIZE, value);
        WordSame(m, m', chain[i] + KEY_SIZE + vs);
      } else {
        assert DisjointRanges(chain[j], EntrySize(vs), chain[i], EntrySize(vs));
        EntrySame(m, m', vs, chain[j]);
      }
    }
    WordSame(m, m', head);
  }

  /** Every link of a chain is a 64-bit word that memory holds. */
  lemma LinkIsWord(m: Bytes, vs: nat, head: nat, chain: seq<nat>, i: nat)
    requires Chain(m, vs, head, chain) && i <= |chain|
    ensures LinkOffset(vs, head, chain, i) + 8 <= |m|
    ensures Link(chain, i) == WordAt(m, LinkOffset(vs, head, chain, i)) < U64
  {
    if i > 0 {
      assert NextAt(m, vs, chain[i - 1]) == Link(chain, i);
    }
  }

  /** s without its elements from i up to but not including j. */
  function Splice<A>(s: seq<A>, i: nat, j: nat): (r: seq<A>)
    requires i <= j <= |s|
    ensures |r| == |s| - (j - i)
    ensures forall k :: 0 <= k < |r| ==> r[k] == if k < i then s[k] else s[k - i + j]
  {
    s[..i] + s[j..]
  }

  /** Redirecting the i-th link to the j-th entry drops exactly the entries between and keeps the
      order, keys, values and all other bytes. Unlinking entry i is the case j = i + 1; writing 0 is
      the case j = |chain|. */
  lemma Relink(m: Bytes, vs: nat, head: nat, chain: seq<nat>, i: nat, j: nat)
    requires Chain(m, vs, head, chain) && Separate(vs, head, chain) && i <= j <= |chain|
    ensures LinkOffset(vs, head, chain, i) + 8 <= |m|
    ensures var m' := PutWord(m, LinkOffset(vs, head, chain, i), Link(chain, j));
            && Chain(m', vs, head, Splice(chain, i, j))
            && Pairs(m', vs, Splice(chain, i, j)) == Splice(Pairs(m, vs, chain), i, j)
  {
    hide Read, Decode, Encode, Write, WordAt, PutWord;
    LinkIsWord(m, vs, head, chain, i);
    LinkIsWord(m, vs, head, chain, j);
    RelinkHead(m, vs, head, chain, i, j);
    var m' := PutWord(m, LinkOffset(vs, head, chain, i), Link(chain, j));
    var c := Splice(chain, i, j);
    forall k | 0 <= k < |c|
      ensures c[k] != 0 && Fits(m', vs, c[k])
      ensures PairAt(m', vs, c[k]) == PairAt(m, vs, c[k])
      ensures NextAt(m', vs, c[k]) == Link(c, k + 1)
    {
      RelinkAt(m, vs, head, chain, i, j, k);
    }
    SplicePairs(m, m', vs, chain, i, j);
  }

  lemma SplicePairs(m: Bytes, m': Bytes, vs: nat, chain: seq<nat>, i: nat, j: nat)
    requires i <= j <= |chain| && AllFit(m, vs, chain) && AllFit(m', vs, Splice(chain, i, j))
    requires forall k :: 0 <= k < |Splice(chain, i, j)| ==>
               PairAt(m', vs, Splice(chain, i, j)[k]) == PairAt(m, vs, Splice(chain, i, j)[k])
    ensures Pairs(m', vs, Splice(chain, i, j)) == Splice(Pairs(m, vs, chain), i, j)
  {
    hide PairAt, Fits;
  }

  lemma RelinkHead(m: Bytes, vs: nat, head: nat, chain: seq<nat>, i: nat, j: nat)
    requires Chain(m, vs, head, chain) && Separate(vs, head, chain) && i <= j <= |chain| && Link(chain, j) < U64
    requires LinkOffset(vs, head, chain, i) + 8 <= |m|
    ensures WordAt(PutWord(m, LinkOffset(vs, head, chain, i), Link(chain, j)), head) == Link(Splice(chain, i, j), 0)
  {
    if i > 0 {
      assert DisjointRanges(head, 8, chain[i - 1], EntrySize(vs));
      WordSame(m, PutWord(m, LinkOffset(vs, head, chain, i), Link(chain, j)), head);
    }
  }

  lemma RelinkAt(m: Bytes, vs: nat, head: nat, chain: seq<nat>, i: nat, j: nat, k: nat)
    requires Chain(m, vs, head, chain) && Separate(vs, head, chain) && i <= j <= |chain| && Link(chain, j) < U64
    requires LinkOffset(vs, head, chain, i) + 8 <= |m|
    requires k < |Splice(chain, i, j)|
    ensures var m' := PutWord(m, LinkOffset(vs, head, chain, i), Link(chain, j));
            var c := Splice(chain, i, j);
            && c[k] != 0 && Fits(m', vs, c[k])
            && PairAt(m', vs, c[k]) == PairAt(m, vs, c[k])
            && NextAt(m', vs, c[k]) == Link(c, k + 1)
  {
    hide Read, Decode, Encode, Write, WordAt, PutWord;
    var k' := if k < i then k else k - i + j;
    assert NextAt(m, vs, chain[k']) == Link(chain, k' + 1);
    LinkWordKeepsEntry(m, vs, head, chain, i, k', Link(chain, j));
  }

  lemma LinkWordKeepsEntry(m: Bytes, vs: nat, head: nat, chain: seq<nat>, i: nat, k: nat, v: nat)
    requires Chain(m, vs, head, chain) && Separate(vs, head, chain) && i <= |chain| && k < |chain|
    requires LinkOffset(vs, head, chain, i) + 8 <= |m|
    ensures var m' := PutWord(m, LinkOffset(vs, head, chain, i), v);
            && PairAt(m', vs, chain[k]) == PairAt(m, vs, chain[k])
            && (k != i - 1 ==> NextAt(m', vs, chain[k]) == NextAt(m, vs, chain[k]))
  {
    var m' := PutWord(m, LinkOffset(vs, head, chain, i), v);
    if k == i - 1 {
      ReadSame(m, m', chain[k], KEY_SIZE);
      ReadSame(m, m', chain[k] + KEY_SIZE, vs);
    } else {
      if i > 0 {
        assert DisjointRanges(chain[i - 1], EntrySize(vs), chain[k], EntrySize(vs));
      } else {
        assert DisjointRanges(head, 8, chain[k], EntrySize(vs));
      }
      EntrySame(m, m', vs, chain[k]);
    }
  }

  // ----- Building an entry -----

  /** The three writes that lay out a new entry with a zero next word. */
  function WriteEntry(m: Bytes, vs: nat, entry: nat, pair: Pair): (r: Bytes)
    requires Fits(m, vs, entry) && |pair.key| == KEY_SIZE && |pair.value| == vs
    ensures |r| == |m|
  {
    var m1 := Write(m, entry, pair.key);
    var m2 := Write(m1, entry + KEY_SIZE, pair.value);
    PutWord(m2, entry + KEY_SIZE + vs, 0)
  }

  lemma EntryWritten(m: Bytes, vs: nat, entry: nat, pair: Pair)
    requires Fits(m, vs, entry) && |pair.key| == KEY_SIZE && |pair.value| == vs
    ensures var r := WriteEntry(m, vs, entry, pair);
            && PairAt(r, vs, entry) == pair
            && NextAt(r, vs, entry) == 0
            && forall a :: 0 <= a < |m| && !(entry <= a < entry + EntrySize(vs)) ==> r[a] == m[a]
  {
    var m1 := Write(m, entry, pair.key);
    var m2 := Write(m1, entry + KEY_SIZE, pair.value);
    var r := PutWord(m2, entry + KEY_SIZE + vs, 0);
    ReadBack(m, entry, pair.key);
    ReadSame(m1, r, entry, KEY_SIZE);
    ReadBack(m1, entry + KEY_SIZE, pair.value);
    ReadSame(m2, r, entry + KEY_SIZE, vs);
  }
}
