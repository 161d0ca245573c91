/** The protection table as a value: what one probe, insertion, revocation or clear does to a
    sequence of slots. The hash and the token type are parameters, so the 16-bit and the 256-bit
    build share these definitions. The laws of this file hold from ANY table state, reachable or not. */
module TableSpec {
  import opened Memory

  const HASH_TABLE_SIZE: nat := 0x200_0000   // 2^25

  const READ: nat := 1
  const WRITE: nat := 2

  type Index = i: nat | i < HASH_TABLE_SIZE

  datatype Option<+T> = None | Some(value: T)

  datatype Region = Region(offset: nat, size: nat, permission: int)

  datatype Slot<+T> = Slot(valid: bool, token: T, region: Region)

  /** What distinguishes the builds: their hash, their reserved token, and whether a clear wipes the
      whole slot or only its valid flag. */
  datatype Build<!T> = Build(hash: T -> Index, global: T, wipes: bool)

  /** The slot inspected after d steps of linear probing. */
  function At(home: Index, d: nat): Index {
    (home + d) % HASH_TABLE_SIZE
  }

  /** Two probe distances below the table size never meet. */
  lemma AtInjective(home: Index, d: nat, e: nat)
    requires d < HASH_TABLE_SIZE && e < HASH_TABLE_SIZE
    requires At(home, d) == At(home, e)
    ensures d == e
  {
  }

  /** How far slot i lies from home along the probe order. */
  function Distance(home: Index, i: Index): (d: Index)
    ensures At(home, d) == i
  {
    (i + HASH_TABLE_SIZE - home) % HASH_TABLE_SIZE
  }

  /** The probe loop walks past the slot at distance d. */
  predicate Passes<T(==)>(s: seq<Slot<T>>, home: Index, k: T, d: nat)
    requires |s| == HASH_TABLE_SIZE
  {
    s[At(home, d)].valid && s[At(home, d)].token != k
  }

  /** The first distance at or after d where the probe stops; HASH_TABLE_SIZE after a full circle. */
  function ProbeFrom<T(==)>(s: seq<Slot<T>>, home: Index, k: T, d: nat): (r: nat)
    requires |s| == HASH_TABLE_SIZE && d <= HASH_TABLE_SIZE
    ensures d <= r <= HASH_TABLE_SIZE
    ensures forall e :: d <= e < r ==> Passes(s, home, k, e)
    ensures r < HASH_TABLE_SIZE ==> !Passes(s, home, k, r)
    decreases HASH_TABLE_SIZE - d
  {
    if d == HASH_TABLE_SIZE || !Passes(s, home, k, d) then d else ProbeFrom(s, home, k, d + 1)
  }

  function Probe<T(==)>(s: seq<Slot<T>>, home: Index, k: T): (r: nat)
    requires |s| == HASH_TABLE_SIZE
    ensures r <= HASH_TABLE_SIZE
    ensures forall e :: 0 <= e < r ==> Passes(s, home, k, e)
    ensures r < HASH_TABLE_SIZE ==> !Passes(s, home, k, r)
  {
    ProbeFrom(s, home, k, 0)
  }

  /** The stopping distance is the only one with the contract of Probe. */
  lemma ProbeUnique<T>(s: seq<Slot<T>>, home: Index, k: T, r: nat)
    requires |s| == HASH_TABLE_SIZE && r <= HASH_TABLE_SIZE
    requires forall e :: 0 <= e < r ==> Passes(s, home, k, e)
    requires r < HASH_TABLE_SIZE ==> !Passes(s, home, k, r)
    ensures Probe(s, home, k) == r
  {
  }

  /** No valid slot holds k. */
  ghost predicate Absent<T>(s: seq<Slot<T>>, k: T) {
    forall i :: 0 <= i < |s| && s[i].valid ==> s[i].token != k
  }

  /** The table entry that the access paths find for k. */
  function Lookup<T(==)>(b: Build<T>, s: seq<Slot<T>>, k: T): Option<Region>
    requires |s| == HASH_TABLE_SIZE
  {
    var r := Probe(s, b.hash(k), k);
    if r < HASH_TABLE_SIZE && s[At(b.hash(k), r)].valid then Some(s[At(b.hash(k), r)].region) else None
  }

  /** insert_protection_entry: 0 accepted, -2 token present on the probe path, -1 no free slot on it. */
  function Insert<T(==)>(b: Build<T>, s: seq<Slot<T>>, k: T, region: Region): (r: (seq<Slot<T>>, int))
    requires |s| == HASH_TABLE_SIZE
    ensures |r.0| == HASH_TABLE_SIZE
    ensures r.1 != 0 ==> r.0 == s
  {
    var d := Probe(s, b.hash(k), k);
    if d == HASH_TABLE_SIZE then (s, -1)
    else if s[At(b.hash(k), d)].valid then (s, -2)
    else (s[At(b.hash(k), d) := Slot(true, k, region)], 0)
  }

  /** revoke_cxl: resets the valid flag where the probe stops. The reserved token skips the probe and
      every check, so its home slot is reset whatever it holds. */
  function Revoke<T(==)>(b: Build<T>, s: seq<Slot<T>>, k: T): (r: (seq<Slot<T>>, int))
    requires |s| == HASH_TABLE_SIZE
    ensures |r.0| == HASH_TABLE_SIZE
  {
    var home := b.hash(k);
    if k == b.global then (s[home := s[home].(valid := false)], 0)
    else
      var d := Probe(s, home, k);
      if d == HASH_TABLE_SIZE || !s[At(home, d)].valid then (s, -1)
      else (s[At(home, d) := s[At(home, d)].(valid := false)], 0)
  }

  function ClearedSlot<T>(b: Build<T>, slot: Slot<T>): Slot<T> {
    if b.wipes then Slot(false, b.global, Region(0, 0, 0)) else slot.(valid := false)
  }

  function Clear<T>(b: Build<T>, s: seq<Slot<T>>): (r: seq<Slot<T>>)
    ensures |r| == |s|
    ensures forall i :: 0 <= i < |s| ==> !r[i].valid
  {
    seq(|s|, i requires 0 <= i < |s| => ClearedSlot(b, s[i]))
  }

  function HasBit(permission: int, bit: nat): bool
    requires bit == READ || bit == WRITE
  {
    permission / bit % 2 != 0
  }

  /** The size, range and permission checks on a found entry, with the sums wrapping at 64 bits. */
  predicate Permits(region: Region, offset: nat, size: nat, bit: nat)
    requires bit == READ || bit == WRITE
  {
    && region.size != 0
    && region.offset <= offset
    && (offset + size) % U64 <= (region.offset + region.size) % U64
    && HasBit(region.permission, bit)
  }

  /** The decision of read_cxl, write_cxl and compare_cxl. */
  predicate Granted<T(==)>(b: Build<T>, s: seq<Slot<T>>, k: T, offset: nat, size: nat, bit: nat)
    requires |s| == HASH_TABLE_SIZE
    requires bit == READ || bit == WRITE
  {
    k == b.global || (Lookup(b, s, k).Some? && Permits(Lookup(b, s, k).value, offset, size, bit))
  }

  // ----- Probe loops -----

  /** A probe loop stands at index after d rounds, having passed every slot before. */
  ghost predicate Reached<T>(s: seq<Slot<T>>, home: Index, k: T, index: nat, d: nat)
    requires |s| == HASH_TABLE_SIZE
  {
    d < HASH_TABLE_SIZE && index == At(home, d) && forall e :: 0 <= e < d ==> Passes(s, home, k, e)
  }

  lemma ReachedStart<T>(s: seq<Slot<T>>, home: Index, k: T)
    requires |s| == HASH_TABLE_SIZE
    ensures Reached(s, home, k, home, 0)
  {
  }

  /** One more round: back at the start exactly when the whole circle passed. */
  lemma ReachedNext<T>(s: seq<Slot<T>>, home: Index, k: T, index: nat, d: nat)
    requires |s| == HASH_TABLE_SIZE && Reached(s, home, k, index, d)
    requires index < HASH_TABLE_SIZE && s[index].valid && s[index].token != k
    ensures var next := (index + 1) % HASH_TABLE_SIZE;
            if next == home then Probe(s, home, k) == HASH_TABLE_SIZE && d + 1 == HASH_TABLE_SIZE
            else Reached(s, home, k, next, d + 1)
  {
    assert Passes(s, home, k, d);
    assert (At(home, d) + 1) % HASH_TABLE_SIZE == At(home, d + 1);
    if d + 1 == HASH_TABLE_SIZE {
      ProbeUnique(s, home, k, HASH_TABLE_SIZE);
    }
  }

  lemma ReachedStop<T>(s: seq<Slot<T>>, home: Index, k: T, index: nat, d: nat)
    requires |s| == HASH_TABLE_SIZE && Reached(s, home, k, index, d)
    requires index < HASH_TABLE_SIZE && !(s[index].valid && s[index].token != k)
    ensures Probe(s, home, k) == d
  {
    ProbeUnique(s, home, k, d);
  }

  // ----- Laws that hold from any state -----

  /** An accepted token is found by the very next lookup, with the region it was given. */
  lemma InsertThenLookup<T>(b: Build<T>, s: seq<Slot<T>>, k: T, region: Region)
    requires |s| == HASH_TABLE_SIZE && Insert(b, s, k, region).1 == 0
    ensures Lookup(b, Insert(b, s, k, region).0, k) == Some(region)
  {
    var home := b.hash(k);
    var d := Probe(s, home, k);
    var s' := Insert(b, s, k, region).0;
    forall e | 0 <= e < d
      ensures Passes(s', home, k, e)
    {
      assert Passes(s, home, k, e);
    }
    ProbeUnique(s', home, k, d);
  }

  /** Inserting any token never changes the entry found by a lookup that already succeeds. */
  lemma InsertKeepsLookup<T>(b: Build<T>, s: seq<Slot<T>>, k: T, k2: T, region: Region)
    requires |s| == HASH_TABLE_SIZE && Lookup(b, s, k).Some?
    ensures Lookup(b, Insert(b, s, k2, region).0, k) == Lookup(b, s, k)
  {
    var home := b.hash(k);
    var d := Probe(s, home, k);
    var s' := Insert(b, s, k2, region).0;
    forall e | 0 <= e < d
      ensures Passes(s', home, k, e)
    {
      assert Passes(s, home, k, e);
    }
    ProbeUnique(s', home, k, d);
  }

  // ----- Where a probe goes, slot by slot -----

  /** The slot e places above home, around the end of the table, is valid and holds another token. */
  predicate TakenAbove<T(==)>(s: seq<Slot<T>>, home: nat, k: T, e: nat)
    requires |s| == 0x200_0000
  {
    s[(home + e) % 0x200_0000].valid && s[(home + e) % 0x200_0000].token != k
  }

  /** The slot that decides about a token, when all slots from its home up to it are taken: insertion
      fills it if it is free and refuses if it holds the token; lookup and revocation find the token
      there or nowhere; revocation resets its flag and nothing else. */
  lemma DecidingSlot<T>(b: Build<T>, s: seq<Slot<T>>, k: T, d: nat, region: Region)
    requires |s| == HASH_TABLE_SIZE && d < HASH_TABLE_SIZE
    requires forall e: nat :: e < d ==> TakenAbove(s, b.hash(k), k, e)
    requires !TakenAbove(s, b.hash(k), k, d)
    ensures var i := (b.hash(k) + d) % 0x200_0000;
            && Insert(b, s, k, region) == (if s[i].valid then (s, -2) else (s[i := Slot(true, k, region)], 0))
            && Lookup(b, s, k) == (if s[i].valid then Some(s[i].region) else None)
            && (k != b.global ==>
                  Revoke(b, s, k)
                  == if s[i].valid then (s[i := Slot(false, s[i].token, s[i].region)], 0) else (s, -1))
  {
    DecidingDistance(b, s, k, d);
  }

  lemma DecidingDistance<T>(b: Build<T>, s: seq<Slot<T>>, k: T, d: nat)
    requires |s| == HASH_TABLE_SIZE && d <= HASH_TABLE_SIZE
    requires forall e: nat :: e < d ==> TakenAbove(s, b.hash(k), k, e)
    requires d < HASH_TABLE_SIZE ==> !TakenAbove(s, b.hash(k), k, d)
    ensures Probe(s, b.hash(k), k) == d
  {
    forall e | 0 <= e < d
      ensures Passes(s, b.hash(k), k, e)
    {
      assert TakenAbove(s, b.hash(k), k, e);
    }
    ProbeUnique(s, b.hash(k), k, d);
  }

  /** When every slot is taken by other tokens, insertion returns -1, lookup finds nothing and
      revocation fails. */
  lemma NoDecidingSlot<T>(b: Build<T>, s: seq<Slot<T>>, k: T, region: Region)
    requires |s| == HASH_TABLE_SIZE && forall i :: 0 <= i < |s| ==> s[i].valid && s[i].token != k
    ensures Insert(b, s, k, region) == (s, -1) && Lookup(b, s, k) == None
    ensures k != b.global ==> Revoke(b, s, k) == (s, -1)
  {
    DecidingDistance(b, s, k, HASH_TABLE_SIZE);
  }

  /** The reserved token needs no entry: it is granted everything, and revoking it resets the flag of
      its home slot, whatever that slot holds. */
  lemma ReservedToken<T>(b: Build<T>, s: seq<Slot<T>>, offset: nat, size: nat)
    requires |s| == HASH_TABLE_SIZE
    ensures Granted(b, s, b.global, offset, size, 1) && Granted(b, s, b.global, offset, size, 2)
    ensures var i := b.hash(b.global);
            Revoke(b, s, b.global) == (s[i := Slot(false, s[i].token, s[i].region)], 0)
  {
  }

  /** A token whose lookup succeeds cannot be issued again. */
  lemma PresentIsRefused<T>(b: Build<T>, s: seq<Slot<T>>, k: T, region: Region)
    requires |s| == HASH_TABLE_SIZE
    ensures Lookup(b, s, k).Some? <==> Insert(b, s, k, region).1 == -2
  {
  }

  /** A successful revoke of an ordinary token makes its next lookup fail. */
  lemma RevokeThenLookup<T>(b: Build<T>, s: seq<Slot<T>>, k: T)
    requires |s| == HASH_TABLE_SIZE && k != b.global && Revoke(b, s, k).1 == 0
    ensures Lookup(b, s, k).Some?
    ensures Lookup(b, Revoke(b, s, k).0, k) == None
  {
    var home := b.hash(k);
    var d := Probe(s, home, k);
    var s' := Revoke(b, s, k).0;
    forall e | 0 <= e < d
      ensures Passes(s', home, k, e)
    {
      assert Passes(s, home, k, e);
      if At(home, e) == At(home, d) {
        AtInjective(home, e, d);
      }
    }
    ProbeUnique(s', home, k, d);
  }

  /** Resetting one slot: a lookup that succeeded still finds the same entry exactly when the hole is
      not on its probe path; otherwise it fails. A failing lookup keeps failing unless the hole is
      its own token. */
  lemma HoleAndLookup<T>(b: Build<T>, s: seq<Slot<T>>, p: Index, k: T)
    requires |s| == HASH_TABLE_SIZE && s[p].valid && s[p].token != k
    ensures var s' := s[p := s[p].(valid := false)];
            var onPath := Distance(b.hash(k), p) < Probe(s, b.hash(k), k);
            Lookup(b, s', k) == if onPath then None else Lookup(b, s, k)
  {
    var home := b.hash(k);
    var s' := s[p := s[p].(valid := false)];
    var d := Probe(s, home, k);
    var q := Distance(home, p);
    assert At(home, q) == p;
    if q < d {
      forall e | 0 <= e < q
        ensures Passes(s', home, k, e)
      {
        assert Passes(s, home, k, e);
        if At(home, e) == p {
          AtInjective(home, e, q);
        }
      }
      ProbeUnique(s', home, k, q);
    } else {
      assert q != d by {
        assert d < HASH_TABLE_SIZE ==> !Passes(s, home, k, d);
      }
      forall e | 0 <= e < d
        ensures Passes(s', home, k, e)
      {
        assert Passes(s, home, k, e);
        if At(home, e) == p {
          AtInjective(home, e, q);
        }
      }
      if d < HASH_TABLE_SIZE && At(home, d) == p {
        AtInjective(home, d, q);
      }
      ProbeUnique(s', home, k, d);
    }
  }

  /** After a successful revoke of k, every other token's lookup is unchanged, or fails exactly when
      k's slot lay on that token's probe path. */
  lemma RevokeAndOthers<T>(b: Build<T>, s: seq<Slot<T>>, k: T, other: T)
    requires |s| == HASH_TABLE_SIZE && k != b.global && other != k && Revoke(b, s, k).1 == 0
    ensures var slot := At(b.hash(k), Probe(s, b.hash(k), k));
            var onPath := Distance(b.hash(other), slot) < Probe(s, b.hash(other), other);
            Lookup(b, Revoke(b, s, k).0, other) == if onPath then None else Lookup(b, s, other)
  {
    HoleAndLookup(b, s, At(b.hash(k), Probe(s, b.hash(k), k)), other);
  }

  // ----- How far a probe goes -----

  function ValidSlots<T>(s: seq<Slot<T>>): set<int> {
    set i | 0 <= i < |s| && s[i].valid
  }

  ghost function Walked(home: Index, d: nat): (w: set<int>)
    requires d <= HASH_TABLE_SIZE
    ensures |w| == d
    ensures forall i :: i in w <==> exists e :: 0 <= e < d && At(home, e) == i
  {
    if d == 0 then {}
    else
      var w := Walked(home, d - 1);
      assert At(home, d - 1) !in w by {
        if At(home, d - 1) in w {
          var e :| 0 <= e < d - 1 && At(home, e) == At(home, d - 1);
          AtInjective(home, e, d - 1);
        }
      }
      w + {At(home, d - 1)}
  }

  lemma SubsetSize<A>(a: set<A>, b: set<A>)
    requires a <= b
    ensures |a| <= |b|
    ensures |a| == |b| ==> a == b
  {
    assert b == a + (b - a);
  }

  /** A lookup inspects at most one slot more than there are valid slots, and never more than the
      whole table, so the guard on the number of probes cannot fire before the circle closes. */
  lemma ProbeBound<T>(s: seq<Slot<T>>, home: Index, k: T)
    requires |s| == HASH_TABLE_SIZE
    ensures Probe(s, home, k) <= |ValidSlots(s)|
    ensures Probe(s, home, k) <= HASH_TABLE_SIZE
  {
    var d := Probe(s, home, k);
    var w := Walked(home, d);
    forall i | i in w
      ensures i in ValidSlots(s)
    {
      var e :| 0 <= e < d && At(home, e) == i;
      assert Passes(s, home, k, e);
    }
    SubsetSize(w, ValidSlots(s));
  }

  lemma Indices(n: nat) returns (all: set<int>)
    ensures |all| == n
    ensures forall i :: i in all <==> 0 <= i < n
  {
    all := {};
    for i := 0 to n
      invariant |all| == i
      invariant forall j :: j in all <==> 0 <= j < i
    {
      all := all + {i};
    }
  }

  /** All slots are valid exactly when the number of valid slots is the table size. */
  lemma FullCount<T>(s: seq<Slot<T>>)
    ensures |ValidSlots(s)| <= |s|
    ensures |ValidSlots(s)| == |s| <==> forall i :: 0 <= i < |s| ==> s[i].valid
  {
    var all := Indices(|s|);
    SubsetSize(ValidSlots(s), all);
    if forall i :: 0 <= i < |s| ==> s[i].valid {
      assert ValidSlots(s) == all;
    }
    if ValidSlots(s) == all {
      forall i | 0 <= i < |s|
        ensures s[i].valid
      {
        assert i in ValidSlots(s);
      }
    }
  }

  /** A probe that closes the circle proves every slot valid. */
  lemma FullCircle<T>(s: seq<Slot<T>>, home: Index, k: T)
    requires |s| == HASH_TABLE_SIZE && Probe(s, home, k) == HASH_TABLE_SIZE
    ensures forall i :: 0 <= i < |s| ==> s[i].valid && s[i].token != k
  {
    forall i | 0 <= i < |s|
      ensures s[i].valid && s[i].token != k
    {
      assert Passes(s, home, k, Distance(home, i));
    }
  }

  // ----- What the access decision means -----

  predicate Covers(region: Region, address: int) {
    region.offset <= address < region.offset + region.size
  }

  /** Every address of the range is in the region, taken without wrapping. */
  ghost predicate Contained(region: Region, offset: nat, size: nat) {
    forall a :: offset <= a < offset + size ==> Covers(region, a)
  }

  /** What the checks mean, for all 64-bit arguments and any region that itself does not wrap. A grant
      means containment and a permission bit, except in exactly one family: the range runs past 2^64
      and its wrapped end still lies below the region's end. */
  lemma PermitsMeansContained(region: Region, offset: nat, size: nat, bit: nat)
    requires bit == READ || bit == WRITE
    requires 0 < size < U64 && offset < U64 && region.offset + region.size < U64
    ensures var open := if bit == 1 then region.permission % 2 == 1 else region.permission % 4 >= 2;
            && (Contained(region, offset, size) && open ==> Permits(region, offset, size, bit))
            && (Permits(region, offset, size, bit) && !Contained(region, offset, size)
                <==> && offset + size >= U64
                     && region.offset <= offset && offset + size - U64 <= region.offset + region.size
                     && region.size != 0 && open)
            && (offset + size < U64 ==>
                  (Permits(region, offset, size, bit) <==> Contained(region, offset, size) && open))
  {
    BitValues(region.permission);
    if Contained(region, offset, size) {
      assert Covers(region, offset) && Covers(region, offset + size - 1);
    } else if offset + size < U64 {
      var a :| offset <= a < offset + size && !Covers(region, a);
    } else {
      assert !Covers(region, U64 - 1);
    }
  }

  /** Bit 0 opens reading and bit 1 opens writing, whatever else the permission number says. */
  lemma BitValues(permission: int)
    ensures HasBit(permission, READ) <==> permission % 2 == 1
    ensures HasBit(permission, WRITE) <==> permission % 4 >= 2
  {
  }

  /** An empty range is granted at any offset of a non-empty region, its end included. */
  lemma EmptyRangePermitted(region: Region, offset: nat, bit: nat)
    requires bit == READ || bit == WRITE
    requires offset < U64 && region.offset + region.size < U64
    ensures Permits(region, offset, 0, bit) <==>
              && (Covers(region, offset) || Covers(region, offset - 1))
              && (if bit == 1 then region.permission % 2 == 1 else region.permission % 4 >= 2)
  {
    BitValues(region.permission);
  }

  /** A token accepted for a region reads there exactly when its permission number is odd, and writes
      there exactly when the number leaves 2 or 3 modulo 4. */
  lemma PermissionDecides<T>(b: Build<T>, s: seq<Slot<T>>, k: T, region: Region, offset: nat, size: nat)
    requires |s| == HASH_TABLE_SIZE && k != b.global && Insert(b, s, k, region).1 == 0
    requires 0 < size && region.offset <= offset && offset + size <= region.offset + region.size < U64
    ensures var s' := Insert(b, s, k, region).0;
            && (Granted(b, s', k, offset, size, 1) <==> region.permission % 2 == 1)
            && (Granted(b, s', k, offset, size, 2) <==> region.permission % 4 >= 2)
  {
    hide Lookup, Insert;
    InsertThenLookup(b, s, k, region);
    BitValues(region.permission);
  }

  /** A token accepted with permission 0 opens nothing, with 1 only reading, with 2 only writing and
      with 3 both. */
  lemma PermissionsZeroToThree<T>(b: Build<T>, s: seq<Slot<T>>, k: T, start: nat, length: nat, offset: nat, size: nat)
    requires |s| == HASH_TABLE_SIZE && k != b.global
    requires 0 < size && start <= offset && offset + size <= start + length < U64
    ensures Insert(b, s, k, Region(start, length, 0)).1 == 0 ==>
              var s' := Insert(b, s, k, Region(start, length, 0)).0;
              !Granted(b, s', k, offset, size, 1) && !Granted(b, s', k, offset, size, 2)
    ensures Insert(b, s, k, Region(start, length, 1)).1 == 0 ==>
              var s' := Insert(b, s, k, Region(start, length, 1)).0;
              Granted(b, s', k, offset, size, 1) && !Granted(b, s', k, offset, size, 2)
    ensures Insert(b, s, k, Region(start, length, 2)).1 == 0 ==>
              var s' := Insert(b, s, k, Region(start, length, 2)).0;
              !Granted(b, s', k, offset, size, 1) && Granted(b, s', k, offset, size, 2)
    ensures Insert(b, s, k, Region(start, length, 3)).1 == 0 ==>
              var s' := Insert(b, s, k, Region(start, length, 3)).0;
              Granted(b, s', k, offset, size, 1) && Granted(b, s', k, offset, size, 2)
  {
    hide Granted, Insert;
    forall permission | 0 <= permission < 4 && Insert(b, s, k, Region(start, length, permission)).1 == 0
      ensures var s' := Insert(b, s, k, Region(start, length, permission)).0;
              && (Granted(b, s', k, offset, size, 1) <==> permission % 2 == 1)
              && (Granted(b, s', k, offset, size, 2) <==> permission % 4 >= 2)
    {
      PermissionDecides(b, s, k, Region(start, length, permission), offset, size);
    }
  }

  /** The exception is inhabited. */
  lemma WrappedRangeIsPermitted()
    ensures var region := Region(0x800_0000, 328, 3);
            Permits(region, U64 - 8, 16, READ) && !Contained(region, U64 - 8, 16)
  {
    PermitsMeansContained(Region(0x800_0000, 328, 3), U64 - 8, 16, READ);
  }
}
