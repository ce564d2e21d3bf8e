/** The open-addressed table as a value: probe paths, tombstones, and the map it stands for. */
module FlatTables {
  import opened Bits

  // The two reserved keys, and the multiplier of Fibonacci hashing (2^64 over the golden ratio).
  const EMPTY: nat := 0
  const TOMBSTONE: nat := WORD - 1
  const FIBONACCI: nat := 11400714819323198485

  datatype Entry<V> = Entry(key: nat, value: V)

  predicate IsKey(k: nat) {
    k != EMPTY && k < TOMBSTONE
  }

  /** The home index of a key: the top bits of the 64-bit product. */
  function IndexOf(k: nat, shift: nat): nat {
    ShiftRight(k * FIBONACCI % WORD, Pow2(shift))
  }

  function ShiftRight(x: nat, power: nat): nat
    requires power > 0
  {
    x / power
  }

  lemma IndexBelow(k: nat, bits: nat)
    requires bits <= 64
    ensures IndexOf(k, 64 - bits) < Pow2(bits)
  {
    Pow2Word();
    Pow2Add(bits, 64 - bits);
    DivBelow(k * FIBONACCI % WORD, Pow2(64 - bits), Pow2(bits));
  }

  /** The home index is the top bits of the key times 11400714819323198485, in 64 bits; 0 and 2^64-1 are no keys. */
  lemma TopBits(k: nat, bits: nat)
    requires bits <= 64
    ensures var low, word := Pow2(64 - bits), (k * 11400714819323198485) % 0x1_0000_0000_0000_0000;
      IndexOf(k, 64 - bits) * low <= word < (IndexOf(k, 64 - bits) + 1) * low
    ensures IsKey(k) <==> 0 < k < 0xFFFF_FFFF_FFFF_FFFF
  {
    QuotientBounds((k * FIBONACCI) % WORD, Pow2(64 - bits));
  }

  lemma QuotientBounds(x: nat, s: nat)
    requires s > 0
    ensures ShiftRight(x, s) * s <= x < (ShiftRight(x, s) + 1) * s
  {
    assert x == s * (x / s) + x % s;
    assert (x / s + 1) * s == s * (x / s) + s;
  }

  lemma DivBelow(x: nat, s: nat, c: nat)
    requires s > 0 && x < c * s
    ensures x / s < c
  {
    var q, r := x / s, x % s;
    assert x == s * q + r;
    if q >= c {
      MulAtLeast(s, c, q);
      assert false;
    }
  }

  /** The capacity the table settles on: 16, doubled until it holds twice the expected count. */
  function CapacityFor(expected: nat): nat {
    Doubled(16, 2 * expected)
  }

  function Doubled(cap: nat, need: nat): (c: nat)
    requires cap > 0
    ensures cap <= c && need <= c && (c == cap || c < 2 * need)
    decreases need - cap
  {
    if cap >= need then cap else Doubled(2 * cap, need)
  }

  /** No smaller power of two has 16 slots and room for twice the expected count. */
  lemma CapacityIsLeast(expected: nat, k: nat)
    requires Pow2(k) >= 16 && Pow2(k) >= 2 * expected
    ensures 16 <= CapacityFor(expected) <= Pow2(k) && CapacityFor(expected) >= 2 * expected
  {
    assert Pow2(4) == 16;
    DoubledIsLeast(4, 2 * expected, k);
  }

  lemma {:induction false} DoubledIsLeast(j: nat, need: nat, k: nat)
    requires Pow2(j) <= Pow2(k) && need <= Pow2(k)
    ensures Doubled(Pow2(j), need) <= Pow2(k)
    decreases need - Pow2(j)
  {
    if Pow2(j) < need {
      Pow2Orders(j, k);
      DoubledIsLeast(j + 1, need, k);
    }
  }

  /** A smaller power of two is at most half as large. */
  lemma {:induction false} Pow2Orders(j: nat, k: nat)
    requires Pow2(j) < Pow2(k)
    ensures 2 * Pow2(j) <= Pow2(k)
  {
    if j > 0 && k > 0 {
      Pow2Orders(j - 1, k - 1);
    }
  }

  // ---------- walking around the table ----------

  /** The slot `d` steps after `home`. */
  function At(home: nat, d: nat, cap: nat): nat {
    if home + d < cap then home + d else home + d - cap
  }

  /** How many steps lead from `home` to slot `j`. */
  function Dist(home: nat, j: nat, cap: nat): int {
    if j >= home then j - home else j - home + cap
  }

  lemma AtDist(home: nat, j: nat, cap: nat)
    requires home < cap && j < cap
    ensures 0 <= Dist(home, j, cap) < cap && At(home, Dist(home, j, cap), cap) == j
  {
  }

  lemma DistAt(home: nat, d: nat, cap: nat)
    requires home < cap && d < cap
    ensures At(home, d, cap) < cap && Dist(home, At(home, d, cap), cap) == d
  {
  }

  type Table<V> = seq<Entry<V>>

  /** No empty slot lies between the home of the key at `j` and `j` itself. */
  ghost predicate Reachable<V>(t: Table<V>, shift: nat, j: nat)
    requires j < |t| && IndexOf(t[j].key, shift) < |t|
  {
    var home := IndexOf(t[j].key, shift);
    forall d :: 0 <= d < Dist(home, j, |t|) ==> At(home, d, |t|) < |t| && t[At(home, d, |t|)].key != EMPTY
  }

  function KeyCount<V>(t: Table<V>): nat {
    if t == [] then 0 else (if IsKey(t[0].key) then 1 else 0) + KeyCount(t[1..])
  }

  function EmptyCount<V>(t: Table<V>): nat {
    if t == [] then 0 else (if t[0].key == EMPTY then 1 else 0) + EmptyCount(t[1..])
  }

  ghost predicate Stored<V>(t: Table<V>, k: nat) {
    exists j :: 0 <= j < |t| && t[j].key == k
  }

  /** A stored key is in the map with its value and can be reached from its home. */
  ghost predicate EntryOk<V>(t: Table<V>, shift: nat, m: map<nat, V>, j: nat)
    requires j < |t|
  {
    && t[j].key <= TOMBSTONE
    && (IsKey(t[j].key) ==>
          && IndexOf(t[j].key, shift) < |t|
          && t[j].key in m && m[t[j].key] == t[j].value
          && Reachable(t, shift, j))
  }

  ghost predicate NoKeyTwice<V>(t: Table<V>) {
    forall i, j :: 0 <= i < j < |t| && IsKey(t[i].key) ==> t[i].key != t[j].key
  }

  /** The table represents `m`: same pairs, no key twice, every key reachable from its home. */
  ghost predicate TableOk<V>(t: Table<V>, shift: nat, m: map<nat, V>) {
    && (forall j :: 0 <= j < |t| ==> EntryOk(t, shift, m, j))
    && NoKeyTwice(t)
    && (forall k :: k in m ==> IsKey(k) && Stored(t, k))
    && KeyCount(t) == |m|
  }

  lemma EntryAt<V>(t: Table<V>, shift: nat, m: map<nat, V>, j: nat)
    requires TableOk(t, shift, m) && j < |t|
    ensures EntryOk(t, shift, m, j)
  {
  }

  lemma OnlySlot<V>(t: Table<V>, i: nat, j: nat)
    requires NoKeyTwice(t) && i < |t| && j < |t| && IsKey(t[i].key) && t[i].key == t[j].key
    ensures i == j
  {
  }

  /** A stored key has a slot. */
  lemma SlotOf<V>(t: Table<V>, shift: nat, m: map<nat, V>, k: nat) returns (j: nat)
    requires TableOk(t, shift, m) && k in m
    ensures j < |t| && t[j].key == k && IsKey(k) && t[j].value == m[k]
    ensures IndexOf(k, shift) < |t| && Reachable(t, shift, j)
  {
    assert Stored(t, k);
    j :| 0 <= j < |t| && t[j].key == k;
    EntryAt(t, shift, m, j);
  }

  // ---------- counting ----------

  lemma {:induction false} CountUpdate<V>(t: Table<V>, i: nat, e: Entry<V>)
    requires i < |t|
    ensures KeyCount(t[i := e]) == KeyCount(t) - (if IsKey(t[i].key) then 1 else 0) + (if IsKey(e.key) then 1 else 0)
    ensures EmptyCount(t[i := e]) ==
            EmptyCount(t) - (if t[i].key == EMPTY then 1 else 0) + (if e.key == EMPTY then 1 else 0)
  {
    if i > 0 {
      CountUpdate(t[1..], i - 1, e);
      assert t[i := e][1..] == t[1..][i - 1 := e];
    } else {
      assert t[i := e][1..] == t[1..];
    }
  }

  lemma {:induction false} AllKeys<V>(t: Table<V>)
    requires forall j :: 0 <= j < |t| ==> IsKey(t[j].key)
    ensures KeyCount(t) == |t|
  {
    if t != [] {
      AllKeys(t[1..]);
    }
  }

  lemma {:induction false} NoEmpty<V>(t: Table<V>)
    ensures EmptyCount(t) > 0 <==> Stored(t, EMPTY)
  {
    if t != [] {
      NoEmpty(t[1..]);
      if t[0].key == EMPTY {
        assert Stored(t, EMPTY);
      }
      if Stored(t[1..], EMPTY) {
        var j :| 0 <= j < |t[1..]| && t[1..][j].key == EMPTY;
        assert t[j + 1].key == EMPTY;
      }
      if Stored(t, EMPTY) && t[0].key != EMPTY {
        var j :| 0 <= j < |t| && t[j].key == EMPTY;
        assert t[1..][j - 1].key == EMPTY;
      }
    }
  }

  /** While fewer keys than slots are stored, some slot takes an insert. */
  lemma RoomLeft<V>(t: Table<V>, shift: nat, m: map<nat, V>) returns (j: nat)
    requires TableOk(t, shift, m) && |m| < |t|
    ensures j < |t| && !IsKey(t[j].key)
  {
    if forall j :: 0 <= j < |t| ==> IsKey(t[j].key) {
      AllKeys(t);
      assert false;
    }
    j :| 0 <= j < |t| && !IsKey(t[j].key);
  }

  // ---------- probing ----------

  /** Find and erase stop at the key or at an empty slot. */
  predicate StopsFind<V>(e: Entry<V>, k: nat) {
    e.key == k || e.key == EMPTY
  }

  /** Insert stops at the key or at any slot without one. */
  predicate StopsInsert<V>(e: Entry<V>, k: nat) {
    e.key == k || e.key == EMPTY || e.key == TOMBSTONE
  }

  /** The first `d` slots of the probe path do not stop a find. */
  ghost predicate Passed<V>(t: Table<V>, home: nat, d: nat, k: nat) {
    forall e :: 0 <= e < d ==> At(home, e, |t|) < |t| && !StopsFind(t[At(home, e, |t|)], k)
  }

  ghost predicate PassedInsert<V>(t: Table<V>, home: nat, d: nat, k: nat) {
    forall e :: 0 <= e < d ==> At(home, e, |t|) < |t| && !StopsInsert(t[At(home, e, |t|)], k)
  }

  lemma PathStarts<V>(t: Table<V>, home: nat, k: nat)
    requires home < |t|
    ensures At(home, 0, |t|) == home && Passed(t, home, 0, k) && PassedInsert(t, home, 0, k)
  {
  }

  lemma PathGoesOn<V>(t: Table<V>, home: nat, d: nat, k: nat)
    requires Passed(t, home, d, k) && At(home, d, |t|) < |t| && !StopsFind(t[At(home, d, |t|)], k)
    ensures Passed(t, home, d + 1, k)
  {
    hide At;
  }

  lemma InsertPathGoesOn<V>(t: Table<V>, home: nat, d: nat, k: nat)
    requires PassedInsert(t, home, d, k) && At(home, d, |t|) < |t| && !StopsInsert(t[At(home, d, |t|)], k)
    ensures PassedInsert(t, home, d + 1, k)
  {
    hide At;
  }

  /** The probe for a key ends exactly when the key is stored or an empty slot is left. */
  lemma ProbeEnds<V>(t: Table<V>, home: nat, k: nat)
    requires home < |t|
    ensures Passed(t, home, |t|, k) <==> !(Stored(t, k) || Stored(t, EMPTY))
  {
    if j :| 0 <= j < |t| && StopsFind(t[j], k) {
      AtDist(home, j, |t|);
      assert t[At(home, Dist(home, j, |t|), |t|)] == t[j];
    }
    if e :| 0 <= e < |t| && StopsFind(t[At(home, e, |t|)], k) {
      DistAt(home, e, |t|);
    }
  }

  /** A find that stops at an empty slot has proved the key absent. */
  lemma StoppedAtEmpty<V>(t: Table<V>, shift: nat, m: map<nat, V>, k: nat, d: nat)
    requires TableOk(t, shift, m) && IsKey(k) && d < |t|
    requires IndexOf(k, shift) < |t| && At(IndexOf(k, shift), d, |t|) < |t|
    requires Passed(t, IndexOf(k, shift), d, k) && t[At(IndexOf(k, shift), d, |t|)].key == EMPTY
    ensures k !in m
  {
    if k in m {
      var j := SlotOf(t, shift, m, k);
      var home := IndexOf(k, shift);
      AtDist(home, j, |t|);
      DistAt(home, d, |t|);
    }
  }

  // ---------- updates ----------

  /** Paths survive any update that makes no slot empty. */
  lemma ReachKept<V>(t: Table<V>, w: Table<V>, shift: nat, j: nat)
    requires |w| == |t| && j < |t| && w[j].key == t[j].key && IndexOf(t[j].key, shift) < |t|
    requires forall i :: 0 <= i < |t| && t[i].key != EMPTY ==> w[i].key != EMPTY
    requires Reachable(t, shift, j)
    ensures Reachable(w, shift, j)
  {
  }

  lemma StillNoKeyTwice<V>(t: Table<V>, i: nat, e: Entry<V>)
    requires NoKeyTwice(t) && i < |t|
    requires IsKey(e.key) ==> e.key == t[i].key || !Stored(t, e.key)
    ensures NoKeyTwice(t[i := e])
  {
    var w := t[i := e];
    forall a, b | 0 <= a < b < |w| && IsKey(w[a].key)
      ensures w[a].key != w[b].key
    {
      if a == i || b == i {
        var other := if a == i then b else a;
        assert w[other] == t[other];
        assert e.key != t[other].key;
      }
    }
  }

  lemma StillStored<V>(t: Table<V>, i: nat, e: Entry<V>, k: nat)
    requires i < |t| && (e.key == k || (Stored(t, k) && t[i].key != k))
    ensures Stored(t[i := e], k)
  {
    var w := t[i := e];
    if e.key == k {
      assert w[i].key == k;
    } else {
      var j :| 0 <= j < |t| && t[j].key == k;
      assert w[j].key == k;
    }
  }

  /** An absent key written to the first free slot of its probe path. */
  lemma InsertAbsent<V>(t: Table<V>, shift: nat, m: map<nat, V>, k: nat, v: V, d: nat)
    requires TableOk(t, shift, m) && IsKey(k) && k !in m && d < |t| && IndexOf(k, shift) < |t|
    requires PassedInsert(t, IndexOf(k, shift), d, k)
    requires var i := At(IndexOf(k, shift), d, |t|); i < |t| && !IsKey(t[i].key)
    ensures TableOk(t[At(IndexOf(k, shift), d, |t|) := Entry(k, v)], shift, m[k := v])
    ensures |m[k := v]| == |m| + 1
  {
    hide Reachable, IndexOf, NoKeyTwice, KeyCount, Stored;
    var home := IndexOf(k, shift);
    var i := At(home, d, |t|);
    var w := t[i := Entry(k, v)];
    NewReachable(t, shift, k, v, d);
    CountUpdate(t, i, Entry(k, v));
    AbsentNotHeld(t, shift, m, k);
    StillNoKeyTwice(t, i, Entry(k, v));
    assert m[k := v].Keys == m.Keys + {k};
    var more := m[k := v];
    forall j | 0 <= j < |w|
      ensures EntryOk(w, shift, more, j)
    {
      if j != i {
        EntryAt(t, shift, m, j);
        if IsKey(t[j].key) {
          ReachKept(t, w, shift, j);
        }
      }
    }
    forall x | x in m[k := v]
      ensures IsKey(x) && Stored(w, x)
    {
      StillStored(t, i, Entry(k, v), x);
    }
  }

  lemma AbsentNotHeld<V>(t: Table<V>, shift: nat, m: map<nat, V>, k: nat)
    requires TableOk(t, shift, m) && IsKey(k) && k !in m
    ensures !Stored(t, k)
  {
    if Stored(t, k) {
      var j :| 0 <= j < |t| && t[j].key == k;
      EntryAt(t, shift, m, j);
      assert false;
    }
  }

  lemma NewReachable<V>(t: Table<V>, shift: nat, k: nat, v: V, d: nat)
    requires d < |t| && IndexOf(k, shift) < |t| && PassedInsert(t, IndexOf(k, shift), d, k)
    requires At(IndexOf(k, shift), d, |t|) < |t|
    ensures var i := At(IndexOf(k, shift), d, |t|); Reachable(t[i := Entry(k, v)], shift, i)
  {
    hide IndexOf;
    var home := IndexOf(k, shift);
    DistAt(home, d, |t|);
    forall e | 0 <= e < d
      ensures t[At(home, e, |t|)].key != EMPTY && At(home, e, |t|) != At(home, d, |t|)
    {
      DistAt(home, e, |t|);
      assert !StopsInsert(t[At(home, e, |t|)], k);
    }
  }

  /** A stored key given a new value where it is. */
  lemma OverwriteStored<V>(t: Table<V>, shift: nat, m: map<nat, V>, j: nat, v: V)
    requires TableOk(t, shift, m) && j < |t| && IsKey(t[j].key)
    ensures TableOk(t[j := Entry(t[j].key, v)], shift, m[t[j].key := v])
    ensures |m[t[j].key := v]| == |m|
  {
    hide Reachable, IndexOf, NoKeyTwice, KeyCount, Stored;
    var k := t[j].key;
    var w := t[j := Entry(k, v)];
    CountUpdate(t, j, Entry(k, v));
    StillNoKeyTwice(t, j, Entry(k, v));
    EntryAt(t, shift, m, j);
    assert m[k := v].Keys == m.Keys;
    var same := m[k := v];
    forall i | 0 <= i < |w|
      ensures EntryOk(w, shift, same, i)
    {
      EntryAt(t, shift, m, i);
      if IsKey(t[i].key) {
        ReachKept(t, w, shift, i);
        if t[i].key == k {
          OnlySlot(t, i, j);
        }
      }
    }
    forall x | x in m[k := v]
      ensures IsKey(x) && Stored(w, x)
    {
      StillStored(t, j, Entry(k, v), x);
    }
  }

  /** A stored key replaced by a tombstone; no other key's path is broken. */
  lemma BuryStored<V>(t: Table<V>, shift: nat, m: map<nat, V>, j: nat)
    requires TableOk(t, shift, m) && j < |t| && IsKey(t[j].key)
    ensures TableOk(t[j := t[j].(key := TOMBSTONE)], shift, m - {t[j].key})
    ensures |m - {t[j].key}| == |m| - 1
  {
    hide Reachable, IndexOf, NoKeyTwice, KeyCount, Stored;
    var k := t[j].key;
    var w := t[j := t[j].(key := TOMBSTONE)];
    CountUpdate(t, j, w[j]);
    StillNoKeyTwice(t, j, w[j]);
    EntryAt(t, shift, m, j);
    assert (m - {k}).Keys == m.Keys - {k};
    var less := m - {k};
    forall i | 0 <= i < |w|
      ensures EntryOk(w, shift, less, i)
    {
      EntryAt(t, shift, m, i);
      if i != j && IsKey(t[i].key) {
        ReachKept(t, w, shift, i);
        if t[i].key == k {
          OnlySlot(t, i, j);
        }
      }
    }
    forall x | x in m - {k}
      ensures IsKey(x) && Stored(w, x)
    {
      StillStored(t, j, w[j], x);
    }
  }

  /** Reusing a tombstone on the way to a stored key stores that key twice. */
  lemma StoredTwice<V>(t: Table<V>, shift: nat, m: map<nat, V>, k: nat, v: V, i: nat)
    requires TableOk(t, shift, m) && k in m && i < |t| && !IsKey(t[i].key)
    ensures !NoKeyTwice(t[i := Entry(k, v)])
  {
    var w := t[i := Entry(k, v)];
    var j := SlotOf(t, shift, m, k);
    assert w[j].key == k && w[i].key == k && i != j;
  }

  /** No tombstone lies between the home of `k` and its slot. */
  ghost predicate PathClear<V>(t: Table<V>, shift: nat, k: nat) {
    forall j, d :: 0 <= j < |t| && t[j].key == k && 0 <= d < Dist(IndexOf(k, shift), j, |t|) ==>
      At(IndexOf(k, shift), d, |t|) < |t| && t[At(IndexOf(k, shift), d, |t|)].key != TOMBSTONE
  }

  /** On a clear path the insert of a stored key stops at the key itself. */
  lemma ClearPathFinds<V>(t: Table<V>, shift: nat, m: map<nat, V>, k: nat, d: nat)
    requires TableOk(t, shift, m) && k in m && PathClear(t, shift, k) && d < |t| && IndexOf(k, shift) < |t|
    requires At(IndexOf(k, shift), d, |t|) < |t|
    requires PassedInsert(t, IndexOf(k, shift), d, k) && StopsInsert(t[At(IndexOf(k, shift), d, |t|)], k)
    ensures t[At(IndexOf(k, shift), d, |t|)].key == k
  {
    hide IndexOf, NoKeyTwice, KeyCount;
    var j := SlotOf(t, shift, m, k);
    var home := IndexOf(k, shift);
    AtDist(home, j, |t|);
    DistAt(home, d, |t|);
    if d < Dist(home, j, |t|) {
      assert t[At(home, d, |t|)].key != TOMBSTONE;
    }
  }

  /** An insert that stops at the key itself has met no tombstone before it. */
  lemma StopsBehindNoTombstone<V>(t: Table<V>, shift: nat, m: map<nat, V>, k: nat, d: nat)
    requires TableOk(t, shift, m) && IsKey(k) && d < |t| && IndexOf(k, shift) < |t|
    requires At(IndexOf(k, shift), d, |t|) < |t| && t[At(IndexOf(k, shift), d, |t|)].key == k
    requires PassedInsert(t, IndexOf(k, shift), d, k)
    ensures PathClear(t, shift, k) && k in m
  {
    hide IndexOf, KeyCount;
    var home := IndexOf(k, shift);
    DistAt(home, d, |t|);
    EntryAt(t, shift, m, At(home, d, |t|));
    forall j, e | 0 <= j < |t| && t[j].key == k && 0 <= e < Dist(home, j, |t|)
      ensures At(home, e, |t|) < |t| && t[At(home, e, |t|)].key != TOMBSTONE
    {
      OnlySlot(t, At(home, d, |t|), j);
    }
  }

  /**
   Insert writes to the first slot `i` of the probe path that stops it. The table then stands for
   the updated map exactly when the key was absent or the probe reached the key's own slot: a
   tombstone in front of a stored key makes insert store that key a second time.
   */
  lemma InsertExactly<V>(t: Table<V>, shift: nat, m: map<nat, V>, k: nat, v: V, d: nat)
    requires TableOk(t, shift, m) && IsKey(k) && d < |t| && IndexOf(k, shift) < |t|
    requires At(IndexOf(k, shift), d, |t|) < |t|
    requires PassedInsert(t, IndexOf(k, shift), d, k) && StopsInsert(t[At(IndexOf(k, shift), d, |t|)], k)
    ensures var i := At(IndexOf(k, shift), d, |t|);
      TableOk(t[i := Entry(k, v)], shift, m[k := v]) <==> k !in m || t[i].key == k
  {
    hide IndexOf, NoKeyTwice, KeyCount, TableOk;
    var i := At(IndexOf(k, shift), d, |t|);
    if k !in m {
      AbsentNotHeld(t, shift, m, k);
      InsertAbsent(t, shift, m, k, v, d);
    } else if t[i].key == k {
      OverwriteStored(t, shift, m, i, v);
    } else {
      StoredTwice(t, shift, m, k, v, i);
      TwiceIsNoMap(t[i := Entry(k, v)], shift, m[k := v]);
    }
  }

  lemma TwiceIsNoMap<V>(t: Table<V>, shift: nat, m: map<nat, V>)
    requires !NoKeyTwice(t)
    ensures !TableOk(t, shift, m)
  {
  }
}
