/** The open-addressed hash map: linear probing, tombstones, fixed power-of-two capacity. */
module FlatMaps {
  import opened Types
  import opened Bits
  import opened FlatTables

  class FlatMap<V(==)> {
    const slots: array<Entry<V>>
    const mask: nat
    const shift: nat
    var count: nat
    ghost const bits: nat
    /** The map the table stands for, and how many inserts there have been. */
    ghost var content: map<nat, V>
    ghost var inserts: nat

    ghost predicate Shaped()
      reads this
    {
      bits <= 64 && slots.Length == Pow2(bits) && mask == Pow2(bits) - 1 && shift == 64 - bits
    }

    ghost predicate Valid()
      reads this, slots
    {
      && Shaped()
      && TableOk(slots[..], shift, content)
      && count == |content|
      && EmptyCount(slots[..]) + inserts >= slots.Length
    }

    ghost predicate HasEmpty()
      reads this, slots
    {
      Stored(slots[..], EMPTY)
    }

    constructor (expected: nat, blank: V)
      requires expected <= 0x4000_0000_0000_0000
      ensures Valid() && fresh(slots)
      ensures content == map[] && inserts == 0
      ensures slots.Length == CapacityFor(expected)
    {
      hide TableOk, EmptyCount;
      var cap, log := Capacity(expected);
      var s := ShiftFor(cap, log);
      slots := new Entry<V>[cap](_ => Entry(EMPTY, blank));
      mask := cap - 1;
      shift := s;
      count := 0;
      bits := log;
      content := map[];
      inserts := 0;
      new;
      FreshTable(slots[..], shift);
    }

    /** Doubles from 16 until twice the expected count fits. */
    static method Capacity(expected: nat) returns (cap: nat, ghost log: nat)
      requires expected <= 0x4000_0000_0000_0000
      ensures 4 <= log <= 63 && cap == Pow2(log) && cap == CapacityFor(expected)
    {
      cap, log := 16, 4;
      Pow2Word();
      assert Pow2(63) * 2 == Pow2(64);
      while cap < expected * 2
        invariant 4 <= log <= 63 && cap == Pow2(log) && CapacityFor(expected) == Doubled(cap, 2 * expected)
        decreases 63 - log
      {
        if log == 63 {
          assert false;
        }
        cap := cap * 2;
        log := log + 1;
      }
    }

    /** Counts the halvings of the capacity down from 64. */
    static method ShiftFor(cap: nat, ghost log: nat) returns (shift: nat)
      requires cap == Pow2(log) && log <= 64
      ensures shift == 64 - log
    {
      shift := 64;
      var v := cap;
      ghost var left: nat := log;
      while v > 1
        invariant left <= log && v == Pow2(left) && shift == 64 - (log - left)
        decreases left
      {
        v := v / 2;
        left := left - 1;
        shift := shift - 1;
      }
      if left > 0 {
        assert false;
      }
    }

    /** Where a find or erase of `k` stops. */
    method Probe(k: nat) returns (i: nat)
      requires Valid() && IsKey(k) && (k in content || HasEmpty())
      ensures i < slots.Length
      ensures if k in content then slots[i].key == k && slots[i].value == content[k] else slots[i].key == EMPTY
    {
      hide TableOk, EmptyCount, IndexOf, And, At, Passed, Stored, Pow2;
      ghost var t := slots[..];
      IndexBelow(k, bits);
      ghost var stop := StopDistance(t, shift, content, k);
      i := IndexOf(k, shift);
      PathStarts(t, i, k);
      ghost var home, d := i, 0;
      while !(slots[i].key == k || slots[i].key == EMPTY)
        invariant i < slots.Length && 0 <= d <= stop < |t| && i == At(home, d, |t|)
        invariant Passed(t, home, d, k)
        modifies {}
        decreases stop - d
      {
        NextSlot(home, d, bits);
        PathGoesOn(t, home, d, k);
        i := And(i + 1, mask);
        d := d + 1;
      }
      ProbeVerdict(t, shift, content, k, d);
    }

    method Find(k: nat) returns (v: Option<V>)
      requires Valid() && IsKey(k) && (k in content || HasEmpty())
      ensures v == if k in content then Some(content[k]) else None
    {
      hide TableOk, EmptyCount;
      var i := Probe(k);
      v := if slots[i].key == k then Some(slots[i].value) else None;
    }

    /** Marks the slot of `k` with a tombstone. */
    method Erase(k: nat) returns (found: bool)
      requires Valid() && IsKey(k) && (k in content || HasEmpty())
      modifies this, slots
      ensures Valid() && inserts == old(inserts)
      ensures found == (k in old(content)) && content == old(content) - {k}
      ensures old(HasEmpty()) ==> HasEmpty()
    {
      hide TableOk, EmptyCount, Stored, NoKeyTwice;
      var i := Probe(k);
      if slots[i].key == EMPTY {
        assert content - {k} == content;
        return false;
      }
      ghost var t := slots[..];
      BuryStored(t, shift, content, i);
      CountUpdate(t, i, t[i].(key := TOMBSTONE));
      NoEmpty(t);
      NoEmpty(t[i := t[i].(key := TOMBSTONE)]);
      slots[i] := slots[i].(key := TOMBSTONE);
      assert slots[..] == t[i := t[i].(key := TOMBSTONE)];
      content := content - {k};
      count := count - 1;
      return true;
    }

    /** Where an insert of `k` stops. */
    method ProbeInsert(k: nat) returns (i: nat, ghost d: nat)
      requires Valid() && IsKey(k) && (k in content || |content| < slots.Length)
      ensures d < slots.Length && IndexOf(k, shift) < slots.Length
      ensures i == At(IndexOf(k, shift), d, slots.Length) < slots.Length
      ensures PassedInsert(slots[..], IndexOf(k, shift), d, k) && StopsInsert(slots[..][i], k)
    {
      hide TableOk, EmptyCount, IndexOf, And, At, PassedInsert, Stored, Pow2;
      ghost var t := slots[..];
      IndexBelow(k, bits);
      ghost var stop := InsertDistance(t, shift, content, k);
      i := IndexOf(k, shift);
      PathStarts(t, i, k);
      ghost var home := i;
      d := 0;
      while !(slots[i].key == EMPTY || slots[i].key == TOMBSTONE) && slots[i].key != k
        invariant i < slots.Length && 0 <= d <= stop < |t| && i == At(home, d, |t|)
        invariant PassedInsert(t, home, d, k)
        modifies {}
        decreases stop - d
      {
        NextSlot(home, d, bits);
        InsertPathGoesOn(t, home, d, k);
        i := And(i + 1, mask);
        d := d + 1;
      }
    }

    /** Insert will not meet a tombstone in front of the key it is to overwrite. */
    ghost predicate InsertsCleanly(k: nat)
      reads this, slots
    {
      k !in content || PathClear(slots[..], shift, k)
    }

    /**
     Stores `k` in the first slot of its probe path that is free or already holds it. A tombstone in
     front of the stored key makes that a second slot for the same key, and the table no map at all.
     */
    method Insert(k: nat, v: V)
      requires Valid() && IsKey(k) && (k in content || |content| < slots.Length)
      modifies this, slots
      ensures old(InsertsCleanly(k)) ==>
                && Valid() && inserts == old(inserts) + (if k in old(content) then 0 else 1)
                && content == old(content)[k := v]
      ensures !old(InsertsCleanly(k)) ==>
                !NoKeyTwice(slots[..]) && count == old(count) + 1
    {
      hide TableOk, EmptyCount, IndexOf, NoKeyTwice, Stored, PathClear, PassedInsert;
      ghost var t := slots[..];
      var i;
      ghost var d;
      i, d := ProbeInsert(k);
      CountUpdate(t, i, Entry(k, v));
      if slots[i].key == EMPTY || slots[i].key == TOMBSTONE {
        if k in content {
          if PathClear(t, shift, k) {
            ClearPathFinds(t, shift, content, k, d);
            assert false;
          }
          StoredTwice(t, shift, content, k, v, i);
        } else {
          InsertAbsent(t, shift, content, k, v, d);
        }
        count := count + 1;
        inserts := inserts + 1;
      } else {
        StopsBehindNoTombstone(t, shift, content, k, d);
        EntryAt(t, shift, content, i);
        OverwriteStored(t, shift, content, i, v);
      }
      slots[i] := Entry(k, v);
      assert slots[..] == t[i := Entry(k, v)];
      content := content[k := v];
    }

    method Size() returns (n: nat)
      requires Valid()
      ensures n == |content|
    {
      n := count;
    }

    /** Fewer inserts than slots: an empty slot must be left, so no probe can run on for ever. */
    lemma BudgetLeavesEmpty()
      requires Valid() && inserts < slots.Length
      ensures HasEmpty()
    {
      NoEmpty(slots[..]);
    }
  }

  lemma FreshTable<V>(t: Table<V>, shift: nat)
    requires forall j :: 0 <= j < |t| ==> t[j].key == EMPTY
    ensures TableOk(t, shift, map[]) && EmptyCount(t) == |t|
  {
    FreshCounts(t);
  }

  lemma {:induction false} FreshCounts<V>(t: Table<V>)
    requires forall j :: 0 <= j < |t| ==> t[j].key == EMPTY
    ensures KeyCount(t) == 0 && EmptyCount(t) == |t|
  {
    if t != [] {
      FreshCounts(t[1..]);
    }
  }

  /** One probe step moves one slot on around the table. */
  lemma NextSlot(home: nat, d: nat, bits: nat)
    requires home < Pow2(bits) && d + 1 < Pow2(bits)
    ensures And(At(home, d, Pow2(bits)) + 1, Pow2(bits) - 1) == At(home, d + 1, Pow2(bits))
    ensures At(home, d + 1, Pow2(bits)) < Pow2(bits)
  {
    DistAt(home, d, Pow2(bits));
    MaskedSuccessor(At(home, d, Pow2(bits)), bits);
  }

  /** How far the probe for `k` goes at most. */
  lemma StopDistance<V>(t: Table<V>, shift: nat, m: map<nat, V>, k: nat) returns (d: nat)
    requires TableOk(t, shift, m) && IsKey(k) && (k in m || Stored(t, EMPTY)) && IndexOf(k, shift) < |t|
    ensures d < |t| && At(IndexOf(k, shift), d, |t|) < |t| && StopsFind(t[At(IndexOf(k, shift), d, |t|)], k)
  {
    var j: nat;
    if k in m {
      j := SlotOf(t, shift, m, k);
    } else {
      j :| j < |t| && t[j].key == EMPTY;
    }
    AtDist(IndexOf(k, shift), j, |t|);
    d := Dist(IndexOf(k, shift), j, |t|);
  }

  /** How far an insert goes at most. */
  lemma InsertDistance<V>(t: Table<V>, shift: nat, m: map<nat, V>, k: nat) returns (d: nat)
    requires TableOk(t, shift, m) && IsKey(k) && (k in m || |m| < |t|) && IndexOf(k, shift) < |t|
    ensures d < |t| && At(IndexOf(k, shift), d, |t|) < |t| && StopsInsert(t[At(IndexOf(k, shift), d, |t|)], k)
  {
    var j: nat;
    if k in m {
      j := SlotOf(t, shift, m, k);
    } else {
      j := RoomLeft(t, shift, m);
      EntryAt(t, shift, m, j);
    }
    AtDist(IndexOf(k, shift), j, |t|);
    d := Dist(IndexOf(k, shift), j, |t|);
  }

  lemma ProbeVerdict<V>(t: Table<V>, shift: nat, m: map<nat, V>, k: nat, d: nat)
    requires TableOk(t, shift, m) && IsKey(k) && d < |t| && IndexOf(k, shift) < |t|
    requires At(IndexOf(k, shift), d, |t|) < |t| && StopsFind(t[At(IndexOf(k, shift), d, |t|)], k)
    requires Passed(t, IndexOf(k, shift), d, k)
    ensures var e := t[At(IndexOf(k, shift), d, |t|)];
      if k in m then e.key == k && e.value == m[k] else e.key == EMPTY
  {
    EntryAt(t, shift, m, At(IndexOf(k, shift), d, |t|));
    if t[At(IndexOf(k, shift), d, |t|)].key == EMPTY {
      StoppedAtEmpty(t, shift, m, k, d);
    }
  }
}
