/** The fixed-capacity object pool whose free list is threaded through its own free slots. */
module Pools {
  type Handle = nat

  // The all-ones 32-bit handle.
  const NULL: Handle := 0xFFFF_FFFF

  datatype FreeListPolicy = Lifo | Fifo

  /** One slot: the stored value or, while free, the handle of the next free slot. */
  datatype Node<T> = Value(value: T) | NextFree(next: Handle)

  ghost predicate Distinct(s: seq<Handle>) {
    forall i, j :: 0 <= i < j < |s| ==> s[i] != s[j]
  }

  function HeadOf(s: seq<Handle>): Handle {
    if s == [] then NULL else s[0]
  }

  function LastOf(s: seq<Handle>): Handle {
    if s == [] then NULL else s[|s| - 1]
  }

  /** The element after position `i`, or NULL at the end. */
  function After(s: seq<Handle>, i: nat): Handle
    requires i < |s|
  {
    if i + 1 < |s| then s[i + 1] else NULL
  }

  /** The element before position `i`, or NULL at the front. */
  function Before(s: seq<Handle>, i: nat): Handle
    requires i < |s|
  {
    if i > 0 then s[i - 1] else NULL
  }

  /** The free list is a duplicate-free chain through the `NextFree` links. */
  ghost predicate FreeChain<T>(nodes: seq<Node<T>>, free: seq<Handle>) {
    && Distinct(free)
    && forall i :: 0 <= i < |free| ==> free[i] < |nodes| && nodes[free[i]] == NextFree(After(free, i))
  }

  /** Distinct handles below `n` number at most `n`. */
  lemma {:induction false} DistinctFits(s: seq<Handle>, n: nat)
    requires Distinct(s) && forall i :: 0 <= i < |s| ==> s[i] < n
    ensures |s| <= n
    decreases n
  {
    if s != [] {
      assert s[0] < n;
      if i :| 0 <= i < |s| && s[i] == n - 1 {
        var w := s[..i] + s[i + 1..];
        assert forall j :: 0 <= j < |w| ==> w[j] == if j < i then s[j] else s[j + 1];
        DistinctFits(w, n - 1);
      } else {
        DistinctFits(s, n - 1);
      }
    }
  }

  ghost function Counting(n: nat): (s: seq<Handle>)
    ensures |s| == n && forall i :: 0 <= i < n ==> s[i] == i
  {
    seq(n, i => i)
  }

  /** The slots of a new pool, each linked to the next one. */
  method Threaded<T>(capacity: nat) returns (nodes: array<Node<T>>)
    ensures fresh(nodes) && nodes.Length == capacity
    ensures forall i :: 0 <= i < capacity ==> nodes[i] == NextFree(if i + 1 < capacity then i + 1 else NULL)
  {
    nodes := new Node<T>[capacity](_ => NextFree(NULL));
    var i := 0;
    while i + 1 < capacity
      invariant 0 <= i <= capacity && (capacity > 0 ==> i <= capacity - 1)
      invariant forall j :: 0 <= j < i ==> nodes[j] == NextFree(j + 1)
      invariant forall j :: i <= j < capacity ==> nodes[j] == NextFree(NULL)
    {
      nodes[i] := NextFree(i + 1);
      i := i + 1;
    }
  }

  class Pool<T> {
    const policy: FreeListPolicy
    const nodes: array<Node<T>>
    var freeHead: Handle
    var freeTail: Handle
    var inUse: nat
    /** The free handles, next to be handed out first. */
    ghost var free: seq<Handle>

    ghost predicate Valid()
      reads this, nodes
    {
      && nodes.Length <= NULL
      && FreeChain(nodes[..], free)
      && freeHead == HeadOf(free)
      && (policy.Fifo? ==> freeTail == LastOf(free))
      && inUse + |free| == nodes.Length
    }

    /** The handle is out on loan. */
    ghost predicate Taken(h: Handle)
      reads this
    {
      h < nodes.Length && h !in free
    }

    constructor (policy: FreeListPolicy, capacity: nat)
      requires capacity <= NULL
      ensures Valid() && fresh(nodes) && this.policy == policy && nodes.Length == capacity
      ensures inUse == 0 && |free| == capacity && forall i :: 0 <= i < capacity ==> free[i] == i
      ensures forall h :: 0 <= h < capacity ==> nodes[h].NextFree?
    {
      this.policy := policy;
      var threaded := Threaded<T>(capacity);
      nodes := threaded;
      freeHead := if capacity > 0 then 0 else NULL;
      freeTail := if capacity > 0 && policy.Fifo? then capacity - 1 else NULL;
      inUse := 0;
      free := Counting(capacity);
      new;
    }

    /** Hands out the front of the free list, or NULL when every slot is taken. */
    method Allocate() returns (h: Handle)
      requires Valid()
      modifies this
      ensures Valid()
      ensures h == NULL <==> old(free) == []
      ensures h == NULL <==> old(inUse) == nodes.Length
      ensures h == NULL ==> free == [] && inUse == old(inUse)
      ensures h != NULL ==> old(free) == [h] + free && Taken(h) && inUse == old(inUse) + 1
    {
      if freeHead == NULL {
        return NULL;
      }
      h := freeHead;
      assert nodes[h] == NextFree(After(free, 0));
      freeHead := nodes[h].next;
      if policy.Fifo? {
        if freeHead == NULL {
          freeTail := NULL;
        }
      }
      inUse := inUse + 1;
      TailIsChain(nodes[..], free);
      free := free[1..];
    }

    /** Takes a handle back: to the front of the list (LIFO) or to its end (FIFO). */
    method Deallocate(h: Handle)
      requires Valid() && Taken(h)
      modifies this, nodes
      ensures Valid()
      ensures free == if policy.Lifo? then [h] + old(free) else old(free) + [h]
      ensures inUse == old(inUse) - 1
      ensures forall k :: 0 <= k < nodes.Length && k !in old(free) && k != h ==> nodes[k] == old(nodes[k])
      ensures forall k :: 0 <= k < nodes.Length && k in free ==> nodes[k].NextFree?
    {
      ghost var before := nodes[..];
      TakenLeavesRoom(before, free, h);
      if policy.Fifo? {
        nodes[h] := NextFree(NULL);
        if freeTail != NULL {
          nodes[freeTail] := NextFree(h);
        } else {
          freeHead := h;
        }
        freeTail := h;
        PushBack(before, free, h, nodes[..]);
        free := free + [h];
      } else {
        nodes[h] := NextFree(freeHead);
        freeHead := h;
        PushFront(before, free, h);
        assert nodes[..] == before[h := NextFree(HeadOf(free))];
        free := [h] + free;
      }
      inUse := inUse - 1;
    }

    /** Stores through a handle that is out on loan. */
    method Put(h: Handle, value: T)
      requires Valid() && Taken(h)
      modifies nodes
      ensures Valid()
      ensures nodes[..] == old(nodes[..])[h := Value(value)]
    {
      ghost var before := nodes[..];
      nodes[h] := Value(value);
      assert nodes[..] == before[h := Value(value)];
      forall i | 0 <= i < |free|
        ensures free[i] < |nodes[..]| && nodes[..][free[i]] == NextFree(After(free, i))
      {
        assert free[i] in free;
        assert before[free[i]] == NextFree(After(free, i));
      }
    }
  }

  lemma TailIsChain<T>(nodes: seq<Node<T>>, free: seq<Handle>)
    requires FreeChain(nodes, free) && free != []
    ensures FreeChain(nodes, free[1..]) && free[0] !in free[1..]
  {
    forall i | 0 <= i < |free| - 1
      ensures nodes[free[1..][i]] == NextFree(After(free[1..], i))
    {
      assert nodes[free[i + 1]] == NextFree(After(free, i + 1));
    }
  }

  lemma TakenLeavesRoom<T>(nodes: seq<Node<T>>, free: seq<Handle>, h: Handle)
    requires FreeChain(nodes, free) && h < |nodes| && h !in free
    ensures |free| < |nodes|
  {
    DistinctFits(free + [h], |nodes|);
  }

  lemma PushFront<T>(nodes: seq<Node<T>>, free: seq<Handle>, h: Handle)
    requires FreeChain(nodes, free) && h < |nodes| && h !in free
    ensures FreeChain(nodes[h := NextFree(HeadOf(free))], [h] + free)
  {
    var w := [h] + free;
    forall i | 0 <= i < |w|
      ensures w[i] < |nodes| && nodes[h := NextFree(HeadOf(free))][w[i]] == NextFree(After(w, i))
    {
      if i > 0 {
        assert free[i - 1] in free;
        assert nodes[free[i - 1]] == NextFree(After(free, i - 1));
      }
    }
  }

  lemma PushBack<T>(nodes: seq<Node<T>>, free: seq<Handle>, h: Handle, after: seq<Node<T>>)
    requires FreeChain(nodes, free) && h < |nodes| && h !in free && |after| == |nodes|
    requires after[h] == NextFree(NULL)
    requires free != [] ==> after[LastOf(free)] == NextFree(h)
    requires forall k :: 0 <= k < |nodes| && k != h && k != LastOf(free) ==> after[k] == nodes[k]
    ensures FreeChain(after, free + [h])
  {
    var w := free + [h];
    forall i | 0 <= i < |w|
      ensures w[i] < |nodes| && after[w[i]] == NextFree(After(w, i))
    {
      if i < |free| {
        assert free[i] in free;
        assert nodes[free[i]] == NextFree(After(free, i));
      }
    }
  }
}
