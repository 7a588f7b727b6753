/**
 * The sorted singly-linked list of lib/typesafe.h (TYPEDSORT_MAKEFUNCS).
 *
 * The container's comparison function is modelled by a sort key: `cmpfn(a, b)`
 * is negative, zero or positive as `key(a)` is below, equal to or above
 * `key(b)`. Equal keys are allowed; the list never rejects an item.
 */
module TypedSort {
  import opened Links

  /** Keys never decrease along `s`. */
  ghost predicate Sorted(key: nat -> int, s: seq<nat>)
  {
    forall i, j :: 0 <= i < j < |s| ==> key(s[i]) <= key(s[j])
  }

  /** `s` with `x` placed before the first item whose key is not below `x`'s. */
  function InsertSorted(key: nat -> int, s: seq<nat>, x: nat): (r: seq<nat>)
    ensures |r| == |s| + 1 && multiset(r) == multiset(s) + multiset{x}
  {
    if s == [] || key(s[0]) >= key(x) then [x] + s
    else
      assert s == [s[0]] + s[1..];
      [s[0]] + InsertSorted(key, s[1..], x)
  }

  /** Inserting into a sorted list keeps it sorted. */
  lemma {:induction false} InsertSortedSorted(key: nat -> int, s: seq<nat>, x: nat)
    requires Sorted(key, s)
    ensures Sorted(key, InsertSorted(key, s, x))
  {
    if s == [] || key(s[0]) >= key(x) {
      SortedCons(key, x, s);
    } else {
      SortedTail(key, s);
      InsertSortedSorted(key, s[1..], x);
      var t := InsertSorted(key, s[1..], x);
      assert t[0] == x || t[0] == s[1..][0];
      SortedCons(key, s[0], t);
    }
  }

  /** The first item of a sorted list has the least key. */
  lemma SortedHeadMin(key: nat -> int, s: seq<nat>)
    requires Sorted(key, s) && s != []
    ensures forall y :: y in s ==> key(s[0]) <= key(y)
  {
    forall y | y in s
      ensures key(s[0]) <= key(y)
    {
      var j :| 0 <= j < |s| && s[j] == y;
      assert j == 0 || key(s[0]) <= key(s[j]);
    }
  }

  /** The rest of a sorted list is sorted. */
  lemma SortedTail(key: nat -> int, s: seq<nat>)
    requires Sorted(key, s) && s != []
    ensures Sorted(key, s[1..])
  {
    forall i, j | 0 <= i < j < |s| - 1
      ensures key(s[1..][i]) <= key(s[1..][j])
    {
      assert s[1..][i] == s[i + 1] && s[1..][j] == s[j + 1];
    }
  }

  /** An item whose key is at most the first key of a sorted list can go in front of it. */
  lemma SortedCons(key: nat -> int, x: nat, s: seq<nat>)
    requires Sorted(key, s) && (s != [] ==> key(x) <= key(s[0]))
    ensures Sorted(key, [x] + s)
  {
    forall i, j | 0 <= i < j < |s| + 1
      ensures key(([x] + s)[i]) <= key(([x] + s)[j])
    {
      assert ([x] + s)[j] == s[j - 1];
      if i > 0 {
        assert ([x] + s)[i] == s[i - 1];
      }
    }
  }

  /** The insertion point is the first index whose key is not below `x`'s. */
  lemma {:induction false} InsertSortedAt(key: nat -> int, s: seq<nat>, x: nat, k: nat)
    requires k <= |s|
    requires forall j :: 0 <= j < k ==> key(s[j]) < key(x)
    requires k == |s| || key(s[k]) >= key(x)
    ensures InsertSorted(key, s, x) == s[..k] + [x] + s[k..]
  {
    if k == 0 {
      assert s[..k] + [x] + s[k..] == [x] + s;
    } else {
      var t := s[1..];
      forall j | 0 <= j < k - 1
        ensures key(t[j]) < key(x)
      {
        assert t[j] == s[j + 1];
      }
      assert k - 1 == |t| || t[k - 1] == s[k];
      InsertSortedAt(key, t, x, k - 1);
      assert InsertSorted(key, s, x) == [s[0]] + InsertSorted(key, t, x);
      SpliceCons(s, x, k);
    }
  }

  /** Putting x at position k of s, for k > 0, is putting it at position k - 1 of the rest of s. */
  lemma SpliceCons(s: seq<nat>, x: nat, k: nat)
    requires 0 < k <= |s|
    ensures s[..k] + [x] + s[k..] == [s[0]] + (s[1..][..k - 1] + [x] + s[1..][k - 1..])
  {
    var t := s[1..];
    assert s[..k] == [s[0]] + t[..k - 1];
    assert t[k - 1..] == s[k..];
  }

  /** Taking an item out of a sorted list keeps it sorted. */
  lemma SortedRemove(key: nat -> int, s: seq<nat>, k: nat)
    requires Sorted(key, s) && k < |s|
    ensures Sorted(key, s[..k] + s[k + 1..])
  {
    var t := s[..k] + s[k + 1..];
    assert forall j :: 0 <= j < |t| ==> t[j] == if j < k then s[j] else s[j + 1];
  }

  /**
   * What `_find` as written returns: the first item whose key is not below
   * `target`, or null.
   */
  function FirstAtLeast(key: nat -> int, s: seq<nat>, target: int): (r: Ptr)
    ensures r.Ref? ==> r.id in s && key(r.id) >= target
    ensures r == Null <==> forall y :: y in s ==> key(y) < target
  {
    if s == [] then Null
    else if key(s[0]) >= target then Ref(s[0])
    else
      assert forall y :: y in s ==> y == s[0] || y in s[1..];
      FirstAtLeast(key, s[1..], target)
  }

  /** `_find` as written answers with an item of a different key: on the list [5], a lookup of 3 yields 5. */
  lemma FindAsWrittenReturnsLarger()
    ensures var r := FirstAtLeast(n => n as int, [5], 3); r == Ref(5) && r.id != 3
  {
  }

  class SortList {
    var first: Ptr
    var count: nat
    /** The embedded `next` field of every item of the arena. */
    var next: map<nat, Ptr>
    /** The comparison function, as a sort key. */
    const key: nat -> int
    ghost var Items: seq<nat>

    ghost predicate Valid()
      reads this
    {
      Linked(next, first, Items) && count == |Items| && Sorted(key, Items)
    }

    /** `*slot` */
    function Load(slot: Slot): Ptr
      reads this
      requires slot.NextField? ==> slot.owner in next
    {
      match slot
      case HeadFirst => first
      case NextField(x) => next[x]
    }

    /** `*slot = p` */
    method Store(slot: Slot, p: Ptr)
      modifies this
      ensures slot == HeadFirst ==> first == p && next == old(next)
      ensures slot.NextField? ==> first == old(first) && next == old(next)[slot.owner := p]
      ensures count == old(count) && Items == old(Items)
    {
      match slot
      case HeadFirst => first := p;
      case NextField(x) => next := next[x := p];
    }

    /** `_init` */
    constructor Init(key: nat -> int)
      ensures Valid() && Items == [] && this.key == key
      ensures first == Null && count == 0
    {
      first, count := Null, 0;
      next := map[];
      this.key := key;
      Items := [];
    }

    /** `_add`: link `item` in before the first item that does not compare below it. */
    method Add(item: nat)
      requires Valid() && item !in Items
      modifies this
      ensures Valid() && Items == InsertSorted(key, old(Items), item)
      ensures count == old(count) + 1
    {
      var np := HeadFirst;
      var cur := first;
      ghost var k := 0;
      while cur != Null && key(cur.id) < key(item)
        invariant 0 <= k <= |Items|
        invariant np == SlotAt(Items, k)
        invariant cur == Load(np) == HeadPtr(Items[k..])
        invariant forall j :: 0 <= j < k ==> key(Items[j]) < key(item)
        decreases |Items| - k
      {
        assert next[cur.id] == HeadPtr(Items[k + 1..]) by {
          SliceStep(Items, k);
          LinkedAt(next, first, Items, k);
        }
        np := NextField(cur.id);
        cur := next[cur.id];
        k := k + 1;
      }
      InsertSortedAt(key, Items, item, k);
      InsertSortedSorted(key, Items, item);
      LinkAt(np, cur, item, k);
    }

    /** The linking step of `_add`: `item` goes in at position k, the place `np` designates. */
    method LinkAt(np: Slot, cur: Ptr, item: nat, ghost k: nat)
      requires Linked(next, first, Items) && count == |Items| && item !in Items && k <= |Items|
      requires np == SlotAt(Items, k)
      requires cur == HeadPtr(Items[k..])
      modifies this
      ensures Linked(next, first, Items) && count == |Items|
      ensures Items == old(Items)[..k] + [item] + old(Items)[k..]
    {
      LinkedInsert(next, first, Items, k, item);
      next := next[item := cur];
      Store(np, Ref(item));
      count := count + 1;
      Items := Items[..k] + [item] + Items[k..];
    }

    /**
     * `_find` as written: the assignment binds `cmpval` to the truth value of
     * `cmpfn(...) < 0`, so the walk stops at the first item that does not
     * compare below `x` and returns it whether or not it compares equal.
     */
    method FindAsWritten(x: nat) returns (r: Ptr)
      requires Valid()
      ensures r == FirstAtLeast(key, Items, key(x))
    {
      var cur := first;
      ghost var k := 0;
      var cmpval := 0;
      while true
        invariant 0 <= k <= |Items|
        invariant cur == HeadPtr(Items[k..])
        invariant FirstAtLeast(key, Items[k..], key(x)) == FirstAtLeast(key, Items, key(x))
        decreases |Items| - k
      {
        if cur == Null {
          break;
        }
        cmpval := if key(cur.id) < key(x) then 1 else 0;
        if cmpval == 0 {
          break;
        }
        assert Items[k..][1..] == Items[k + 1..];
        cur := next[cur.id];
        k := k + 1;
      }
      if cur == Null || cmpval > 0 {
        return Null;
      }
      r := cur;
    }

    /** `_find` with `cmpval` holding the comparison itself: the first item of equal key, or null. */
    method Find(x: nat) returns (r: Ptr)
      requires Valid()
      ensures r.Ref? ==> r.id in Items && key(r.id) == key(x)
      ensures r.Ref? ==> forall j :: 0 <= j < IndexOf(Items, r.id) ==> key(Items[j]) != key(x)
      ensures r == Null <==> forall y :: y in Items ==> key(y) != key(x)
    {
      var cur := first;
      ghost var k := 0;
      while cur != Null && key(cur.id) < key(x)
        invariant 0 <= k <= |Items|
        invariant cur == HeadPtr(Items[k..])
        invariant forall j :: 0 <= j < k ==> key(Items[j]) < key(x)
        decreases |Items| - k
      {
        cur := next[cur.id];
        k := k + 1;
      }
      if cur == Null || key(cur.id) > key(x) {
        forall y | y in Items
          ensures key(y) != key(x)
        {
          var j :| 0 <= j < |Items| && Items[j] == y;
          if j >= k {
            assert key(Items[k]) <= key(Items[j]);
          }
        }
        return Null;
      }
      assert Items[k] == cur.id;
      r := cur;
    }

    /** `_del`: unlink `item` if it is on the list; otherwise nothing changes. */
    method Del(item: nat)
      requires Valid()
      modifies this
      ensures Valid() && Items == Remove(old(Items), item)
      ensures count == |Items|
      ensures item !in old(Items) ==> first == old(first) && next == old(next) && count == old(count)
    {
      var iter := HeadFirst;
      var cur := first;
      ghost var k := 0;
      while cur != Null && cur != Ref(item)
        invariant 0 <= k <= |Items|
        invariant iter == SlotAt(Items, k)
        invariant cur == Load(iter) == HeadPtr(Items[k..])
        invariant item !in Items[..k]
        decreases |Items| - k
      {
        iter := NextField(cur.id);
        cur := next[cur.id];
        k := k + 1;
      }
      if cur == Null {
        return;
      }
      SliceStep(Items, k);
      RemoveAt(Items, k);
      UnlinkAt(iter, item, k);
    }

    /** The unlinking step of `_del`: the k-th item, which `iter` designates, leaves the list. */
    method UnlinkAt(iter: Slot, item: nat, ghost k: nat)
      requires Valid() && k < |Items| && Items[k] == item && iter == SlotAt(Items, k)
      modifies this
      ensures Valid() && Items == old(Items)[..k] + old(Items)[k + 1..]
    {
      LinkedRemove(next, first, Items, k);
      SortedRemove(key, Items, k);
      count := count - 1;
      Store(iter, next[item]);
      Items := Items[..k] + Items[k + 1..];
    }

    /** `_pop`: remove and return the item of least key, or null on an empty list. */
    method Pop() returns (r: Ptr)
      requires Valid()
      modifies this
      ensures Valid() && count == |Items|
      ensures old(Items) == [] ==> r == Null && Items == []
      ensures old(Items) != [] ==> r == Ref(old(Items)[0]) && Items == old(Items)[1..]
      ensures r.Ref? ==> forall y :: y in old(Items) ==> key(r.id) <= key(y)
    {
      r := first;
      if r == Null {
        return;
      }
      SortedHeadMin(key, Items);
      LinkedTail(next, Items);
      SortedTail(key, Items);
      count := count - 1;
      first := next[r.id];
      Items := Items[1..];
    }

    /** `_first`: the item of least key. */
    method First() returns (r: Ptr)
      requires Valid()
      ensures r == HeadPtr(Items)
      ensures r.Ref? ==> forall y :: y in Items ==> key(r.id) <= key(y)
    {
      r := first;
    }

    /** `_next` */
    method Next(item: nat) returns (r: Ptr)
      requires Valid() && item in Items
      ensures r == HeadPtr(Items[IndexOf(Items, item) + 1..])
      ensures r.Ref? ==> key(item) <= key(r.id)
    {
      LinkedSuccessor(next, first, Items, item);
      r := next[item];
      if r.Ref? {
        var k := IndexOf(Items, item);
        assert r.id == Items[k + 1];
      }
    }

    /** `_next_safe`: like `_next`, but a null item has a null successor. */
    method NextSafe(item: Ptr) returns (r: Ptr)
      requires Valid() && (item.Ref? ==> item.id in Items)
      ensures item == Null ==> r == Null
      ensures item.Ref? ==> r == HeadPtr(Items[IndexOf(Items, item.id) + 1..])
    {
      if item == Null {
        return Null;
      }
      LinkedSuccessor(next, first, Items, item.id);
      r := next[item.id];
    }

    /** `_count` */
    method Count() returns (n: nat)
      requires Valid()
      ensures n == |Items|
    {
      n := count;
    }

    /** The `for_each` walk visits every item once, in non-decreasing key order. */
    method Walk() returns (visited: seq<nat>)
      requires Valid()
      ensures visited == Items && Sorted(key, visited)
    {
      visited := [];
      var p := First();
      while p != Null
        invariant |visited| <= |Items| && visited == Items[..|visited|]
        invariant p == HeadPtr(Items[|visited|..])
        decreases |Items| - |visited|
      {
        SliceStep(Items, |visited|);
        IndexOfAt(Items, |visited|);
        visited := visited + [p.id];
        p := Next(p.id);
      }
      SliceStep(Items, |visited|);
    }
  }
}
