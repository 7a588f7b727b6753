/**
 * The unsorted singly-linked list of lib/typesafe.h (TYPEDLIST_MAKEFUNCS).
 *
 * The head keeps `first`, a pointer to the slot that holds the last item's
 * successor (`last_next`, so that tail insertion is O(1)) and `count`.
 * `Items` is the ghost view: the items in list order.
 */
module TypedList {
  import opened Links

  /** The intended `add_after` puts `x` at the position after the anchor's, or at position 0. */
  lemma InsertAfterAt(s: seq<nat>, after: Ptr, x: nat, k: nat)
    requires after.Ref? ==> after.id in s
    requires k == if after == Null then 0 else IndexOf(s, after.id) + 1
    ensures InsertAfter(s, after, x) == s[..k] + [x] + s[k..]
  {
    if after == Null {
      assert s[..0] == [] && s[0..] == s;
    }
  }

  /** The list the intended `add_after` produces: `x` right after `after`, or first. */
  function InsertAfter(s: seq<nat>, after: Ptr, x: nat): (r: seq<nat>)
    requires after.Ref? ==> after.id in s
    ensures |r| == |s| + 1 && multiset(r) == multiset(s) + multiset{x}
    ensures after == Null ==> r[0] == x
    ensures after.Ref? ==> exists k :: 0 <= k < |s| && r[k] == after.id && r[k + 1] == x
  {
    if after == Null then [x] + s
    else
      var k := IndexOf(s, after.id);
      var r := s[..k + 1] + [x] + s[k + 1..];
      assert s == s[..k + 1] + s[k + 1..];
      assert r[k] == after.id && r[k + 1] == x;
      r
  }

  class SList {
    var first: Ptr
    var lastNext: Slot
    var count: nat
    /** The embedded `next` field of every item of the arena. */
    var next: map<nat, Ptr>
    ghost var Items: seq<nat>

    ghost predicate Valid()
      reads this
    {
      Linked(next, first, Items) && count == |Items| &&
      lastNext == SlotAt(Items, |Items|)
    }

    /** `*slot` */
    function Load(slot: Slot): Ptr
      reads this
      requires slot.NextField? ==> slot.owner in next
    {
      match slot
      case HeadFirst => first
      case NextField(x) => next[x]
    }

    /** `*slot = p` */
    method Store(slot: Slot, p: Ptr)
      modifies this
      ensures slot == HeadFirst ==> first == p && next == old(next)
      ensures slot.NextField? ==> first == old(first) && next == old(next)[slot.owner := p]
      ensures lastNext == old(lastNext) && count == old(count) && Items == old(Items)
    {
      match slot
      case HeadFirst => first := p;
      case NextField(x) => next := next[x := p];
    }

    /** `_init`: an empty list whose `last_next` designates the head's own `first`. */
    constructor Init()
      ensures Valid() && Items == []
      ensures first == Null && count == 0 && lastNext == HeadFirst
    {
      first, lastNext, count := Null, HeadFirst, 0;
      next := map[];
      Items := [];
    }

    /** `_add_head` */
    method AddHead(item: nat)
      requires Valid() && item !in Items
      modifies this
      ensures Valid() && Items == [item] + old(Items) && count == old(count) + 1
    {
      LinkedInsert(next, first, Items, 0, item);
      next := next[item := first];
      first := Ref(item);
      if lastNext == HeadFirst {
        lastNext := NextField(item);
      }
      count := count + 1;
      Items := [item] + Items;
    }

    /** `_add_tail` */
    method AddTail(item: nat)
      requires Valid() && item !in Items
      modifies this
      ensures Valid() && Items == old(Items) + [item] && count == old(count) + 1
      ensures lastNext == NextField(item)
    {
      LinkedInsert(next, first, Items, |Items|, item);
      assert Items[|Items|..] == [] && Items[..|Items|] == Items;
      next := next[item := Null];
      Store(lastNext, Ref(item));
      lastNext := NextField(item);
      count := count + 1;
      Items := Items + [item];
    }

    /**
     * `_add_after` as the source writes it: the slot is the head's `first`
     * when `after` is NOT null, and `after`'s own `next` field when it is null
     * (a null dereference). So for every anchor it can run with, it inserts
     * at the head.
     */
    method AddAfterAsWritten(after: Ptr, item: nat)
      requires Valid() && item !in Items
      requires after.Ref?
      modifies this
      ensures Valid() && Items == [item] + old(Items) && count == old(count) + 1
    {
      var nextp := HeadFirst;
      assert Items[..0] + [item] + Items[0..] == [item] + Items;
      LinkAt(nextp, item, 0);
    }

    /**
     * `_add_after` with the condition the other way round: a null anchor
     * inserts at the head, otherwise `item` goes right after `after`.
     */
    method AddAfter(after: Ptr, item: nat)
      requires Valid() && item !in Items
      requires after.Ref? ==> after.id in Items
      modifies this
      ensures Valid() && Items == InsertAfter(old(Items), after, item)
      ensures count == old(count) + 1
    {
      var nextp := if after == Null then HeadFirst else NextField(after.id);
      ghost var k := if after == Null then 0 else IndexOf(Items, after.id) + 1;
      InsertAfterAt(Items, after, item, k);
      LinkAt(nextp, item, k);
    }

    /**
     * The linking step of `_add_after`: `item` takes the place of the pointer
     * in `nextp`, the k-th position, and `last_next` follows it when `nextp`
     * was the final slot.
     */
    method LinkAt(nextp: Slot, item: nat, ghost k: nat)
      requires Valid() && item !in Items && k <= |Items| && nextp == SlotAt(Items, k)
      modifies this
      ensures Valid() && Items == old(Items)[..k] + [item] + old(Items)[k..]
      ensures count == old(count) + 1
    {
      assert Load(nextp) == HeadPtr(Items[k..]) by {
        if k == 0 {
          assert Items[0..] == Items;
        } else {
          LinkedAt(next, first, Items, k - 1);
        }
      }
      LinkedInsert(next, first, Items, k, item);
      SlotAtInsert(Items, k, item);
      next := next[item := Load(nextp)];
      Store(nextp, Ref(item));
      if lastNext == nextp {
        lastNext := NextField(item);
      }
      count := count + 1;
      Items := Items[..k] + [item] + Items[k..];
    }

    /** `_del`: unlink `item` if it is on the list; otherwise nothing changes. */
    method Del(item: nat)
      requires Valid()
      modifies this
      ensures Valid() && Items == Remove(old(Items), item)
      ensures count == |Items|
      ensures item !in old(Items) ==>
        first == old(first) && next == old(next) && lastNext == old(lastNext) && count == old(count)
    {
      var iter := HeadFirst;
      var cur := first;
      ghost var k := 0;
      while cur != Null && cur != Ref(item)
        invariant 0 <= k <= |Items|
        invariant iter == SlotAt(Items, k)
        invariant cur == Load(iter) == HeadPtr(Items[k..])
        invariant item !in Items[..k]
        decreases |Items| - k
      {
        iter := NextField(cur.id);
        cur := next[cur.id];
        k := k + 1;
      }
      if cur == Null {
        return;
      }
      SliceStep(Items, k);
      RemoveAt(Items, k);
      UnlinkAt(iter, item, k);
    }

    /**
     * The unlinking step of `_del`: the k-th item, which `iter` designates,
     * leaves the list, and `last_next` moves back to `iter` when it was last.
     */
    method UnlinkAt(iter: Slot, item: nat, ghost k: nat)
      requires Valid() && k < |Items| && Items[k] == item && iter == SlotAt(Items, k)
      modifies this
      ensures Valid() && Items == old(Items)[..k] + old(Items)[k + 1..]
    {
      ghost var rest := Items[..k] + Items[k + 1..];
      LinkedRemove(next, first, Items, k);
      LinkedAt(next, first, Items, k);
      SlotAtRemove(Items, k);
      count := count - 1;
      var succ := next[item];
      Store(iter, succ);
      if succ == Null {
        lastNext := iter;
      }
      Items := rest;
    }

    /** `_pop`: remove and return the first item, or null on an empty list. */
    method Pop() returns (r: Ptr)
      requires Valid()
      modifies this
      ensures Valid()
      ensures old(Items) == [] ==> r == Null && Items == []
      ensures old(Items) != [] ==> r == Ref(old(Items)[0]) && Items == old(Items)[1..]
      ensures count == |Items|
    {
      r := first;
      if r == Null {
        return;
      }
      LinkedRemove(next, first, Items, 0);
      count := count - 1;
      first := next[r.id];
      if first == Null {
        lastNext := HeadFirst;
      }
      Items := Items[1..];
    }

    /** `_first` */
    method First() returns (r: Ptr)
      requires Valid()
      ensures r == HeadPtr(Items)
    {
      r := first;
    }

    /** `_next` */
    method Next(item: nat) returns (r: Ptr)
      requires Valid() && item in Items
      ensures r == HeadPtr(Items[IndexOf(Items, item) + 1..])
    {
      LinkedSuccessor(next, first, Items, item);
      r := next[item];
    }

    /** `_next_safe`: like `_next`, but a null item has a null successor. */
    method NextSafe(item: Ptr) returns (r: Ptr)
      requires Valid() && (item.Ref? ==> item.id in Items)
      ensures item == Null ==> r == Null
      ensures item.Ref? ==> r == HeadPtr(Items[IndexOf(Items, item.id) + 1..])
    {
      if item == Null {
        return Null;
      }
      LinkedSuccessor(next, first, Items, item.id);
      r := next[item.id];
    }

    /** `_count` */
    method Count() returns (n: nat)
      requires Valid()
      ensures n == |Items|
    {
      n := count;
    }

    /** The `for_each` walk: `_first`, then `_next` until null, visits every item once, in order. */
    method Walk() returns (visited: seq<nat>)
      requires Valid()
      ensures visited == Items && |visited| == count
    {
      visited := [];
      var p := First();
      while p != Null
        invariant |visited| <= |Items| && visited == Items[..|visited|]
        invariant p == HeadPtr(Items[|visited|..])
        decreases |Items| - |visited|
      {
        SliceStep(Items, |visited|);
        IndexOfAt(Items, |visited|);
        visited := visited + [p.id];
        p := Next(p.id);
      }
      SliceStep(Items, |visited|);
    }

    /** `_del` applied to the first item. */
    method DelFirst(item: nat)
      requires Valid() && Items != [] && Items[0] == item
      modifies this
      ensures Valid() && Items == old(Items)[1..]
    {
      RemoveAt(Items, 0);
      Del(item);
    }

    /**
     * One round of `for_each_safe` whose body deletes the current item, the
     * first one: the item goes, and the walk moves on to the successor that
     * was saved before the body ran.
     */
    method DeleteAndAdvance(item: Ptr, safe: Ptr) returns (item': Ptr, safe': Ptr)
      requires Valid() && item != Null && item == HeadPtr(Items)
      requires safe == HeadPtr(Items[1..])
      modifies this
      ensures Valid() && Items == old(Items)[1..]
      ensures item' == HeadPtr(Items)
      ensures Items != [] ==> safe' == HeadPtr(Items[1..])
    {
      DelFirst(item.id);
      item' := safe;
      if item'.Ref? {
        IndexOfAt(Items, 0);
        assert item'.id == Items[0];
        assert IndexOf(Items, item'.id) == 0;
      }
      safe' := NextSafe(item');
    }

    /**
     * The `for_each_safe` walk with a body that deletes the current item: the
     * successor is fetched before the body runs, so every item is visited and
     * the list ends empty.
     */
    method DeleteEachSafe() returns (visited: seq<nat>)
      requires Valid()
      modifies this
      ensures Valid() && Items == [] && count == 0
      ensures visited == old(Items)
    {
      visited := [];
      ghost var items := Items;
      var item := First();
      if item.Ref? {
        IndexOfAt(Items, 0);
      }
      var safe := NextSafe(item);
      while item != Null
        invariant Valid() && |visited| <= |items|
        invariant visited == items[..|visited|] && Items == items[|visited|..]
        invariant item == HeadPtr(Items)
        invariant Items != [] ==> safe == HeadPtr(Items[1..])
        decreases |Items|
      {
        DrainStep(items, |visited|);
        visited := visited + [item.id];
        item, safe := DeleteAndAdvance(item, safe);
      }
    }
  }

  /** Items added at the head come back first: `_add_head` then `_pop` is the identity. */
  method AddHeadThenPop(l: SList, x: nat) returns (p: Ptr)
    requires l.Valid() && x !in l.Items
    modifies l
    ensures l.Valid() && p == Ref(x) && l.Items == old(l.Items)
  {
    l.AddHead(x);
    p := l.Pop();
  }

  /** Items added at the tail of an empty list are popped in insertion order. */
  method AddTailThenPopAll(l: SList, xs: seq<nat>) returns (popped: seq<Ptr>)
    requires l.Valid() && l.Items == [] && Distinct(xs)
    modifies l
    ensures l.Valid() && l.Items == []
    ensures popped == seq(|xs|, i requires 0 <= i < |xs| => Ref(xs[i]))
  {
    var i := 0;
    while i < |xs|
      invariant 0 <= i <= |xs| && l.Valid() && l.Items == xs[..i]
    {
      l.AddTail(xs[i]);
      i := i + 1;
    }
    assert xs[..i] == xs;
    popped := [];
    while |popped| < |xs|
      invariant |popped| <= |xs| && l.Valid() && l.Items == xs[|popped|..]
      invariant forall j :: 0 <= j < |popped| ==> popped[j] == Ref(xs[j])
    {
      var p := l.Pop();
      popped := popped + [p];
    }
  }
}
