/**
 * Intrusive singly-linked chains over an arena of items.
 *
 * The containers of lib/typesafe.h embed a `next` pointer in every item.
 * Here an item is a natural-number id, a pointer is `Ptr`, and the embedded
 * link fields of all items are a map from item id to pointer. A chain is
 * described by the sequence of ids it visits.
 */
module Links {

  /** A nullable pointer to an item. */
  datatype Ptr = Null | Ref(id: nat)

  /** A place holding a pointer: the head's `first` field or an item's `next` field. */
  datatype Slot = HeadFirst | NextField(owner: nat)

  /**
   * The place that holds the pointer to the k-th item of a chain visiting
   * `s`: the head's `first` for k == 0, otherwise the `next` field of the
   * item before. For k == |s| it is the place that holds the final null.
   */
  function SlotAt(s: seq<nat>, k: nat): Slot
    requires k <= |s|
  {
    if k == 0 then HeadFirst else NextField(s[k - 1])
  }

  /** The pointer that starts a chain visiting `s`. */
  function HeadPtr(s: seq<nat>): (p: Ptr)
    ensures p == Null <==> s == []
  {
    if s == [] then Null else Ref(s[0])
  }

  /** The pointer stored after the k-th item of a chain visiting `s`. */
  function After(s: seq<nat>, k: nat): Ptr
    requires k < |s|
  {
    if k + 1 < |s| then Ref(s[k + 1]) else Null
  }

  ghost predicate Distinct(s: seq<nat>)
  {
    forall i, j :: 0 <= i < j < |s| ==> s[i] != s[j]
  }

  /** `s` is exactly the chain that starts at `start` and follows `next`. */
  ghost predicate Linked(next: map<nat, Ptr>, start: Ptr, s: seq<nat>)
  {
    start == HeadPtr(s) && Distinct(s) &&
    (forall k {:trigger s[k] in next} :: 0 <= k < |s| ==> s[k] in next) &&
    forall k {:trigger next[s[k]]} :: 0 <= k < |s| ==> next[s[k]] == After(s, k)
  }

  /** The index of the first occurrence of `x` in `s`. */
  function IndexOf(s: seq<nat>, x: nat): (k: nat)
    requires x in s
    ensures k < |s| && s[k] == x
    ensures forall j :: 0 <= j < k ==> s[j] != x
  {
    if s[0] == x then 0 else 1 + IndexOf(s[1..], x)
  }

  /** `s` with the first occurrence of `x` taken out. */
  function Remove(s: seq<nat>, x: nat): (r: seq<nat>)
    ensures x !in s ==> r == s
    ensures |r| == if x in s then |s| - 1 else |s|
    ensures multiset(r) == multiset(s) - multiset{x}
  {
    if x in s then
      var k := IndexOf(s, x);
      assert s == s[..k] + [x] + s[k + 1..];
      s[..k] + s[k + 1..]
    else s
  }

  lemma RemoveAt(s: seq<nat>, k: nat)
    requires k < |s| && Distinct(s)
    ensures Remove(s, s[k]) == s[..k] + s[k + 1..]
  {
    assert IndexOf(s, s[k]) == k;
  }

  /** Linking through a map does not look at entries off the chain. */
  lemma LinkedFrame(next: map<nat, Ptr>, next': map<nat, Ptr>, start: Ptr, s: seq<nat>)
    requires Linked(next, start, s)
    requires forall x :: x in s ==> x in next' && next'[x] == next[x]
    ensures Linked(next', start, s)
  {
  }

  /** A chain is determined by its start pointer. */
  lemma {:induction false} LinkedUnique(next: map<nat, Ptr>, start: Ptr, s: seq<nat>, t: seq<nat>)
    requires Linked(next, start, s) && Linked(next, start, t)
    ensures s == t
    decreases |s|
  {
    if s != [] {
      assert t != [] && s[0] == t[0];
      assert next[s[0]] == After(s, 0) == After(t, 0);
      LinkedTail(next, s);
      LinkedTail(next, t);
      LinkedUnique(next, next[s[0]], s[1..], t[1..]);
    }
  }

  /** The tail of a chain is the chain that starts at the first item's link. */
  lemma LinkedTail(next: map<nat, Ptr>, s: seq<nat>)
    requires s != [] && Linked(next, Ref(s[0]), s)
    ensures Linked(next, next[s[0]], s[1..])
  {
    assert forall k :: 0 <= k < |s| - 1 ==> After(s[1..], k) == After(s, k + 1);
  }

  /** The chain visiting s[p..] goes from s[p] on to the chain visiting s[p + 1..]. */
  lemma LinkedDrop(next: map<nat, Ptr>, s: seq<nat>, p: nat)
    requires p < |s| && Linked(next, HeadPtr(s[p..]), s[p..])
    ensures s[p] in next && next[s[p]] == HeadPtr(s[p + 1..])
    ensures Linked(next, HeadPtr(s[p + 1..]), s[p + 1..])
  {
    var t := s[p..];
    assert t[0] == s[p] && t[1..] == s[p + 1..];
    LinkedTail(next, t);
  }

  /** The link of an item of a chain points at the rest of the chain after that item. */
  lemma LinkedSuccessor(next: map<nat, Ptr>, start: Ptr, s: seq<nat>, x: nat)
    requires Linked(next, start, s) && x in s
    ensures next[x] == HeadPtr(s[IndexOf(s, x) + 1..])
  {
    LinkedAt(next, start, s, IndexOf(s, x));
  }

  /** The link of the k-th item of a chain points at the rest of the chain after it. */
  lemma LinkedAt(next: map<nat, Ptr>, start: Ptr, s: seq<nat>, k: nat)
    requires Linked(next, start, s) && k < |s|
    ensures s[k] in next && next[s[k]] == HeadPtr(s[k + 1..])
  {
    assert next[s[k]] == After(s, k);
  }

  /** Inserting x at position k moves the final slot to x's own field exactly when x goes last. */
  lemma SlotAtInsert(s: seq<nat>, k: nat, x: nat)
    requires Distinct(s) && k <= |s|
    ensures SlotAt(s, k) == SlotAt(s, |s|) <==> k == |s|
    ensures SlotAt(s[..k] + [x] + s[k..], |s| + 1) == if k == |s| then NextField(x) else SlotAt(s, |s|)
  {
    var t := s[..k] + [x] + s[k..];
    if k < |s| {
      assert t[|s|] == s[|s| - 1];
      assert k == 0 || s[k - 1] != s[|s| - 1];
    }
  }

  /** Removing the k-th item moves the final slot back to the removed item's place exactly when it was last. */
  lemma SlotAtRemove(s: seq<nat>, k: nat)
    requires k < |s|
    ensures SlotAt(s[..k] + s[k + 1..], |s| - 1) == if k == |s| - 1 then SlotAt(s, k) else SlotAt(s, |s|)
  {
    var t := s[..k] + s[k + 1..];
    if k < |s| - 1 {
      assert t[|s| - 2] == s[|s| - 1];
    }
  }

  /** One step along a sequence: what is left starts at position k, and the prefix grows by it. */
  lemma SliceStep(s: seq<nat>, k: nat)
    requires k <= |s|
    ensures HeadPtr(s[k..]) == if k < |s| then Ref(s[k]) else Null
    ensures k < |s| ==> s[..k + 1] == s[..k] + [s[k]]
    ensures k == |s| ==> s[..k] == s
  {
  }

  /** Taking the first item off the suffix from n moves it to the end of the prefix up to n. */
  lemma DrainStep(s: seq<nat>, n: nat)
    requires n < |s|
    ensures s[n..][0] == s[n] && s[n..][1..] == s[n + 1..]
    ensures s[..n + 1] == s[..n] + [s[n]]
  {
  }

  /** A chain visiting `a` and then `s` starts where `a` does, or where `s` does when `a` is empty. */
  lemma HeadPtrConcat(a: seq<nat>, s: seq<nat>)
    ensures HeadPtr(a + s) == if a == [] then HeadPtr(s) else HeadPtr(a)
  {
    if a == [] {
      assert a + s == s;
    }
  }

  /** In a chain without repeats, an item's first occurrence is its position. */
  lemma IndexOfAt(s: seq<nat>, k: nat)
    requires k < |s| && Distinct(s)
    ensures IndexOf(s, s[k]) == k
  {
  }

  lemma DistinctInsert(s: seq<nat>, k: nat, x: nat)
    requires Distinct(s) && k <= |s| && x !in s
    ensures Distinct(s[..k] + [x] + s[k..])
  {
    var t := s[..k] + [x] + s[k..];
    assert forall j {:trigger t[j]} :: 0 <= j < |t| ==> t[j] == if j < k then s[j] else if j == k then x else s[j - 1];
  }

  lemma DistinctRemove(s: seq<nat>, k: nat)
    requires Distinct(s) && k < |s|
    ensures Distinct(s[..k] + s[k + 1..])
  {
    var t := s[..k] + s[k + 1..];
    assert forall j {:trigger t[j]} :: 0 <= j < |t| ==> t[j] == if j < k then s[j] else s[j + 1];
  }

  /** Linking `x` in at position `k` of a chain: one new link from `x`, one changed link to `x`. */
  lemma LinkedInsert(next: map<nat, Ptr>, start: Ptr, s: seq<nat>, k: nat, x: nat)
    requires Linked(next, start, s) && k <= |s| && x !in s
    ensures var n1 := next[x := HeadPtr(s[k..])];
            var t := s[..k] + [x] + s[k..];
            if k == 0 then Linked(n1, Ref(x), t) else Linked(n1[s[k - 1] := Ref(x)], start, t)
  {
    var n1 := next[x := HeadPtr(s[k..])];
    var t := s[..k] + [x] + s[k..];
    DistinctInsert(s, k, x);
    var n2 := if k == 0 then n1 else n1[s[k - 1] := Ref(x)];
    var start2 := if k == 0 then Ref(x) else start;
    assert start2 == HeadPtr(t);
    assert |t| == |s| + 1;
    forall j | 0 <= j < |t|
      ensures t[j] in n2 && n2[t[j]] == After(t, j)
    {
      if j < k - 1 {
        assert t[j] == s[j] && t[j + 1] == s[j + 1];
        assert n2[t[j]] == next[s[j]];
      } else if j == k - 1 {
        assert t[j] == s[j] && t[j + 1] == x;
      } else if j == k {
        assert t[j] == x;
        assert j + 1 < |t| ==> t[j + 1] == s[k];
      } else {
        assert t[j] == s[j - 1];
        assert j + 1 < |t| ==> t[j + 1] == s[j];
        assert n2[t[j]] == next[s[j - 1]];
      }
    }
  }

  /** Unlinking the item at position `k` of a chain: its predecessor takes over its link. */
  lemma LinkedRemove(next: map<nat, Ptr>, start: Ptr, s: seq<nat>, k: nat)
    requires Linked(next, start, s) && k < |s|
    ensures var t := s[..k] + s[k + 1..];
            if k == 0 then Linked(next, After(s, 0), t) else Linked(next[s[k - 1] := After(s, k)], start, t)
  {
    var t := s[..k] + s[k + 1..];
    DistinctRemove(s, k);
    var n2 := if k == 0 then next else next[s[k - 1] := After(s, k)];
    var start2 := if k == 0 then After(s, 0) else start;
    assert start2 == HeadPtr(t);
    forall j | 0 <= j < |t|
      ensures t[j] in n2 && n2[t[j]] == After(t, j)
    {
      if j < k - 1 {
        assert t[j] == s[j] && t[j + 1] == s[j + 1];
        assert n2[t[j]] == next[s[j]];
      } else if j == k - 1 {
        assert t[j] == s[j];
        assert j + 1 < |t| ==> t[j + 1] == s[k + 1];
      } else {
        assert t[j] == s[j + 1];
        assert j + 1 < |t| ==> t[j + 1] == s[j + 2];
        assert n2[t[j]] == next[s[j + 1]];
      }
    }
  }

  /**
   * Cutting a chain before its k-th item: clearing the link of the item
   * before leaves two chains, the first k items and the rest.
   */
  lemma LinkedCut(next: map<nat, Ptr>, s: seq<nat>, k: nat)
    requires Linked(next, HeadPtr(s), s) && 0 < k < |s|
    ensures Linked(next[s[k - 1] := Null], HeadPtr(s[..k]), s[..k])
    ensures Linked(next[s[k - 1] := Null], HeadPtr(s[k..]), s[k..])
  {
    var n' := next[s[k - 1] := Null];
    var a, b := s[..k], s[k..];
    forall j | 0 <= j < |a|
      ensures a[j] in n' && n'[a[j]] == After(a, j)
    {
      assert a[j] == s[j];
      if j < k - 1 {
        assert s[j] != s[k - 1] && a[j + 1] == s[j + 1];
      }
    }
    forall j | 0 <= j < |b|
      ensures b[j] in n' && n'[b[j]] == After(b, j)
    {
      assert b[j] == s[k + j] && s[k + j] != s[k - 1];
      assert j + 1 < |b| ==> b[j + 1] == s[k + j + 1];
    }
  }

  /** A chain under construction: every link is in place except the one after its last item. */
  ghost predicate Open(next: map<nat, Ptr>, start: Ptr, s: seq<nat>)
  {
    (s != [] ==> start == Ref(s[0])) && Distinct(s) &&
    (forall k :: 0 <= k < |s| - 1 ==> s[k] in next) &&
    forall k {:trigger next[s[k]]} :: 0 <= k < |s| - 1 ==> next[s[k]] == After(s, k)
  }

  /** An open chain keeps its links while nothing on it is relinked. */
  lemma OpenFrame(next: map<nat, Ptr>, next': map<nat, Ptr>, start: Ptr, s: seq<nat>)
    requires Open(next, start, s)
    requires forall x :: x in s ==> x in next ==> x in next' && next'[x] == next[x]
    ensures Open(next', start, s)
  {
    forall k | 0 <= k < |s| - 1
      ensures s[k] in next' && next'[s[k]] == After(s, k)
    {
      assert s[k] in s;
    }
  }

  /** Linking `x` after the last item of an open chain (or as its start) extends it. */
  lemma OpenExtend(next: map<nat, Ptr>, start: Ptr, s: seq<nat>, x: nat)
    requires Open(next, start, s) && x !in s
    ensures s == [] ==> Open(next, Ref(x), [x])
    ensures s != [] ==> Open(next[s[|s| - 1] := Ref(x)], start, s + [x])
  {
    if s != [] {
      var n' := next[s[|s| - 1] := Ref(x)];
      var t := s + [x];
      forall k | 0 <= k < |t| - 1
        ensures t[k] in n' && n'[t[k]] == After(t, k)
      {
        if k < |s| - 1 {
          assert t[k] == s[k] && t[k + 1] == s[k + 1] && s[k] != s[|s| - 1];
          assert n'[t[k]] == next[s[k]] == After(s, k);
        }
      }
      assert Distinct(t) by {
        forall i, j | 0 <= i < j < |t|
          ensures t[i] != t[j]
        {
          if j == |s| {
            assert t[i] == s[i] && s[i] in s;
          }
        }
      }
    }
  }

  /** Storing the start of the chain `t` after the last item of an open chain `s` closes it as `s + t`. */
  lemma OpenJoin(next: map<nat, Ptr>, start: Ptr, s: seq<nat>, t: seq<nat>)
    requires Open(next, start, s) && s != []
    requires Linked(next, HeadPtr(t), t)
    requires forall x :: x in s ==> x !in t
    ensures Linked(next[s[|s| - 1] := HeadPtr(t)], start, s + t)
  {
    var last := s[|s| - 1];
    var n' := next[last := HeadPtr(t)];
    var u := s + t;
    forall k | 0 <= k < |u|
      ensures u[k] in n' && n'[u[k]] == After(u, k)
    {
      if k < |s| - 1 {
        assert u[k] == s[k] && u[k + 1] == s[k + 1] && s[k] != last;
      } else if k == |s| - 1 {
        assert u[k] == last;
        assert k + 1 < |u| ==> u[k + 1] == t[0];
      } else {
        var j := k - |s|;
        assert u[k] == t[j] && t[j] in t;
        assert t[j] != last;
        assert After(u, k) == After(t, j);
      }
    }
    assert Distinct(u) by {
      forall i, j | 0 <= i < j < |u|
        ensures u[i] != u[j]
      {
        if i < |s| && j >= |s| {
          assert u[i] == s[i] && s[i] in s && u[j] == t[j - |s|] && t[j - |s|] in t;
        } else if j >= |s| {
          assert u[i] == t[i - |s|] && u[j] == t[j - |s|];
        }
      }
    }
  }
}
