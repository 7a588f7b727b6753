/**
 * The chain walks of the typed hash table (lib/typesafe.h,
 * TYPEDHASH_MAKEFUNCS) on the `next` fields of the items: the insertion
 * walk of `_add`, the two lookup loops of `_find` and the locating loops of
 * `_del`. Each takes the chain of one bucket, starting at `head`.
 */
module HashWalk {
  import opened Links
  import opened HashSpec
  import opened HashRelink

  /** The place that holds the pointer to the k-th item of the chain of bucket b. */
  function SlotOf(c: seq<nat>, k: nat, b: nat): (np: HSlot)
    requires k <= |c|
    ensures np.Entry? <==> k == 0
  {
    if k == 0 then Entry(b) else NextOf(c[k - 1])
  }

  /** Every item of the chain caches its hash value. */
  ghost predicate CachedOn(hash: nat -> u32, hashval: map<nat, u32>, c: seq<nat>)
  {
    forall y :: y in c ==> y in hashval && hashval[y] == hash(y)
  }

  /** One step along a linked chain: the item at position k, its cached hash value and its link. */
  lemma WalkStep(hash: nat -> u32, hashval: map<nat, u32>, next: map<nat, Ptr>, head: Ptr, c: seq<nat>, k: nat)
    requires Linked(next, head, c) && CachedOn(hash, hashval, c) && k < |c|
    ensures HeadPtr(c[k..]) == Ref(c[k])
    ensures c[k] in hashval && hashval[c[k]] == hash(c[k])
    ensures c[k] in next && next[c[k]] == HeadPtr(c[k + 1..])
  {
    assert c[k] in c;
    LinkedAt(next, head, c, k);
  }

  /**
   * The insertion of `_add`: the slot walks past the items whose hash value
   * is below `hval`, then `x` takes the pointer it holds and the slot is set
   * to `x`. The chain becomes `InsertByHash`, and only `x`'s link and the
   * link before it change.
   */
  method InsertChain(hash: nat -> u32, hashval: map<nat, u32>, next: map<nat, Ptr>, head: Ptr, ghost c: seq<nat>,
                     b: nat, x: nat, hval: u32)
    returns (links: map<nat, Ptr>, head': Ptr)
    requires Linked(next, head, c) && CachedOn(hash, hashval, c) && x !in c && hval == hash(x)
    ensures Linked(links, head', InsertByHash(hash, c, x))
    ensures links.Keys == next.Keys + {x}
    ensures forall y {:trigger links[y]} :: y in next && y !in c && y != x ==> links[y] == next[y]
  {
    var np := Entry(b);
    var cur := head;
    ghost var k := 0;
    assert c[0..] == c;
    while cur != Null && hashval[cur.id] < hval
      invariant k <= |c| && np == SlotOf(c, k, b) && cur == HeadPtr(c[k..])
      invariant forall j :: 0 <= j < k ==> hash(c[j]) < hval
      decreases |c| - k
    {
      WalkStep(hash, hashval, next, head, c, k);
      np := NextOf(cur.id);
      cur := next[cur.id];
      k := k + 1;
    }
    if cur != Null {
      WalkStep(hash, hashval, next, head, c, k);
    }
    InsertByHashAt(hash, c, x, k);
    LinkedInsert(next, head, c, k, x);
    links := next[x := cur];
    if np.Entry? {
      head' := Ref(x);
      LinkKeys(next, x, cur, x, cur);
    } else {
      assert np.owner == c[k - 1] && c[k - 1] in next;
      LinkKeys(next, x, cur, np.owner, Ref(x));
      head' := head;
      links := links[np.owner := Ref(x)];
    }
  }

  /** Linking `x` in and storing into a place that already has a link add only `x` to the keys. */
  lemma LinkKeys(next: map<nat, Ptr>, x: nat, v: Ptr, o: nat, w: Ptr)
    requires o in next || o == x
    ensures next[x := v].Keys == next.Keys + {x} && next[x := v][o := w].Keys == next.Keys + {x}
  {
  }

  /**
   * The two loops of `_find`: skip the items whose hash value is below
   * `hval`, then walk those whose hash value is `hval` until one has the
   * key `k`. The result is the lookup `FindChain` describes.
   */
  method FindInChain(hash: nat -> u32, key: nat -> int, hashval: map<nat, u32>, next: map<nat, Ptr>, head: Ptr,
                     ghost c: seq<nat>, hval: u32, k: int)
    returns (r: Ptr)
    requires Linked(next, head, c) && CachedOn(hash, hashval, c)
    ensures r == FindChain(hash, key, c, hval, k)
  {
    var hitem := head;
    ghost var m := 0;
    assert c[0..] == c;
    while hitem != Null && hashval[hitem.id] < hval
      invariant m <= |c| && hitem == HeadPtr(c[m..])
      invariant FindChain(hash, key, c, hval, k) == FindChain(hash, key, c[m..], hval, k)
      decreases |c| - m
    {
      WalkStep(hash, hashval, next, head, c, m);
      DrainStep(c, m);
      hitem := next[hitem.id];
      m := m + 1;
    }
    if hitem != Null {
      WalkStep(hash, hashval, next, head, c, m);
    }
    while hitem != Null && hashval[hitem.id] == hval
      invariant m <= |c| && hitem == HeadPtr(c[m..])
      invariant FindChain(hash, key, c, hval, k) == ScanEqual(hash, key, c[m..], hval, k)
      decreases |c| - m
    {
      WalkStep(hash, hashval, next, head, c, m);
      DrainStep(c, m);
      if key(hitem.id) == k {
        return hitem;
      }
      ScanSkip(hash, key, c, m, hval, k);
      hitem := next[hitem.id];
      m := m + 1;
      if hitem != Null {
        WalkStep(hash, hashval, next, head, c, m);
      }
    }
    return Null;
  }

  /** The second loop of `_find` passes over an item with the wanted hash value but another key. */
  lemma ScanSkip(hash: nat -> u32, key: nat -> int, c: seq<nat>, m: nat, h: u32, k: int)
    requires m < |c| && hash(c[m]) == h && key(c[m]) != k
    ensures ScanEqual(hash, key, c[m..], h, k) == ScanEqual(hash, key, c[m + 1..], h, k)
  {
    assert c[m..][0] == c[m] && c[m..][1..] == c[m + 1..];
  }

  /**
   * Where the two loops of `_del` stop on chain `c` when they look for `x`:
   * past the items whose hash value is below `x`'s, then past those with
   * `x`'s hash value that are not `x`.
   */
  function DelStop(hash: nat -> u32, c: seq<nat>, x: nat): (k: nat)
    ensures k <= |c|
  {
    if c != [] && hash(c[0]) < hash(x) then 1 + DelStop(hash, c[1..], x) else EqualStop(hash, c, x)
  }

  /** Where the second loop of `_del` stops: at `x`, or at the first item with another hash value. */
  function EqualStop(hash: nat -> u32, c: seq<nat>, x: nat): (k: nat)
    ensures k <= |c|
  {
    if c != [] && c[0] != x && hash(c[0]) == hash(x) then 1 + EqualStop(hash, c[1..], x) else 0
  }

  /**
   * The two loops of `_del`: the slot walks past the items whose hash value
   * is below `hval`, then past those whose hash value is `hval` until it
   * holds `x`. They stop at `DelStop`, with `np` the place that points at
   * the item there; on a chain ordered by hash value they reach `x` exactly
   * when it is on the chain.
   */
  method LocateInChain(hash: nat -> u32, hashval: map<nat, u32>, next: map<nat, Ptr>, head: Ptr, ghost c: seq<nat>,
                       b: nat, x: nat, hval: u32)
    returns (np: HSlot, cur: Ptr, ghost k: nat)
    requires Linked(next, head, c) && CachedOn(hash, hashval, c) && hval == hash(x)
    ensures k == DelStop(hash, c, x) && np == SlotOf(c, k, b) && cur == HeadPtr(c[k..])
    ensures cur == Ref(x) <==> k < |c| && c[k] == x
    ensures SortedBy(hash, c) ==> (cur == Ref(x) <==> x in c)
  {
    np, cur, k := SkipBelow(hash, hashval, next, head, c, b, x, hval);
    np, cur, k := SkipEqual(hash, hashval, next, head, c, b, x, hval, np, cur, k);
    if SortedBy(hash, c) {
      DelStopFinds(hash, c, x);
    }
  }

  /**
   * The first loop of `_del`: the slot walks past the items whose hash
   * value is below `hval`; what is left for the second loop is `EqualStop`.
   */
  method SkipBelow(hash: nat -> u32, hashval: map<nat, u32>, next: map<nat, Ptr>, head: Ptr, ghost c: seq<nat>,
                   b: nat, x: nat, hval: u32)
    returns (np: HSlot, cur: Ptr, ghost k: nat)
    requires Linked(next, head, c) && CachedOn(hash, hashval, c) && hval == hash(x)
    ensures k <= |c| && np == SlotOf(c, k, b) && cur == HeadPtr(c[k..])
    ensures DelStop(hash, c, x) == k + EqualStop(hash, c[k..], x)
  {
    assert head == HeadPtr(c) && c[0..] == c;
    hide Linked, CachedOn;
    np := Entry(b);
    cur := head;
    k := 0;
    if cur != Null {
      WalkStep(hash, hashval, next, head, c, k);
    }
    while cur != Null && hashval[cur.id] < hval
      invariant k <= |c| && np == SlotOf(c, k, b) && cur == HeadPtr(c[k..])
      invariant cur != Null ==> cur.id in hashval && hashval[cur.id] == hash(cur.id)
      invariant DelStop(hash, c, x) == k + DelStop(hash, c[k..], x)
      decreases |c| - k
    {
      WalkStep(hash, hashval, next, head, c, k);
      DrainStep(c, k);
      np := NextOf(cur.id);
      cur := next[cur.id];
      k := k + 1;
      if cur != Null {
        WalkStep(hash, hashval, next, head, c, k);
      }
    }
  }

  /**
   * The second loop of `_del`: from the k-th item, the slot walks past the
   * items whose hash value is `hval` until it holds `x`.
   */
  method SkipEqual(hash: nat -> u32, hashval: map<nat, u32>, next: map<nat, Ptr>, head: Ptr, ghost c: seq<nat>,
                   b: nat, x: nat, hval: u32, np: HSlot, cur: Ptr, ghost k: nat)
    returns (np': HSlot, cur': Ptr, ghost k': nat)
    requires Linked(next, head, c) && CachedOn(hash, hashval, c) && hval == hash(x)
    requires k <= |c| && np == SlotOf(c, k, b) && cur == HeadPtr(c[k..])
    ensures k' == k + EqualStop(hash, c[k..], x) && np' == SlotOf(c, k', b) && cur' == HeadPtr(c[k'..])
  {
    hide Linked, CachedOn;
    np', cur', k' := np, cur, k;
    if cur' != Null {
      WalkStep(hash, hashval, next, head, c, k');
    }
    while cur' != Null && cur' != Ref(x) && hashval[cur'.id] == hval
      invariant k <= k' <= |c| && np' == SlotOf(c, k', b) && cur' == HeadPtr(c[k'..])
      invariant cur' != Null ==> cur'.id in hashval && hashval[cur'.id] == hash(cur'.id)
      invariant k + EqualStop(hash, c[k..], x) == k' + EqualStop(hash, c[k'..], x)
      decreases |c| - k'
    {
      WalkStep(hash, hashval, next, head, c, k');
      DrainStep(c, k');
      np' := NextOf(cur'.id);
      cur' := next[cur'.id];
      k' := k' + 1;
      if cur' != Null {
        WalkStep(hash, hashval, next, head, c, k');
      }
    }
  }

  /** On a chain ordered by hash value, `_del`'s loops stop at `x` exactly when it is on the chain. */
  lemma {:induction false} DelStopFinds(hash: nat -> u32, c: seq<nat>, x: nat)
    requires SortedBy(hash, c)
    ensures var k := DelStop(hash, c, x); x in c <==> k < |c| && c[k] == x
    decreases |c|
  {
    if c != [] && hash(c[0]) < hash(x) {
      assert SortedBy(hash, c[1..]);
      DelStopFinds(hash, c[1..], x);
      assert x in c <==> x in c[1..] by {
        assert c == [c[0]] + c[1..];
      }
    } else {
      EqualStopFinds(hash, c, x);
    }
  }

  /** The same for the second loop, on a chain whose hash values are not below `x`'s. */
  lemma {:induction false} EqualStopFinds(hash: nat -> u32, c: seq<nat>, x: nat)
    requires SortedBy(hash, c) && (c != [] ==> hash(c[0]) >= hash(x))
    ensures var k := EqualStop(hash, c, x); x in c <==> k < |c| && c[k] == x
    decreases |c|
  {
    if c != [] && c[0] != x {
      if hash(c[0]) == hash(x) {
        assert SortedBy(hash, c[1..]);
        assert |c| > 1 ==> hash(c[1]) >= hash(c[0]);
        EqualStopFinds(hash, c[1..], x);
        assert x in c <==> x in c[1..] by {
          assert c == [c[0]] + c[1..];
        }
      } else {
        assert x !in c by {
          forall j | 0 <= j < |c|
            ensures c[j] != x
          {
            assert hash(c[j]) >= hash(c[0]) > hash(x);
          }
        }
      }
    }
  }

  /**
   * The unlinking of `_del`: the slot that points at `x`, the k-th item,
   * takes `x`'s link, and `x`'s own link is cleared.
   */
  method UnlinkChain(next: map<nat, Ptr>, head: Ptr, ghost c: seq<nat>, b: nat, np: HSlot, ghost k: nat, x: nat)
    returns (links: map<nat, Ptr>, head': Ptr)
    requires Linked(next, head, c) && k < |c| && c[k] == x && np == SlotOf(c, k, b)
    ensures Linked(links, head', c[..k] + c[k + 1..])
    ensures links.Keys == next.Keys
    ensures links[c[k]] == Null
    ensures forall y {:trigger links[y]} :: y in next && y !in c ==> links[y] == next[y]
  {
    LinkedAt(next, head, c, k);
    LinkedRemove(next, head, c, k);
    var succ := next[x];
    if np.Entry? {
      head' := succ;
      links := next;
    } else {
      head' := head;
      links := next[np.owner := succ];
    }
    DistinctRemoveGone(c, k);
    LinkedFrame(links, links[x := Null], head', c[..k] + c[k + 1..]);
    links := links[x := Null];
  }

  /** The removed item is on the shortened chain no more. */
  lemma DistinctRemoveGone(c: seq<nat>, k: nat)
    requires Distinct(c) && k < |c|
    ensures c[k] !in c[..k] + c[k + 1..]
  {
    var t := c[..k] + c[k + 1..];
    forall j | 0 <= j < |t|
      ensures t[j] != c[k]
    {
      if j < k {
        assert t[j] == c[j];
      } else {
        assert t[j] == c[j + 1];
      }
    }
  }
}
