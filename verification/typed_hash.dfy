/**
 * The typed hash table of lib/typesafe.h (TYPEDHASH_MAKEFUNCS) and its
 * resizing in lib/typesafe.c.
 *
 * The head holds the bucket array `entries` (reallocated on every resize,
 * so it is a sequence here), `tabsize` and `count`. Every item embeds a
 * `next` link and the cached hash value `hashval`; the two maps hold those
 * fields for every item the table has seen. `Buckets` is the ghost view:
 * the chain of every bucket, as a sequence of items.
 *
 * Buckets are resized by the corrected grow and shrink (see HashSpec and
 * HashResize): growing splits each chain in order, shrinking merges two
 * chains by hash value. Both keep every item in the bucket of its hash
 * value and every chain ordered by hash value, which `_find` and `_del`
 * rely on.
 */
module TypedHash {
  import opened Links
  import opened HashSpec
  import opened HashRelink
  import opened HashResize
  import opened HashWalk
  import opened HashOps

  class Hash {
    var entries: seq<Ptr>
    var tabsize: nat
    var count: nat
    /** The embedded `next` field of every item. */
    var next: map<nat, Ptr>
    /** The embedded `hashval` field of every item. */
    var hashval: map<nat, u32>
    /** The hash function. */
    const hash: nat -> u32
    /** The comparison function, as a key: `cmpfn(a, b) == 0` when the keys are equal. */
    const key: nat -> int
    ghost var Buckets: seq<seq<nat>>

    /**
     * The array links the chains of `Buckets`, cached and placed; `count`
     * may be off by the item in flight. (Both invariants are bound to a
     * name so that a caller checks each as one fact, not clause by clause.)
     */
    ghost predicate Chains()
      reads this
    {
      var ok := ChainsOk(hash, entries, tabsize, next, hashval, Buckets);
      ok
    }

    /** The table invariant between operations. */
    ghost predicate Valid()
      reads this
    {
      var ok := TableOk(hash, entries, tabsize, count, next, hashval, Buckets);
      ok
    }

    /** `_init`: no bucket array at all. */
    constructor Init(hash: nat -> u32, key: nat -> int)
      ensures Valid() && Buckets == [] && count == 0
      ensures this.hash == hash && this.key == key && next == map[] && hashval == map[]
    {
      entries, tabsize, count := [], 0, 0;
      next, hashval := map[], map[];
      this.hash, this.key := hash, key;
      Buckets := [];
    }

    /**
     * `_add` of an item the table does not hold: the count goes up, the
     * table grows if needed, the item caches its hash value and is linked
     * in before the first item of its chain whose hash value is not below
     * its own.
     */
    method Add(x: nat)
      requires Valid() && x !in Flatten(Buckets) && count + 1 < 0x8000_0000
      modifies this
      ensures Valid() && Buckets == Added(hash, old(Buckets), x)
      ensures hashval == old(hashval)[x := hash(x)] && next.Keys == old(next).Keys + {x}
      ensures forall y {:trigger next[y]} :: y in old(next) && y !in Flatten(old(Buckets)) && y != x ==> next[y] == old(next)[y]
    {
      var E, size, links, h := AddTable(hash, entries, tabsize, count, next, hashval, Buckets, x);
      entries, tabsize, count, next, hashval, Buckets := E, size, count + 1, links, h, Added(hash, Buckets, x);
    }

    /**
     * `_del`: nothing happens without a bucket array or when `x` is not on
     * the chain of its hash value; otherwise `x` is unlinked and the table
     * shrinks if needed.
     */
    method Del(x: nat)
      requires Valid()
      modifies this
      ensures Valid() && Buckets == Deleted(hash, old(Buckets), x)
      ensures hashval == old(hashval) && next.Keys == old(next).Keys
      ensures x in Flatten(old(Buckets)) ==> x in next && next[x] == Null
      ensures forall y {:trigger next[y]} :: y in old(next) && y !in Flatten(old(Buckets)) ==> next[y] == old(next)[y]
    {
      BandEven(tabsize, count);
      if tabsize == 0 {
        return;
      }
      var hval := hash(x);
      var hbits := hval % tabsize;
      assert Linked(next, entries[hbits], Buckets[hbits]);
      var np, cur, k := LocateInChain(hash, hashval, next, entries[hbits], Buckets[hbits], hbits, x, hval);
      if cur != Ref(x) {
        NotHeld(hash, Buckets, x);
        return;
      }
      Unlink(hbits, np, k, x);
    }

    /**
     * `_pop`: the first item of the first bucket that has one is unlinked
     * and returned; an empty table returns null.
     */
    method Pop() returns (r: Ptr)
      requires Valid()
      modifies this
      ensures Valid() && r == HeadPtr(Flatten(old(Buckets)))
      ensures r.Ref? ==> Buckets == Deleted(hash, old(Buckets), r.id) && r.id in next && next[r.id] == Null
      ensures r == Null ==> Buckets == old(Buckets) && next == old(next)
      ensures hashval == old(hashval) && next.Keys == old(next).Keys
      ensures forall y {:trigger next[y]} :: y in old(next) && y !in Flatten(old(Buckets)) ==> next[y] == old(next)[y]
    {
      BandEven(tabsize, count);
      var i := SkipEmpty(entries, next, Buckets, 0);
      assert Buckets[0..] == Buckets;
      if i == tabsize {
        return Null;
      }
      var hitem := entries[i];
      FlattenDrop(Buckets, i);
      Unlink(i, Entry(i), 0, hitem.id);
      return hitem;
    }

    /**
     * The common end of `_del` and `_pop`: `x`, the k-th item of chain b,
     * reached through `np`, is unlinked and the count goes down.
     */
    method Unlink(b: nat, np: HSlot, ghost k: nat, x: nat)
      requires Valid() && b < tabsize && k < |Buckets[b]| && Buckets[b][k] == x && np == SlotOf(Buckets[b], k, b)
      modifies this
      ensures Valid() && Buckets == Deleted(hash, old(Buckets), x) && x in Flatten(old(Buckets))
      ensures hashval == old(hashval) && next.Keys == old(next).Keys && x in next && next[x] == Null
      ensures forall y {:trigger next[y]} :: y in old(next) && y !in Flatten(old(Buckets)) ==> next[y] == old(next)[y]
    {
      // The new state is read off UnlinkTable's contract; unfolding the table
      // invariant or the deleted view here only slows the solver down.
      assert |Buckets| == tabsize && tabsize % 2 == 0;
      hide TableOk, Deleted;
      var E, size, links := UnlinkTable(hash, entries, tabsize, count, next, hashval, Buckets, b, np, k, x);
      entries, tabsize, count, next, Buckets := E, size, count - 1, links, Deleted(hash, Buckets, x);
    }

    /**
     * `_find`: the first item of the probe's chain with the probe's hash
     * value and key; the table holds such an item exactly when one is found.
     */
    method Find(probe: nat) returns (r: Ptr)
      requires Valid()
      ensures r.Ref? ==> r.id in Flatten(Buckets) && hash(r.id) == hash(probe) && key(r.id) == key(probe)
      ensures r == Null ==> forall y :: y in Flatten(Buckets) && hash(y) == hash(probe) ==> key(y) != key(probe)
      ensures r.Ref? ==> tabsize > 0 && var c := Buckets[hash(probe) % tabsize];
        r.id in c && forall j :: 0 <= j < IndexOf(c, r.id) ==> hash(c[j]) != hash(probe) || key(c[j]) != key(probe)
    {
      if tabsize == 0 {
        return Null;
      }
      var hval := hash(probe);
      var hbits := hval % tabsize;
      assert Linked(next, entries[hbits], Buckets[hbits]);
      r := FindInChain(hash, key, hashval, next, entries[hbits], Buckets[hbits], hval, key(probe));
      FindInTable(hash, key, Buckets, hval, key(probe));
      FindChainFirst(hash, key, Buckets[hbits], hval, key(probe));
    }

    /** `_first`: the head of the first bucket that has one. */
    method First() returns (r: Ptr)
      requires Valid()
      ensures r == HeadPtr(Flatten(Buckets))
    {
      var i := SkipEmpty(entries, next, Buckets, 0);
      assert Buckets[0..] == Buckets;
      if i < tabsize {
        FlattenDrop(Buckets, i);
        return entries[i];
      }
      return Null;
    }

    /**
     * `_next`: the item's own link if it has one, else the head of the first
     * later bucket that has one; this is the item after `x` in the order
     * `_first` starts.
     */
    method Next(x: nat) returns (r: Ptr)
      requires Valid() && x in Flatten(Buckets)
      ensures var F := Flatten(Buckets); r == HeadPtr(F[IndexOf(F, x) + 1..])
    {
      ghost var b, m := NextFrom(hash, entries, next, hashval, Buckets, x);
      HeadPtrConcat(Buckets[b][m + 1..], Flatten(Buckets[b + 1..]));
      if next[x] != Null {
        return next[x];
      }
      var i := SkipEmpty(entries, next, Buckets, hashval[x] % tabsize + 1);
      if i < tabsize {
        FlattenDrop(Buckets, i);
        HeadPtrConcat(Buckets[i], Flatten(Buckets[i + 1..]));
        return entries[i];
      }
      return Null;
    }

    /** `_next_safe`: `_next`, with null for null. */
    method NextSafe(x: Ptr) returns (r: Ptr)
      requires Valid() && (x.Ref? ==> x.id in Flatten(Buckets))
      ensures x == Null ==> r == Null
      ensures x.Ref? ==> var F := Flatten(Buckets); r == HeadPtr(F[IndexOf(F, x.id) + 1..])
    {
      if x == Null {
        return Null;
      }
      r := Next(x.id);
    }

    /** `_count`: the number of items in the table. */
    method Count() returns (r: nat)
      requires Valid()
      ensures r == |Flatten(Buckets)|
    {
      return count;
    }

    /** `_fini` of an empty table: the array is freed and the head zeroed. */
    method Fini()
      requires Valid() && count == 0
      modifies this
      ensures Valid() && tabsize == 0 && count == 0 && entries == [] && Buckets == []
    {
      var E, size, links := ShrinkTable(hash, entries, tabsize, count, next, hashval, Buckets);
      entries, tabsize, count, next := [], 0, 0, links;
      Buckets := Shrunk(hash, Buckets);
    }
  }

  /**
   * `typesafe_hash_grow` on a table whose count has just reached the
   * threshold: the array is reallocated to the size the count calls for,
   * twice the old one (two when there was none), and every chain is split
   * in order between its bucket and the one `tabsize` above.
   */
  method GrowTable(hash: nat -> u32, E: seq<Ptr>, tabsize: nat, count: nat, next: map<nat, Ptr>,
                   hashval: map<nat, u32>, ghost B: seq<seq<nat>>)
    returns (E': seq<Ptr>, tabsize': nat, next': map<nat, Ptr>)
    requires ChainsOk(hash, E, tabsize, next, hashval, B) && GrowSize(count, 0) == (if tabsize == 0 then 2 else 2 * tabsize)
    ensures ChainsOk(hash, E', tabsize', next', hashval, Grown(hash, B)) && tabsize' == GrowSize(count, 0)
    ensures next'.Keys == next.Keys
    ensures forall y {:trigger next'[y]} :: y in next && y !in Flatten(B) ==> next'[y] == next[y]
  {
    tabsize' := GrowSize(count, 0);
    if tabsize == 0 {
      E', next' := seq(tabsize', j => Null), next;
      assert AllLinked(next, E', Grown(hash, B));
    } else {
      next', E' := GrowChains(hash, hashval, next, E, B);
    }
    GrownKeeps(hash, B);
    CachedSame(hash, hashval, Grown(hash, B), B);
  }

  /**
   * `typesafe_hash_shrink` on a table whose count has just fallen to the
   * threshold: an empty table loses its array; otherwise the array is cut
   * to the size the count calls for, half the old one, after the chain of
   * every bucket i + newsize has been merged into that of bucket i.
   */
  method ShrinkTable(hash: nat -> u32, E: seq<Ptr>, tabsize: nat, count: nat, next: map<nat, Ptr>,
                     hashval: map<nat, u32>, ghost B: seq<seq<nat>>)
    returns (E': seq<Ptr>, tabsize': nat, next': map<nat, Ptr>)
    requires ChainsOk(hash, E, tabsize, next, hashval, B) && count == TotalLen(B) && tabsize % 2 == 0
    requires count > 0 ==> 2 * ShrinkSize(count, 0) == tabsize
    ensures ChainsOk(hash, E', tabsize', next', hashval, Shrunk(hash, B))
    ensures tabsize' == if count == 0 then 0 else ShrinkSize(count, 0)
    ensures next'.Keys == next.Keys
    ensures forall y {:trigger next'[y]} :: y in next && y !in Flatten(B) ==> next'[y] == next[y]
  {
    if count == 0 {
      E', tabsize', next' := [], 0, next;
    } else {
      tabsize' := ShrinkSize(count, 0);
      next', E' := ShrinkChains(hash, hashval, next, E, B, tabsize');
    }
    ShrunkKeeps(hash, B);
    CachedSame(hash, hashval, Shrunk(hash, B), B);
  }

  /**
   * The grow check of `_add`: a table without buckets, or one whose count
   * would reach the grow threshold, grows; the chains then hold the table
   * `GrowIfFull` describes, in the band for one more item.
   */
  method GrowIfFullTable(hash: nat -> u32, E: seq<Ptr>, tabsize: nat, count: nat, next: map<nat, Ptr>,
                         hashval: map<nat, u32>, ghost B: seq<seq<nat>>)
    returns (E': seq<Ptr>, tabsize': nat, next': map<nat, Ptr>)
    requires TableOk(hash, E, tabsize, count, next, hashval, B) && count + 1 < 0x8000_0000
    ensures ChainsOk(hash, E', tabsize', next', hashval, GrowIfFull(hash, B)) && LoadBand(tabsize', count + 1)
    ensures Elems(GrowIfFull(hash, B)) == Elems(B)
    ensures next'.Keys == next.Keys
    ensures forall y {:trigger next'[y]} :: y in next && y !in Flatten(B) ==> next'[y] == next[y]
  {
    GrowKeepsBand(tabsize, count);
    E', tabsize', next' := E, tabsize, next;
    if tabsize == 0 || GrowThreshold(tabsize, count + 1) {
      E', tabsize', next' := GrowTable(hash, E, tabsize, count + 1, next, hashval, B);
      GrownKeeps(hash, B);
    }
  }

  /**
   * The shrink check at the end of `_del` and `_pop`, after the count went
   * down to `count`: a table at the shrink threshold shrinks; the chains
   * then hold the table `ShrinkIfLow` describes, in the band.
   */
  method ShrinkIfLowTable(hash: nat -> u32, E: seq<Ptr>, tabsize: nat, count: nat, next: map<nat, Ptr>,
                          hashval: map<nat, u32>, ghost R: seq<seq<nat>>)
    returns (E': seq<Ptr>, tabsize': nat, next': map<nat, Ptr>)
    requires ChainsOk(hash, E, tabsize, next, hashval, R) && count == TotalLen(R)
    requires LoadBand(tabsize, count + 1) && tabsize % 2 == 0
    ensures TableOk(hash, E', tabsize', count, next', hashval, ShrinkIfLow(hash, R))
    ensures next'.Keys == next.Keys
    ensures forall y {:trigger next'[y]} :: y in next && y !in Flatten(R) ==> next'[y] == next[y]
  {
    ShrinkKeepsBand(tabsize, count + 1);
    if ShrinkThreshold(tabsize, count) {
      E', tabsize', next' := ShrinkTable(hash, E, tabsize, count, next, hashval, R);
      ShrunkKeeps(hash, R);
      assert ShrinkIfLow(hash, R) == Shrunk(hash, R);
    } else {
      E', tabsize', next' := E, tabsize, next;
      assert ShrinkIfLow(hash, R) == R;
    }
    BandEven(tabsize', count);
  }

  /** `_add` on the fields of the head: see `Hash.Add`. */
  method AddTable(hash: nat -> u32, E: seq<Ptr>, tabsize: nat, count: nat, next: map<nat, Ptr>,
                  hashval: map<nat, u32>, ghost B: seq<seq<nat>>, x: nat)
    returns (E': seq<Ptr>, tabsize': nat, next': map<nat, Ptr>, hashval': map<nat, u32>)
    requires TableOk(hash, E, tabsize, count, next, hashval, B) && x !in Flatten(B) && count + 1 < 0x8000_0000
    ensures TableOk(hash, E', tabsize', count + 1, next', hashval', Added(hash, B, x))
    ensures hashval' == hashval[x := hash(x)] && next'.Keys == next.Keys + {x}
    ensures forall y {:trigger next'[y]} :: y in next && y !in Flatten(B) && y != x ==> next'[y] == next[y]
  {
    var E1, links;
    E1, tabsize', links := GrowIfFullTable(hash, E, tabsize, count, next, hashval, B);
    ghost var G := GrowIfFull(hash, B);
    assert x !in Flatten(G) by {
      assert x !in Elems(B);
    }
    E', next', hashval' := InsertEntry(hash, E1, links, hashval, G, x);
    AddedTableOk(hash, E', tabsize', count, next', hashval', B, x);
    AddFrame(B, G, next, links, next', x, hash(x) % |G|);
  }

  /** The end of `_del` and `_pop` on the fields of the head: see `Hash.Unlink`. */
  method UnlinkTable(hash: nat -> u32, E: seq<Ptr>, tabsize: nat, count: nat, next: map<nat, Ptr>,
                     hashval: map<nat, u32>, ghost B: seq<seq<nat>>, b: nat, np: HSlot, ghost k: nat, x: nat)
    returns (E': seq<Ptr>, tabsize': nat, next': map<nat, Ptr>)
    requires TableOk(hash, E, tabsize, count, next, hashval, B)
    requires b < tabsize && k < |B[b]| && B[b][k] == x && np == SlotOf(B[b], k, b)
    ensures x in Flatten(B) && count > 0
    ensures TableOk(hash, E', tabsize', count - 1, next', hashval, Deleted(hash, B, x))
    ensures next'.Keys == next.Keys && x in next' && next'[x] == Null
    ensures forall y {:trigger next'[y]} :: y in next && y !in Flatten(B) ==> next'[y] == next[y]
  {
    var E1, links := RemoveEntry(hash, E, next, hashval, B, b, np, k, x);
    ghost var R := B[b := B[b][..k] + B[b][k + 1..]];
    TableDistinct(next, hash, E, B);
    UnlinkFacts(hash, B, b, k);
    E', tabsize', next' := ShrinkIfLowTable(hash, E1, tabsize, count - 1, links, hashval, R);
    UnlinkFrame(B, R, next, links, next', x, b);
  }

  /**
   * The linking step of `_add` on a table with buckets: `x` caches its hash
   * value and is linked into the chain of its bucket, before the first item
   * whose hash value is not below its own. Only that chain changes.
   */
  method InsertEntry(hash: nat -> u32, E: seq<Ptr>, next: map<nat, Ptr>, hashval: map<nat, u32>,
                     ghost G: seq<seq<nat>>, x: nat)
    returns (E': seq<Ptr>, links: map<nat, Ptr>, hashval': map<nat, u32>)
    requires ChainsOk(hash, E, |E|, next, hashval, G) && |G| > 0 && x !in Flatten(G)
    ensures var b := hash(x) % |G|;
      ChainsOk(hash, E', |E|, links, hashval', G[b := InsertByHash(hash, G[b], x)])
    ensures hashval' == hashval[x := hash(x)] && links.Keys == next.Keys + {x}
    ensures forall y {:trigger links[y]} :: y in next && y !in G[hash(x) % |G|] && y != x ==> links[y] == next[y]
  {
    var hval := hash(x);
    var b := hval % |E|;
    hashval' := hashval[x := hval];
    InsertReady(hash, E, next, hashval, G, x);
    var head;
    links, head := InsertChain(hash, hashval', next, E[b], G[b], b, x, hval);
    InsertKeeps(hash, E, next, links, hashval, G, x, head);
    E' := E[b := head];
  }

  /** Before `_add` links `x` in: its chain is linked, cached with `x`'s hash value too, and without `x`. */
  lemma InsertReady(hash: nat -> u32, E: seq<Ptr>, next: map<nat, Ptr>, hashval: map<nat, u32>,
                    G: seq<seq<nat>>, x: nat)
    requires ChainsOk(hash, E, |E|, next, hashval, G) && |G| > 0 && x !in Flatten(G)
    ensures var b := hash(x) % |G|;
      Linked(next, E[b], G[b]) && CachedOn(hash, hashval[x := hash(x)], G[b]) && x !in G[b]
  {
    FlattenMember(G, x);
  }

  /**
   * The unlinking step of `_del` and `_pop`: the place that points at `x`,
   * the k-th item of chain b, takes `x`'s link and `x`'s link is cleared.
   * Only that chain changes.
   */
  method RemoveEntry(hash: nat -> u32, E: seq<Ptr>, next: map<nat, Ptr>, hashval: map<nat, u32>,
                     ghost B: seq<seq<nat>>, b: nat, np: HSlot, ghost k: nat, x: nat)
    returns (E': seq<Ptr>, links: map<nat, Ptr>)
    requires ChainsOk(hash, E, |E|, next, hashval, B) && b < |B| && k < |B[b]| && B[b][k] == x
    requires np == SlotOf(B[b], k, b)
    ensures ChainsOk(hash, E', |E|, links, hashval, B[b := B[b][..k] + B[b][k + 1..]])
    ensures links.Keys == next.Keys && x in links && links[x] == Null
    ensures forall y {:trigger links[y]} :: y in next && y !in B[b] ==> links[y] == next[y]
  {
    RemoveReady(hash, E, next, hashval, B, b, k);
    var head;
    links, head := UnlinkChain(next, E[b], B[b], b, np, k, x);
    RemoveKeeps(hash, E, next, links, hashval, B, b, k, head);
    E' := E[b := head];
  }

  /** Before `_del` unlinks the k-th item of chain b: that chain is linked and the item has a link. */
  lemma RemoveReady(hash: nat -> u32, E: seq<Ptr>, next: map<nat, Ptr>, hashval: map<nat, u32>,
                    B: seq<seq<nat>>, b: nat, k: nat)
    requires ChainsOk(hash, E, |E|, next, hashval, B) && b < |B| && k < |B[b]|
    ensures Linked(next, E[b], B[b]) && B[b][k] in next
  {
    LinkedAt(next, E[b], B[b], k);
  }

  /** Items off the table keep their links through the grow and the insertion of `_add`. */
  lemma AddFrame(B0: seq<seq<nat>>, G: seq<seq<nat>>, next0: map<nat, Ptr>, next1: map<nat, Ptr>,
                 next2: map<nat, Ptr>, x: nat, b: nat)
    requires Elems(G) == Elems(B0) && b < |G|
    requires next1.Keys == next0.Keys && next2.Keys == next1.Keys + {x}
    requires forall y {:trigger next1[y]} :: y in next0 && y !in Flatten(B0) ==> next1[y] == next0[y]
    requires forall y {:trigger next2[y]} :: y in next1 && y !in G[b] && y != x ==> next2[y] == next1[y]
    ensures forall y {:trigger next2[y]} :: y in next0 && y !in Flatten(B0) && y != x ==> next2[y] == next0[y]
  {
    forall y | y in next0 && y !in Flatten(B0) && y != x
      ensures next2[y] == next0[y]
    {
      assert y !in Elems(G);
      FlattenMember(G, y);
    }
  }

  /** Items off the table keep their links through the unlinking and the shrink of `_del`. */
  lemma UnlinkFrame(B0: seq<seq<nat>>, R: seq<seq<nat>>, next0: map<nat, Ptr>, next1: map<nat, Ptr>,
                    next2: map<nat, Ptr>, x: nat, b: nat)
    requires b < |B0| && x in B0[b]
    requires next1.Keys == next0.Keys && next2.Keys == next1.Keys
    requires forall y {:trigger next1[y]} :: y in next0 && y !in B0[b] ==> next1[y] == next0[y]
    requires forall y {:trigger next2[y]} :: y in next1 && y !in Flatten(R) ==> next2[y] == next1[y]
    requires forall y :: y in Flatten(R) ==> y in Flatten(B0)
    ensures x in Flatten(B0)
    ensures forall y {:trigger next2[y]} :: y in next0 && y !in Flatten(B0) ==> next2[y] == next0[y]
  {
    FlattenMember(B0, x);
    forall y | y in next0 && y !in Flatten(B0)
      ensures next2[y] == next0[y]
    {
      FlattenMember(B0, y);
      assert y !in B0[b];
    }
  }
}
