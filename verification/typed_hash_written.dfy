/**
 * The typed hash table of lib/typesafe.h (TYPEDHASH_MAKEFUNCS) with the
 * resizing of lib/typesafe.c as written: `typesafe_hash_grow` cuts every
 * chain once at the first item that belongs to the new upper bucket, and
 * `typesafe_hash_shrink` appends the chain of every bucket i + newsize to
 * that of bucket i (HashWritten).
 *
 * The head and the items are the fields of `TypedHash.Hash`. What the table
 * keeps between operations is weaker: the chains are linked, apart and
 * cached, `count` counts them and the load is in the band, but an item need
 * not sit in the bucket of its hash value nor a chain be ordered by hash
 * value. So `_find` here is sound but may miss an item the table holds,
 * `_del` may leave it in place (`HashWrittenOps.AddAsWrittenStrands`), and
 * `_next` may lead back to an item already visited
 * (`HashWrittenOps.IterationCycles`).
 */
module TypedHashWritten {
  import opened Links
  import opened HashSpec
  import opened HashRelink
  import opened HashResize
  import opened HashWalk
  import opened HashOps
  import opened HashWritten
  import opened HashWrittenOps
  import TypedHash

  class HashAsWritten {
    var entries: seq<Ptr>
    var tabsize: nat
    var count: nat
    /** The embedded `next` field of every item. */
    var next: map<nat, Ptr>
    /** The embedded `hashval` field of every item. */
    var hashval: map<nat, u32>
    /** The hash function. */
    const hash: nat -> u32
    /** The comparison function, as a key: `cmpfn(a, b) == 0` when the keys are equal. */
    const key: nat -> int
    ghost var Buckets: seq<seq<nat>>

    /** The table invariant between operations, without placement. */
    ghost predicate Valid()
      reads this
    {
      var ok := WrittenTableOk(hash, entries, tabsize, count, next, hashval, Buckets);
      ok
    }

    /** `_init`: no bucket array at all. */
    constructor Init(hash: nat -> u32, key: nat -> int)
      ensures Valid() && Buckets == [] && count == 0
      ensures this.hash == hash && this.key == key && next == map[] && hashval == map[]
    {
      entries, tabsize, count := [], 0, 0;
      next, hashval := map[], map[];
      this.hash, this.key := hash, key;
      Buckets := [];
    }

    /**
     * `_add` of an item the table does not hold: the count goes up, the
     * table grows as written if needed, the item caches its hash value and
     * is linked into the chain of its bucket before the first item whose
     * hash value is not below its own.
     */
    method Add(x: nat)
      requires Valid() && x !in Flatten(Buckets) && count + 1 < 0x8000_0000
      modifies this
      ensures Valid() && Buckets == AddedAsWritten(hash, old(Buckets), x)
      ensures Elems(Buckets) == Elems(old(Buckets)) + multiset{x}
      ensures hashval == old(hashval)[x := hash(x)] && next.Keys == old(next).Keys + {x}
      ensures forall y {:trigger next[y]} :: y in old(next) && y !in Flatten(old(Buckets)) && y != x ==> next[y] == old(next)[y]
    {
      LinkedChainsDistinct(next, entries, Buckets);
      AddedAsWrittenKeeps(hash, Buckets, x);
      var E, size, links, h := AddTableAsWritten(hash, entries, tabsize, count, next, hashval, Buckets, x);
      entries, tabsize, count, next, hashval, Buckets := E, size, count + 1, links, h, AddedAsWritten(hash, Buckets, x);
    }

    /**
     * `_del`: nothing happens without a bucket array or when the two walks
     * along the chain of bucket `hash(x) % tabsize` do not reach `x`;
     * otherwise `x` is unlinked and the table shrinks as written if needed.
     */
    method Del(x: nat)
      requires Valid()
      modifies this
      ensures Valid() && Buckets == DeletedAsWritten(hash, old(Buckets), x)
      ensures Elems(Buckets) == if DelFinds(hash, old(Buckets), x) then Elems(old(Buckets)) - multiset{x} else Elems(old(Buckets))
      ensures hashval == old(hashval) && next.Keys == old(next).Keys
      ensures DelFinds(hash, old(Buckets), x) ==> x in next && next[x] == Null
      ensures forall y {:trigger next[y]} :: y in old(next) && y !in Flatten(old(Buckets)) ==> next[y] == old(next)[y]
    {
      BandEven(tabsize, count);
      LinkedChainsDistinct(next, entries, Buckets);
      DeletedAsWrittenKeeps(hash, Buckets, x);
      if tabsize == 0 {
        return;
      }
      var hval := hash(x);
      var hbits := hval % tabsize;
      assert Linked(next, entries[hbits], Buckets[hbits]);
      var np, cur, k := LocateInChain(hash, hashval, next, entries[hbits], Buckets[hbits], hbits, x, hval);
      if cur != Ref(x) {
        return;
      }
      Unlink(hbits, np, k, x);
    }

    /**
     * `_pop`: the first item of the first bucket that has one is unlinked
     * and returned, and the table shrinks as written if needed; an empty
     * table returns null.
     */
    method Pop() returns (r: Ptr)
      requires Valid()
      modifies this
      ensures Valid() && r == HeadPtr(Flatten(old(Buckets))) && Buckets == PoppedAsWritten(old(Buckets))
      ensures r.Ref? ==> Elems(Buckets) + multiset{r.id} == Elems(old(Buckets)) && r.id in next && next[r.id] == Null
      ensures r == Null ==> Buckets == old(Buckets) && next == old(next)
      ensures hashval == old(hashval) && next.Keys == old(next).Keys
      ensures forall y {:trigger next[y]} :: y in old(next) && y !in Flatten(old(Buckets)) ==> next[y] == old(next)[y]
    {
      BandEven(tabsize, count);
      LinkedChainsDistinct(next, entries, Buckets);
      PoppedAsWrittenKeeps(Buckets);
      FirstFullHead(Buckets);
      hide Elems, UnlinkedAsWritten, Disjoint;
      var i := 0;
      while i < tabsize && entries[i] == Null
        invariant i <= FirstFull(Buckets)
      {
        assert Linked(next, entries[i], Buckets[i]);
        i := i + 1;
      }
      if i == tabsize {
        return Null;
      }
      assert Linked(next, entries[i], Buckets[i]);
      var hitem := entries[i];
      Unlink(i, Entry(i), 0, hitem.id);
      return hitem;
    }

    /**
     * The common end of `_del` and `_pop`: `x`, the k-th item of chain b,
     * reached through `np`, is unlinked and the count goes down.
     */
    method Unlink(b: nat, np: HSlot, ghost k: nat, x: nat)
      requires Valid() && b < tabsize && k < |Buckets[b]| && Buckets[b][k] == x && np == SlotOf(Buckets[b], k, b)
      modifies this
      ensures Valid() && Buckets == UnlinkedAsWritten(old(Buckets), b, k) && x in Flatten(old(Buckets))
      ensures hashval == old(hashval) && next.Keys == old(next).Keys && x in next && next[x] == Null
      ensures forall y {:trigger next[y]} :: y in old(next) && y !in Flatten(old(Buckets)) ==> next[y] == old(next)[y]
    {
      assert |Buckets| == tabsize && tabsize % 2 == 0;
      hide WrittenTableOk, UnlinkedAsWritten;
      var E, size, links := UnlinkTableAsWritten(hash, entries, tabsize, count, next, hashval, Buckets, b, np, k, x);
      entries, tabsize, count, next, Buckets := E, size, count - 1, links, UnlinkedAsWritten(Buckets, b, k);
    }

    /**
     * `_find`: the lookup along the chain of bucket `hash(probe) % tabsize`;
     * what it finds has the probe's hash value and key and is the first such
     * item of that chain.
     */
    method Find(probe: nat) returns (r: Ptr)
      requires Valid()
      ensures r == if tabsize == 0 then Null else FindChain(hash, key, Buckets[hash(probe) % tabsize], hash(probe), key(probe))
      ensures r.Ref? ==> r.id in Flatten(Buckets) && hash(r.id) == hash(probe) && key(r.id) == key(probe)
      ensures r.Ref? ==> tabsize > 0 && var c := Buckets[hash(probe) % tabsize];
        r.id in c && forall j :: 0 <= j < IndexOf(c, r.id) ==> hash(c[j]) != hash(probe) || key(c[j]) != key(probe)
    {
      if tabsize == 0 {
        return Null;
      }
      var hval := hash(probe);
      var hbits := hval % tabsize;
      assert Linked(next, entries[hbits], Buckets[hbits]);
      r := FindInChain(hash, key, hashval, next, entries[hbits], Buckets[hbits], hval, key(probe));
      FindChainFirst(hash, key, Buckets[hbits], hval, key(probe));
      if r.Ref? {
        FlattenMember(Buckets, r.id);
      }
    }

    /** `_first`: the head of the first bucket that has one. */
    method First() returns (r: Ptr)
      requires Valid()
      ensures r == HeadPtr(Flatten(Buckets))
    {
      var i := SkipEmpty(entries, next, Buckets, 0);
      assert Buckets[0..] == Buckets;
      if i < tabsize {
        FlattenDrop(Buckets, i);
        return entries[i];
      }
      return Null;
    }

    /**
     * `_next`: the item's own link if it has one, else the head of the
     * first bucket that has one after the bucket of the item's cached hash
     * value. Where the written resize has left the item outside that bucket,
     * this is not the item after it in the order `_first` starts
     * (`HashWrittenOps.IterationCycles`).
     */
    method Next(x: nat) returns (r: Ptr)
      requires Valid() && x in Flatten(Buckets)
      ensures forall b, m {:trigger Buckets[b][m]} :: 0 <= b < |Buckets| && 0 <= m < |Buckets[b]| && Buckets[b][m] == x ==>
        r == NextAfter(hash, Buckets, b, m)
    {
      ghost var b, m := LocateWritten(hash, entries, next, hashval, Buckets, x);
      if next[x] != Null {
        assert Buckets[b][m + 1..][0] == Buckets[b][m + 1];
        return next[x];
      }
      var i := SkipEmpty(entries, next, Buckets, hashval[x] % tabsize + 1);
      if i < tabsize {
        FlattenDrop(Buckets, i);
        HeadPtrConcat(Buckets[i], Flatten(Buckets[i + 1..]));
        return entries[i];
      }
      assert Buckets[i..] == [];
      return Null;
    }

    /** `_next_safe`: `_next`, with null for null. */
    method NextSafe(x: Ptr) returns (r: Ptr)
      requires Valid() && (x.Ref? ==> x.id in Flatten(Buckets))
      ensures x == Null ==> r == Null
      ensures x.Ref? ==> forall b, m {:trigger Buckets[b][m]} :: 0 <= b < |Buckets| && 0 <= m < |Buckets[b]| && Buckets[b][m] == x.id ==>
        r == NextAfter(hash, Buckets, b, m)
    {
      if x == Null {
        return Null;
      }
      r := Next(x.id);
    }

    /** `_count`: the number of items in the table. */
    method Count() returns (r: nat)
      requires Valid()
      ensures r == |Flatten(Buckets)|
    {
      return count;
    }

    /** `_fini` of an empty table: the written shrink frees the array and the head is zeroed. */
    method Fini()
      requires Valid() && count == 0
      modifies this
      ensures Valid() && tabsize == 0 && count == 0 && entries == [] && Buckets == []
    {
      var E, size, links := ShrinkTableAsWritten(hash, entries, tabsize, count, next, hashval, Buckets);
      entries, tabsize, count, next := [], 0, 0, links;
      Buckets := ShrunkAsWritten(Buckets);
    }
  }

  /**
   * `typesafe_hash_grow` as written, on a table whose count has just
   * reached the threshold: the array is reallocated to twice the old size
   * (two when there was none) and every chain is cut once.
   */
  method GrowTableAsWritten(hash: nat -> u32, E: seq<Ptr>, tabsize: nat, count: nat, next: map<nat, Ptr>,
                            hashval: map<nat, u32>, ghost B: seq<seq<nat>>)
    returns (E': seq<Ptr>, tabsize': nat, next': map<nat, Ptr>)
    requires WrittenChainsOk(hash, E, tabsize, next, hashval, B) && GrowSize(count, 0) == (if tabsize == 0 then 2 else 2 * tabsize)
    ensures WrittenChainsOk(hash, E', tabsize', next', hashval, GrownAsWritten(hash, B)) && tabsize' == GrowSize(count, 0)
    ensures Elems(GrownAsWritten(hash, B)) == Elems(B)
    ensures next'.Keys == next.Keys
    ensures forall y {:trigger next'[y]} :: y in next && y !in Flatten(B) ==> next'[y] == next[y]
  {
    tabsize' := GrowSize(count, 0);
    if tabsize == 0 {
      E', next' := seq(tabsize', j => Null), next;
      assert AllLinked(next, E', GrownAsWritten(hash, B));
    } else {
      next', E' := GrowWritten(hash, hashval, next, E, B);
    }
    LinkedChainsDistinct(next, E, B);
    GrownAsWrittenKeeps(hash, B);
    CachedSame(hash, hashval, GrownAsWritten(hash, B), B);
  }

  /**
   * `typesafe_hash_shrink` as written, on a table whose count has just
   * fallen to the threshold: an empty table loses its array; otherwise the
   * chain of every bucket i + newsize is appended to that of bucket i and
   * the array is cut to half its size.
   */
  method ShrinkTableAsWritten(hash: nat -> u32, E: seq<Ptr>, tabsize: nat, count: nat, next: map<nat, Ptr>,
                              hashval: map<nat, u32>, ghost B: seq<seq<nat>>)
    returns (E': seq<Ptr>, tabsize': nat, next': map<nat, Ptr>)
    requires WrittenChainsOk(hash, E, tabsize, next, hashval, B) && count == TotalLen(B) && tabsize % 2 == 0
    requires count > 0 ==> 2 * ShrinkSize(count, 0) == tabsize
    ensures WrittenChainsOk(hash, E', tabsize', next', hashval, ShrunkAsWritten(B))
    ensures tabsize' == if count == 0 then 0 else ShrinkSize(count, 0)
    ensures next'.Keys == next.Keys
    ensures forall y {:trigger next'[y]} :: y in next && y !in Flatten(B) ==> next'[y] == next[y]
  {
    if count == 0 {
      E', tabsize', next' := [], 0, next;
    } else {
      tabsize' := ShrinkSize(count, 0);
      next', E' := ShrinkWritten(next, E, B, tabsize');
    }
    ShrunkAsWrittenKeeps(B);
    CachedSame(hash, hashval, ShrunkAsWritten(B), B);
  }

  /**
   * The grow check of `_add`: a table without buckets, or one whose count
   * would reach the grow threshold, grows as written; the chains then hold
   * the table `GrowIfFullAsWritten` describes, in the band for one more item.
   */
  method GrowIfFullTableAsWritten(hash: nat -> u32, E: seq<Ptr>, tabsize: nat, count: nat, next: map<nat, Ptr>,
                                  hashval: map<nat, u32>, ghost B: seq<seq<nat>>)
    returns (E': seq<Ptr>, tabsize': nat, next': map<nat, Ptr>)
    requires WrittenTableOk(hash, E, tabsize, count, next, hashval, B) && count + 1 < 0x8000_0000
    ensures WrittenChainsOk(hash, E', tabsize', next', hashval, GrowIfFullAsWritten(hash, B)) && LoadBand(tabsize', count + 1)
    ensures Elems(GrowIfFullAsWritten(hash, B)) == Elems(B)
    ensures next'.Keys == next.Keys
    ensures forall y {:trigger next'[y]} :: y in next && y !in Flatten(B) ==> next'[y] == next[y]
  {
    GrowKeepsBand(tabsize, count);
    E', tabsize', next' := E, tabsize, next;
    if tabsize == 0 || GrowThreshold(tabsize, count + 1) {
      E', tabsize', next' := GrowTableAsWritten(hash, E, tabsize, count + 1, next, hashval, B);
    }
  }

  /**
   * The shrink check at the end of `_del` and `_pop`, after the count went
   * down to `count`: a table at the shrink threshold shrinks as written;
   * the chains then hold the table `ShrinkIfLowAsWritten` describes, in the band.
   */
  method ShrinkIfLowTableAsWritten(hash: nat -> u32, E: seq<Ptr>, tabsize: nat, count: nat, next: map<nat, Ptr>,
                                   hashval: map<nat, u32>, ghost R: seq<seq<nat>>)
    returns (E': seq<Ptr>, tabsize': nat, next': map<nat, Ptr>)
    requires WrittenChainsOk(hash, E, tabsize, next, hashval, R) && count == TotalLen(R)
    requires LoadBand(tabsize, count + 1) && tabsize % 2 == 0
    ensures WrittenTableOk(hash, E', tabsize', count, next', hashval, ShrinkIfLowAsWritten(R))
    ensures next'.Keys == next.Keys
    ensures forall y {:trigger next'[y]} :: y in next && y !in Flatten(R) ==> next'[y] == next[y]
  {
    ShrinkKeepsBand(tabsize, count + 1);
    if ShrinkThreshold(tabsize, count) {
      E', tabsize', next' := ShrinkTableAsWritten(hash, E, tabsize, count, next, hashval, R);
      ShrunkAsWrittenKeeps(R);
      assert ShrinkIfLowAsWritten(R) == ShrunkAsWritten(R);
    } else {
      E', tabsize', next' := E, tabsize, next;
      assert ShrinkIfLowAsWritten(R) == R;
    }
    BandEven(tabsize', count);
  }

  /** `_add` on the fields of the head: see `HashAsWritten.Add`. */
  method AddTableAsWritten(hash: nat -> u32, E: seq<Ptr>, tabsize: nat, count: nat, next: map<nat, Ptr>,
                           hashval: map<nat, u32>, ghost B: seq<seq<nat>>, x: nat)
    returns (E': seq<Ptr>, tabsize': nat, next': map<nat, Ptr>, hashval': map<nat, u32>)
    requires WrittenTableOk(hash, E, tabsize, count, next, hashval, B) && x !in Flatten(B) && count + 1 < 0x8000_0000
    ensures WrittenTableOk(hash, E', tabsize', count + 1, next', hashval', AddedAsWritten(hash, B, x))
    ensures hashval' == hashval[x := hash(x)] && next'.Keys == next.Keys + {x}
    ensures forall y {:trigger next'[y]} :: y in next && y !in Flatten(B) && y != x ==> next'[y] == next[y]
  {
    var E1, links;
    E1, tabsize', links := GrowIfFullTableAsWritten(hash, E, tabsize, count, next, hashval, B);
    ghost var G := GrowIfFullAsWritten(hash, B);
    assert x !in Flatten(G) by {
      assert x !in Elems(B);
    }
    E', next', hashval' := InsertEntryAsWritten(hash, E1, links, hashval, G, x);
    LinkedChainsDistinct(next, E, B);
    AddedAsWrittenKeeps(hash, B, x);
    assert |Elems(AddedAsWritten(hash, B, x))| == |Elems(B)| + 1;
    BandEven(tabsize', count + 1);
    TypedHash.AddFrame(B, G, next, links, next', x, hash(x) % |G|);
  }

  /** The end of `_del` and `_pop` on the fields of the head: see `HashAsWritten.Unlink`. */
  method UnlinkTableAsWritten(hash: nat -> u32, E: seq<Ptr>, tabsize: nat, count: nat, next: map<nat, Ptr>,
                              hashval: map<nat, u32>, ghost B: seq<seq<nat>>, b: nat, np: HSlot, ghost k: nat, x: nat)
    returns (E': seq<Ptr>, tabsize': nat, next': map<nat, Ptr>)
    requires WrittenTableOk(hash, E, tabsize, count, next, hashval, B)
    requires b < tabsize && k < |B[b]| && B[b][k] == x && np == SlotOf(B[b], k, b)
    ensures x in Flatten(B) && count > 0
    ensures WrittenTableOk(hash, E', tabsize', count - 1, next', hashval, UnlinkedAsWritten(B, b, k))
    ensures next'.Keys == next.Keys && x in next' && next'[x] == Null
    ensures forall y {:trigger next'[y]} :: y in next && y !in Flatten(B) ==> next'[y] == next[y]
  {
    assert LoadBand(tabsize, count) && tabsize % 2 == 0 && count == TotalLen(B) && |B| == tabsize;
    assert WrittenChainsOk(hash, E, tabsize, next, hashval, B);
    ghost var R := B[b := B[b][..k] + B[b][k + 1..]];
    assert TotalLen(R) + 1 == TotalLen(B) && x in Flatten(B) && x !in Flatten(R) &&
      (forall y :: y in Flatten(R) ==> y in Flatten(B)) by {
      LinkedChainsDistinct(next, E, B);
      UnlinkedAsWrittenKeeps(B, b, k);
    }
    assert UnlinkedAsWritten(B, b, k) == ShrinkIfLowAsWritten(R);
    hide WrittenTableOk, UnlinkedAsWritten, ShrinkIfLowAsWritten, WrittenChainsOk;
    var E1, links := RemoveEntryAsWritten(hash, E, next, hashval, B, b, np, k, x);
    E', tabsize', next' := ShrinkIfLowTableAsWritten(hash, E1, tabsize, count - 1, links, hashval, R);
    TypedHash.UnlinkFrame(B, R, next, links, next', x, b);
  }

  /**
   * The linking step of `_add` on a table with buckets: `x` caches its hash
   * value and is linked into the chain of its bucket, before the first item
   * whose hash value is not below its own. Only that chain changes.
   */
  method InsertEntryAsWritten(hash: nat -> u32, E: seq<Ptr>, next: map<nat, Ptr>, hashval: map<nat, u32>,
                              ghost G: seq<seq<nat>>, x: nat)
    returns (E': seq<Ptr>, links: map<nat, Ptr>, hashval': map<nat, u32>)
    requires WrittenChainsOk(hash, E, |E|, next, hashval, G) && |G| > 0 && x !in Flatten(G)
    ensures var b := hash(x) % |G|;
      WrittenChainsOk(hash, E', |E|, links, hashval', G[b := InsertByHash(hash, G[b], x)])
    ensures hashval' == hashval[x := hash(x)] && links.Keys == next.Keys + {x}
    ensures forall y {:trigger links[y]} :: y in next && y !in G[hash(x) % |G|] && y != x ==> links[y] == next[y]
  {
    var hval := hash(x);
    var b := hval % |E|;
    hashval' := hashval[x := hval];
    FlattenMember(G, x);
    assert Linked(next, E[b], G[b]) && x !in G[b];
    var head;
    links, head := InsertChain(hash, hashval', next, E[b], G[b], b, x, hval);
    InsertKeepsAsWritten(hash, E, next, links, hashval, G, x, head);
    E' := E[b := head];
  }

  /** Linking `x` into the chain of bucket `hash(x) % |G|` keeps the chains linked, apart and cached. */
  lemma InsertKeepsAsWritten(hash: nat -> u32, E: seq<Ptr>, next: map<nat, Ptr>, links: map<nat, Ptr>,
                             hashval: map<nat, u32>, G: seq<seq<nat>>, x: nat, head: Ptr)
    requires WrittenChainsOk(hash, E, |E|, next, hashval, G) && |G| > 0 && x !in Flatten(G)
    requires Linked(links, head, InsertByHash(hash, G[hash(x) % |G|], x))
    requires links.Keys == next.Keys + {x}
    requires forall y {:trigger links[y]} :: y in next && y !in G[hash(x) % |G|] && y != x ==> links[y] == next[y]
    ensures var b := hash(x) % |G|;
      WrittenChainsOk(hash, E[b := head], |E|, links, hashval[x := hash(x)], G[b := InsertByHash(hash, G[b], x)])
  {
    var b := hash(x) % |G|;
    var c := InsertByHash(hash, G[b], x);
    assert AllLinked(next, E, G) && Disjoint(G) && CachedAll(hash, hashval, G);
    assert x in multiset(c);
    InsertApartAsWritten(hash, G, x, b, c);
    hide Disjoint, AllLinked, Linked, InsertByHash;
    assert AllLinked(links, E[b := head], G[b := c]) by {
      AllLinkedOne(next, links, E, G, b, head, c);
    }
    assert CachedAll(hash, hashval[x := hash(x)], G[b := c]) by {
      InsertCached(hash, hashval, G, x);
    }
    assert Disjoint(G[b := c]) by {
      DisjointReplace(G, b, c);
    }
  }

  /** The chain `x` joins shares no item with the other chains. */
  lemma InsertApartAsWritten(hash: nat -> u32, G: seq<seq<nat>>, x: nat, b: nat, c: seq<nat>)
    requires |G| > 0 && Disjoint(G) && x !in Flatten(G)
    requires b == hash(x) % |G| && c == InsertByHash(hash, G[b], x)
    ensures forall j, y :: 0 <= j < |G| && j != b && y in G[j] ==> y !in c
  {
    forall j, y | 0 <= j < |G| && j != b && y in G[j]
      ensures y !in c
    {
      FlattenMember(G, y);
      assert y !in G[b] && y != x;
      assert y !in multiset(c);
    }
  }

  /**
   * The unlinking step of `_del` and `_pop`: the place that points at `x`,
   * the k-th item of chain b, takes `x`'s link and `x`'s link is cleared.
   * Only that chain changes.
   */
  method RemoveEntryAsWritten(hash: nat -> u32, E: seq<Ptr>, next: map<nat, Ptr>, hashval: map<nat, u32>,
                              ghost B: seq<seq<nat>>, b: nat, np: HSlot, ghost k: nat, x: nat)
    returns (E': seq<Ptr>, links: map<nat, Ptr>)
    requires WrittenChainsOk(hash, E, |E|, next, hashval, B) && b < |B| && k < |B[b]| && B[b][k] == x
    requires np == SlotOf(B[b], k, b)
    ensures WrittenChainsOk(hash, E', |E|, links, hashval, B[b := B[b][..k] + B[b][k + 1..]])
    ensures links.Keys == next.Keys && x in links && links[x] == Null
    ensures forall y {:trigger links[y]} :: y in next && y !in B[b] ==> links[y] == next[y]
  {
    assert Linked(next, E[b], B[b]);
    LinkedAt(next, E[b], B[b], k);
    var head;
    links, head := UnlinkChain(next, E[b], B[b], b, np, k, x);
    RemoveKeepsAsWritten(hash, E, next, links, hashval, B, b, k, head);
    E' := E[b := head];
  }

  /** Unlinking the k-th item of chain b keeps the chains linked, apart and cached. */
  lemma RemoveKeepsAsWritten(hash: nat -> u32, E: seq<Ptr>, next: map<nat, Ptr>, links: map<nat, Ptr>,
                             hashval: map<nat, u32>, B: seq<seq<nat>>, b: nat, k: nat, head: Ptr)
    requires WrittenChainsOk(hash, E, |E|, next, hashval, B) && b < |B| && k < |B[b]|
    requires Linked(links, head, B[b][..k] + B[b][k + 1..])
    requires links.Keys == next.Keys
    requires forall y {:trigger links[y]} :: y in next && y !in B[b] ==> links[y] == next[y]
    ensures WrittenChainsOk(hash, E[b := head], |E|, links, hashval, B[b := B[b][..k] + B[b][k + 1..]])
  {
    var c := B[b][..k] + B[b][k + 1..];
    assert forall y :: y in c ==> y in B[b];
    AllLinkedOne(next, links, E, B, b, head, c);
    CachedOne(hash, hashval, B, b, c);
    DisjointReplace(B, b, c);
  }
}
