/**
 * The typed hash table of lib/typesafe.h (TYPEDHASH_MAKEFUNCS) as values:
 * what `_add`, `_del` and `_pop` do to the chains of the buckets, the state
 * invariant the table keeps between operations, and the facts the lookups
 * and the iteration rely on.
 */
module HashOps {
  import opened Links
  import opened HashSpec
  import opened HashRelink
  import opened HashResize

  // ---------------------------------------------------------------------
  // The stored state.

  /** The bucket array links exactly the chains `B`; every item caches its hash value and sits where lookups look. */
  ghost predicate ChainsOk(hash: nat -> u32, entries: seq<Ptr>, tabsize: nat, next: map<nat, Ptr>,
                           hashval: map<nat, u32>, B: seq<seq<nat>>)
  {
    var ok := |entries| == tabsize == |B| && AllLinked(next, entries, B) && CachedAll(hash, hashval, B) && Placed(hash, B);
    ok
  }

  /**
   * Between operations: the chains are in order, `count` counts their items
   * and the load is in the band. The band makes the number of buckets even
   * (`BandEven`); that is repeated here for the specifications that halve it.
   */
  ghost predicate TableOk(hash: nat -> u32, entries: seq<Ptr>, tabsize: nat, count: nat, next: map<nat, Ptr>,
                          hashval: map<nat, u32>, B: seq<seq<nat>>)
  {
    var ok := ChainsOk(hash, entries, tabsize, next, hashval, B) && count == TotalLen(B) && LoadBand(tabsize, count)
      && tabsize % 2 == 0;
    ok
  }

  /** A table in the band has no bucket or an even number of them, at least two. */
  lemma BandEven(tabsize: nat, count: nat)
    requires LoadBand(tabsize, count)
    ensures tabsize % 2 == 0 && (tabsize == 0 <==> count == 0)
  {
  }

  // ---------------------------------------------------------------------
  // What the operations do to the chains.

  /** The chains after the corrected `typesafe_hash_grow` of a table in the band: 2 buckets from none, else twice as many. */
  ghost function Grown(hash: nat -> u32, B: seq<seq<nat>>): (G: seq<seq<nat>>)
    ensures |G| == if B == [] then 2 else 2 * |B|
  {
    if B == [] then [[], []] else GrowSpec(hash, B)
  }

  /** Growing keeps the table placed and keeps its items. */
  lemma GrownKeeps(hash: nat -> u32, B: seq<seq<nat>>)
    requires Placed(hash, B)
    ensures Placed(hash, Grown(hash, B)) && Elems(Grown(hash, B)) == Elems(B)
  {
    if B == [] {
      FlattenEmpty(Grown(hash, B));
    } else {
      GrowSpecPlaced(hash, B);
      GrowSpecElems(hash, B);
    }
  }

  /**
   * The chains after the corrected `typesafe_hash_shrink` of a table in the
   * band: no bucket array once it is empty, else half as many buckets.
   */
  ghost function Shrunk(hash: nat -> u32, B: seq<seq<nat>>): (S: seq<seq<nat>>)
    requires |B| % 2 == 0
    ensures |S| == if TotalLen(B) == 0 then 0 else |B| / 2
  {
    if TotalLen(B) == 0 then [] else ShrinkSpec(hash, B, |B| / 2)
  }

  /** Shrinking keeps the table placed and keeps its items. */
  lemma ShrunkKeeps(hash: nat -> u32, B: seq<seq<nat>>)
    requires |B| % 2 == 0 && Placed(hash, B)
    ensures Placed(hash, Shrunk(hash, B)) && Elems(Shrunk(hash, B)) == Elems(B)
    ensures TotalLen(Shrunk(hash, B)) == TotalLen(B)
  {
    if TotalLen(B) != 0 {
      assert B != [];
      ShrinkSpecPlaced(hash, B, |B| / 2);
      ShrinkSpecElems(hash, B, |B| / 2);
    }
    assert |Elems(Shrunk(hash, B))| == |Elems(B)|;
  }

  /** The grow check of `_add`, with the count already raised: a table without buckets or at the threshold grows. */
  ghost function GrowIfFull(hash: nat -> u32, B: seq<seq<nat>>): (G: seq<seq<nat>>)
    ensures |G| > 0 && (|B| % 2 == 0 ==> |G| % 2 == 0)
  {
    if B == [] || GrowThreshold(|B|, TotalLen(B) + 1) then Grown(hash, B) else B
  }

  /**
   * `_add`: the count goes up, a table without buckets or at the grow
   * threshold grows, and `x` is linked into the chain of its hash value
   * before the first item whose hash value is not below its own.
   */
  ghost function Added(hash: nat -> u32, B: seq<seq<nat>>, x: nat): (A: seq<seq<nat>>)
    ensures |A| == |GrowIfFull(hash, B)|
  {
    var G := GrowIfFull(hash, B);
    var b := hash(x) % |G|;
    G[b := InsertByHash(hash, G[b], x)]
  }

  /** Adding keeps the table placed and adds exactly `x` to its items. */
  lemma AddedKeeps(hash: nat -> u32, B: seq<seq<nat>>, x: nat)
    requires Placed(hash, B)
    ensures Placed(hash, Added(hash, B, x))
    ensures Elems(Added(hash, B, x)) == Elems(B) + multiset{x}
  {
    var G := GrowIfFull(hash, B);
    assert Placed(hash, G) && Elems(G) == Elems(B) by {
      GrownKeeps(hash, B);
    }
    InsertedKeeps(hash, G, x);
  }

  /** Chains that hold the added table, in the band for one more item, make a sound table of one more item. */
  lemma AddedTableOk(hash: nat -> u32, E: seq<Ptr>, tabsize: nat, count: nat, next: map<nat, Ptr>,
                     hashval: map<nat, u32>, B: seq<seq<nat>>, x: nat)
    requires Placed(hash, B) && count == TotalLen(B) && LoadBand(tabsize, count + 1)
    requires ChainsOk(hash, E, tabsize, next, hashval, Added(hash, B, x))
    ensures TableOk(hash, E, tabsize, count + 1, next, hashval, Added(hash, B, x))
  {
    AddedKeeps(hash, B, x);
    assert |Elems(Added(hash, B, x))| == |Elems(B)| + 1;
    BandEven(tabsize, count + 1);
  }

  /** Linking `x` into the chain of its hash value keeps the table placed and adds exactly `x`. */
  lemma InsertedKeeps(hash: nat -> u32, G: seq<seq<nat>>, x: nat)
    requires |G| > 0 && Placed(hash, G)
    ensures var b := hash(x) % |G|;
      Placed(hash, G[b := InsertByHash(hash, G[b], x)]) &&
      Elems(G[b := InsertByHash(hash, G[b], x)]) == Elems(G) + multiset{x}
  {
    var b := hash(x) % |G|;
    PlacedInsert(hash, G, x);
    ElemsChange(G, b, InsertByHash(hash, G[b], x), multiset{x}, multiset{});
  }

  /** Replacing a chain by one with the items `more` added and `less` taken out does the same to the table. */
  lemma ElemsChange(G: seq<seq<nat>>, b: nat, c: seq<nat>, more: multiset<nat>, less: multiset<nat>)
    requires b < |G| && multiset(c) + less == multiset(G[b]) + more
    ensures Elems(G[b := c]) + less == Elems(G) + more
  {
    ElemsUpdate(G, b, c);
    var L, R := Elems(G[b := c]) + less, Elems(G) + more;
    forall y
      ensures L[y] == R[y]
    {
      assert (Elems(G[b := c]) + multiset(G[b]))[y] == (Elems(G) + multiset(c))[y];
      assert (multiset(c) + less)[y] == (multiset(G[b]) + more)[y];
    }
    assert L == R;
  }

  /** The shrink check of `_del` and `_pop`, with the count already lowered. */
  ghost function ShrinkIfLow(hash: nat -> u32, R: seq<seq<nat>>): (S: seq<seq<nat>>)
    requires |R| % 2 == 0
    ensures !ShrinkThreshold(|R|, TotalLen(R)) ==> S == R
    ensures |S| == |R| || 2 * |S| == |R| || |S| == 0
  {
    if ShrinkThreshold(|R|, TotalLen(R)) then Shrunk(hash, R) else R
  }

  /**
   * `_del` and `_pop`: a held `x` leaves its chain, the count goes down and
   * a table at the shrink threshold shrinks; a table that does not hold `x`
   * is left as it is.
   */
  ghost function Deleted(hash: nat -> u32, B: seq<seq<nat>>, x: nat): (D: seq<seq<nat>>)
    requires |B| % 2 == 0
    ensures x !in Flatten(B) ==> D == B
    ensures |D| == |B| || 2 * |D| == |B| || |D| == 0
  {
    FlattenMember(B, x);
    if B == [] || x !in B[hash(x) % |B|] then B
    else
      var b := hash(x) % |B|;
      ShrinkIfLow(hash, B[b := Remove(B[b], x)])
  }

  /** Deleting keeps the table placed and takes exactly one `x` out of its items, if it held one. */
  lemma DeletedKeeps(hash: nat -> u32, B: seq<seq<nat>>, x: nat)
    requires |B| % 2 == 0 && Placed(hash, B)
    ensures Placed(hash, Deleted(hash, B, x))
    ensures Elems(Deleted(hash, B, x)) == Elems(B) - multiset{x}
  {
    if B == [] || x !in B[hash(x) % |B|] {
      NotHeld(hash, B, x);
    } else {
      var b := hash(x) % |B|;
      var R := B[b := Remove(B[b], x)];
      RemovedKeeps(hash, B, b, x);
      ShrunkKeeps(hash, R);
      assert Placed(hash, ShrinkIfLow(hash, R)) && Elems(ShrinkIfLow(hash, R)) == Elems(R);
    }
  }

  /** A placed table holds `x` only in the chain of its hash value. */
  lemma NotHeld(hash: nat -> u32, B: seq<seq<nat>>, x: nat)
    requires Placed(hash, B) && (B == [] || x !in B[hash(x) % |B|])
    ensures x !in Flatten(B) && Elems(B) - multiset{x} == Elems(B)
  {
    FlattenMember(B, x);
    assert x !in Elems(B);
  }

  /** Unlinking `x` from a chain that holds it keeps the table placed and takes exactly one `x` out. */
  lemma RemovedKeeps(hash: nat -> u32, B: seq<seq<nat>>, b: nat, x: nat)
    requires b < |B| && x in B[b] && Placed(hash, B)
    ensures Placed(hash, B[b := Remove(B[b], x)])
    ensures Elems(B[b := Remove(B[b], x)]) + multiset{x} == Elems(B)
  {
    var k := IndexOf(B[b], x);
    assert Remove(B[b], x) == B[b][..k] + B[b][k + 1..];
    PlacedRemove(hash, B, b, k);
    ElemsChange(B, b, Remove(B[b], x), multiset{}, multiset{x});
  }

  /**
   * Unlinking the k-th item `x` of chain b of a placed table whose items are
   * all different: b is the chain of `x`'s hash value, one item fewer
   * remains, `x` is not among them and none is new; what `_del` then does is
   * the shrink check on the result.
   */
  lemma UnlinkFacts(hash: nat -> u32, B: seq<seq<nat>>, b: nat, k: nat)
    requires |B| % 2 == 0 && Placed(hash, B) && Distinct(Flatten(B)) && b < |B| && k < |B[b]| && Distinct(B[b])
    ensures var x := B[b][k]; var R := B[b := B[b][..k] + B[b][k + 1..]];
      x in Flatten(B) && TotalLen(R) + 1 == TotalLen(B) && Deleted(hash, B, x) == ShrinkIfLow(hash, R) &&
      x !in Flatten(R) && forall y :: y in Flatten(R) ==> y in Flatten(B)
  {
    var x := B[b][k];
    var R := B[b := B[b][..k] + B[b][k + 1..]];
    assert x in B[b];
    FlattenMember(B, x);
    assert R == B[b := Remove(B[b], x)] by {
      RemoveAt(B[b], k);
    }
    assert Elems(R) + multiset{x} == Elems(B) by {
      RemovedKeeps(hash, B, b, x);
    }
    assert |Elems(R)| + 1 == |Elems(B)|;
    assert x !in Flatten(R) by {
      DistinctOnce(Flatten(B), x);
      assert multiset(Flatten(R))[x] == 0;
    }
    forall y | y in Flatten(R)
      ensures y in Flatten(B)
    {
      assert multiset(Flatten(R))[y] > 0;
      assert Elems(B)[y] == Elems(R)[y] + multiset{x}[y];
      assert multiset(Flatten(B))[y] > 0;
    }
  }

  /** With items that are all different, a deleted item is gone from the table. */
  lemma DeletedGone(hash: nat -> u32, B: seq<seq<nat>>, x: nat)
    requires |B| % 2 == 0 && Placed(hash, B) && Distinct(Flatten(B))
    ensures x !in Flatten(Deleted(hash, B, x))
  {
    DeletedKeeps(hash, B, x);
    DistinctOnce(Flatten(B), x);
    assert multiset(Flatten(Deleted(hash, B, x)))[x] == 0;
  }

  /** An item occurs at most once in a sequence that repeats nothing. */
  lemma {:induction false} DistinctOnce(s: seq<nat>, x: nat)
    requires Distinct(s)
    ensures multiset(s)[x] <= 1
  {
    if s != [] {
      assert s == [s[0]] + s[1..];
      DistinctOnce(s[1..], x);
      if s[0] == x {
        assert x !in s[1..];
      }
    }
  }

  /** Adding an item and deleting it again leaves the items of the table as they were. */
  lemma AddDelItems(hash: nat -> u32, B: seq<seq<nat>>, x: nat)
    requires |B| % 2 == 0 && Placed(hash, B)
    ensures |Added(hash, B, x)| % 2 == 0
    ensures Elems(Deleted(hash, Added(hash, B, x), x)) == Elems(B)
  {
    var A := Added(hash, B, x);
    AddedKeeps(hash, B, x);
    DeletedKeeps(hash, A, x);
  }

  // ---------------------------------------------------------------------
  // Lookups and iteration.

  /**
   * `_find` looks only at the chain of the probe's hash value, yet it finds
   * an item exactly when the table holds one with the probe's hash value
   * and key.
   */
  lemma FindInTable(hash: nat -> u32, key: nat -> int, B: seq<seq<nat>>, h: u32, k: int)
    requires |B| > 0 && Placed(hash, B)
    ensures var r := FindChain(hash, key, B[h % |B|], h, k);
      (r.Ref? ==> r.id in Flatten(B) && hash(r.id) == h && key(r.id) == k) &&
      (r == Null ==> forall y :: y in Flatten(B) && hash(y) == h ==> key(y) != k)
  {
    var r := FindChain(hash, key, B[h % |B|], h, k);
    if r.Ref? {
      FlattenMember(B, r.id);
    } else {
      forall y | y in Flatten(B) && hash(y) == h
        ensures key(y) != k
      {
        FlattenMember(B, y);
        var i :| 0 <= i < |B| && y in B[i];
        FindComplete(hash, key, B, y, i);
      }
    }
  }

  /** Chains that are placed and linked make an iteration order that repeats nothing. */
  lemma TableDistinct(next: map<nat, Ptr>, hash: nat -> u32, E: seq<Ptr>, B: seq<seq<nat>>)
    requires AllLinked(next, E, B) && Placed(hash, B)
    ensures Distinct(Flatten(B))
  {
    PlacedDisjoint(hash, B);
    assert forall i :: 0 <= i < |B| ==> Linked(next, E[i], B[i]);
    FlattenDistinct(B);
  }

  /** The iteration order from chain i on: the chain, then the later ones. */
  lemma FlattenDrop(B: seq<seq<nat>>, i: nat)
    requires i < |B|
    ensures Flatten(B[i..]) == B[i] + Flatten(B[i + 1..])
  {
    assert B[i..][1..] == B[i + 1..];
  }

  /**
   * The bucket scan of `_first`, `_next` and `_pop`: the first bucket from
   * `from` on that has a head; the items of the buckets skipped come first
   * in the iteration order; there are none.
   */
  method SkipEmpty(entries: seq<Ptr>, next: map<nat, Ptr>, ghost B: seq<seq<nat>>, from: nat) returns (i: nat)
    requires AllLinked(next, entries, B) && from <= |entries|
    ensures from <= i <= |entries| && Flatten(B[from..]) == Flatten(B[i..])
    ensures i < |entries| ==> entries[i] != Null && B[i] != [] && entries[i] == Ref(B[i][0])
  {
    i := from;
    while i < |entries| && entries[i] == Null
      invariant from <= i <= |entries| && Flatten(B[from..]) == Flatten(B[i..])
    {
      assert Linked(next, entries[i], B[i]);
      FlattenDrop(B, i);
      i := i + 1;
    }
    if i < |entries| {
      assert Linked(next, entries[i], B[i]);
    }
  }

  /**
   * Where `_next` starts from an item `x` of the table: `x` is the m-th item
   * of the chain of its cached hash value, its link points to the rest of
   * that chain, and the iteration goes on with that rest, then the later
   * chains.
   */
  lemma NextFrom(hash: nat -> u32, entries: seq<Ptr>, next: map<nat, Ptr>, hashval: map<nat, u32>,
                 B: seq<seq<nat>>, x: nat)
    returns (b: nat, m: nat)
    requires ChainsOk(hash, entries, |entries|, next, hashval, B) && x in Flatten(B)
    ensures x in hashval && b == hashval[x] % |B| && m < |B[b]| && B[b][m] == x
    ensures x in next && next[x] == HeadPtr(B[b][m + 1..])
    ensures var F := Flatten(B); F[IndexOf(F, x) + 1..] == B[b][m + 1..] + Flatten(B[b + 1..])
  {
    FlattenMember(B, x);
    b :| 0 <= b < |B| && x in B[b];
    m := IndexOf(B[b], x);
    assert Linked(next, entries[b], B[b]);
    LinkedAt(next, entries[b], B[b], m);
    TableDistinct(next, hash, entries, B);
    FlattenAfter(B, b, m);
  }

  // ---------------------------------------------------------------------
  // One chain changes.

  /** `_add`'s insertion into the chain of `x`'s hash value keeps the chains linked, cached and placed. */
  lemma InsertKeeps(hash: nat -> u32, E: seq<Ptr>, next: map<nat, Ptr>, links: map<nat, Ptr>,
                    hashval: map<nat, u32>, B: seq<seq<nat>>, x: nat, head: Ptr)
    requires ChainsOk(hash, E, |E|, next, hashval, B) && |B| > 0 && x !in Flatten(B)
    requires Linked(links, head, InsertByHash(hash, B[hash(x) % |B|], x))
    requires links.Keys == next.Keys + {x}
    requires forall y {:trigger links[y]} :: y in next && y !in B[hash(x) % |B|] && y != x ==> links[y] == next[y]
    ensures var b := hash(x) % |B|;
      ChainsOk(hash, E[b := head], |E|, links, hashval[x := hash(x)], B[b := InsertByHash(hash, B[b], x)])
  {
    var b := hash(x) % |B|;
    var c := InsertByHash(hash, B[b], x);
    PlacedInsert(hash, B, x);
    PlacedDisjoint(hash, B);
    InsertApart(hash, B, x);
    AllLinkedOne(next, links, E, B, b, head, c);
    InsertCached(hash, hashval, B, x);
  }

  /** The chain `x` joins shares no item with the other chains, and holds `x`. */
  lemma InsertApart(hash: nat -> u32, B: seq<seq<nat>>, x: nat)
    requires |B| > 0 && Placed(hash, B) && x !in Flatten(B)
    ensures var b := hash(x) % |B|; var c := InsertByHash(hash, B[b], x);
      x in c && forall j, y :: 0 <= j < |B| && j != b && y in B[j] ==> y !in c
  {
    var b := hash(x) % |B|;
    var c := InsertByHash(hash, B[b], x);
    PlacedDisjoint(hash, B);
    FlattenMember(B, x);
    forall j, y | 0 <= j < |B| && j != b && y in B[j]
      ensures y !in c
    {
      assert y !in multiset(c);
    }
    assert x in multiset(c);
  }

  /** Caching `x`'s hash value and linking `x` in keeps the table cached. */
  lemma InsertCached(hash: nat -> u32, hashval: map<nat, u32>, B: seq<seq<nat>>, x: nat)
    requires |B| > 0 && CachedAll(hash, hashval, B)
    ensures var b := hash(x) % |B|;
      CachedAll(hash, hashval[x := hash(x)], B[b := InsertByHash(hash, B[b], x)])
  {
    var b := hash(x) % |B|;
    var c := InsertByHash(hash, B[b], x);
    var h' := hashval[x := hash(x)];
    assert CachedAll(hash, h', B);
    forall y | y in c
      ensures y in h' && h'[y] == hash(y)
    {
      if y != x {
        assert y in multiset(c);
      }
    }
    CachedOne(hash, h', B, b, c);
  }

  /** The unlinking of `_del` and `_pop` keeps the chains linked, cached and placed. */
  lemma RemoveKeeps(hash: nat -> u32, E: seq<Ptr>, next: map<nat, Ptr>, links: map<nat, Ptr>,
                    hashval: map<nat, u32>, B: seq<seq<nat>>, b: nat, k: nat, head: Ptr)
    requires ChainsOk(hash, E, |E|, next, hashval, B) && b < |B| && k < |B[b]|
    requires Linked(links, head, B[b][..k] + B[b][k + 1..])
    requires links.Keys == next.Keys
    requires forall y {:trigger links[y]} :: y in next && y !in B[b] ==> links[y] == next[y]
    ensures ChainsOk(hash, E[b := head], |E|, links, hashval, B[b := B[b][..k] + B[b][k + 1..]])
  {
    var c := B[b][..k] + B[b][k + 1..];
    PlacedRemove(hash, B, b, k);
    PlacedDisjoint(hash, B);
    assert forall y :: y in c ==> y in B[b];
    AllLinkedOne(next, links, E, B, b, head, c);
    CachedOne(hash, hashval, B, b, c);
  }

  /** An item of a linked chain has a link. */
  lemma AllLinkedDomain(next: map<nat, Ptr>, E: seq<Ptr>, B: seq<seq<nat>>, j: nat, y: nat)
    requires AllLinked(next, E, B) && j < |B| && y in B[j]
    ensures y in next
  {
    assert Linked(next, E[j], B[j]);
  }

  /**
   * Replacing the chain of bucket b by `c`, linked from `head`: the other
   * chains stay linked when their items are not on `c` and none of their
   * links changed.
   */
  lemma AllLinkedOne(next: map<nat, Ptr>, links: map<nat, Ptr>, E: seq<Ptr>, B: seq<seq<nat>>, b: nat,
                     head: Ptr, c: seq<nat>)
    requires AllLinked(next, E, B) && Disjoint(B) && b < |B| && Linked(links, head, c)
    requires next.Keys <= links.Keys
    requires forall y {:trigger links[y]} :: y in next && y !in B[b] && y !in c ==> links[y] == next[y]
    requires forall j, y :: 0 <= j < |B| && j != b && y in B[j] ==> y !in c
    ensures AllLinked(links, E[b := head], B[b := c])
  {
    forall j, y | 0 <= j < |B| && j != b && y in B[j]
      ensures y in links && links[y] == next[y]
    {
      AllLinkedDomain(next, E, B, j, y);
    }
    AllLinkedUpdate(next, links, E, B, b, head, c);
  }

  /** Replacing a chain by one whose items are cached keeps the table cached. */
  lemma CachedOne(hash: nat -> u32, hashval: map<nat, u32>, B: seq<seq<nat>>, b: nat, c: seq<nat>)
    requires CachedAll(hash, hashval, B) && b < |B|
    requires forall y :: y in c ==> y in hashval && hashval[y] == hash(y)
    ensures CachedAll(hash, hashval, B[b := c])
  {
  }

  /** Chains holding the same items as cached ones are cached. */
  lemma CachedSame(hash: nat -> u32, hashval: map<nat, u32>, A: seq<seq<nat>>, B: seq<seq<nat>>)
    requires CachedAll(hash, hashval, B) && Elems(A) == Elems(B)
    ensures CachedAll(hash, hashval, A)
  {
    forall j, y | 0 <= j < |A| && y in A[j]
      ensures y in hashval && hashval[y] == hash(y)
    {
      FlattenMember(A, y);
      assert y in Elems(B);
      FlattenMember(B, y);
    }
  }
}
