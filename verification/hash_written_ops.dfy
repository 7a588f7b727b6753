/**
 * The typed hash table of lib/typesafe.h with the resizing of lib/typesafe.c
 * as written, as values: what `_add`, `_del` and `_pop` do to the chains
 * when growing cuts every chain once and shrinking appends one chain to
 * another (see `GrowAsWrittenSpec` and `ShrinkAsWrittenSpec`).
 *
 * Such a table keeps its items, its count and its load band, but not the
 * placement of its items: an item can be left in a bucket that is not the
 * one of its hash value, where `_find` and `_del` do not look
 * (`AddAsWrittenStrands`).
 */
module HashWrittenOps {
  import opened Links
  import opened HashSpec
  import opened HashRelink
  import opened HashResize
  import opened HashWalk
  import opened HashOps

  // ---------------------------------------------------------------------
  // The stored state.

  /** The bucket array links exactly the chains `B`, no item is on two of them, and every item caches its hash value. */
  ghost predicate WrittenChainsOk(hash: nat -> u32, entries: seq<Ptr>, tabsize: nat, next: map<nat, Ptr>,
                                  hashval: map<nat, u32>, B: seq<seq<nat>>)
  {
    var ok := |entries| == tabsize == |B| && AllLinked(next, entries, B) && CachedAll(hash, hashval, B) && Disjoint(B);
    ok
  }

  /** Between operations: `count` counts the items of the chains and the load is in the band. */
  ghost predicate WrittenTableOk(hash: nat -> u32, entries: seq<Ptr>, tabsize: nat, count: nat, next: map<nat, Ptr>,
                                 hashval: map<nat, u32>, B: seq<seq<nat>>)
  {
    var ok := WrittenChainsOk(hash, entries, tabsize, next, hashval, B) && count == TotalLen(B) &&
      LoadBand(tabsize, count) && tabsize % 2 == 0;
    ok
  }

  /**
   * Where an item of a table whose chains are linked, apart and cached
   * sits: the one place (b, m) that holds it, its cached hash value and its
   * link.
   */
  lemma LocateWritten(hash: nat -> u32, entries: seq<Ptr>, next: map<nat, Ptr>, hashval: map<nat, u32>,
                      B: seq<seq<nat>>, x: nat)
    returns (b: nat, m: nat)
    requires WrittenChainsOk(hash, entries, |entries|, next, hashval, B) && x in Flatten(B)
    ensures b < |B| && m < |B[b]| && B[b][m] == x
    ensures forall b', m' {:trigger B[b'][m']} :: 0 <= b' < |B| && 0 <= m' < |B[b']| && B[b'][m'] == x ==> b' == b && m' == m
    ensures x in hashval && hashval[x] == hash(x)
    ensures x in next && next[x] == HeadPtr(B[b][m + 1..])
  {
    FlattenMember(B, x);
    b :| 0 <= b < |B| && x in B[b];
    m := IndexOf(B[b], x);
    assert Linked(next, entries[b], B[b]);
    LinkedAt(next, entries[b], B[b], m);
    LinkedChainsDistinct(next, entries, B);
    forall b', m' | 0 <= b' < |B| && 0 <= m' < |B[b']| && B[b'][m'] == x
      ensures b' == b && m' == m
    {
      assert x in B[b'];
      IndexOfAt(B[b], m');
    }
  }

  /** Linked chains repeat no item. */
  lemma LinkedChainsDistinct(next: map<nat, Ptr>, E: seq<Ptr>, B: seq<seq<nat>>)
    requires AllLinked(next, E, B)
    ensures ChainsDistinct(B)
  {
    forall i | 0 <= i < |B|
      ensures Distinct(B[i])
    {
      assert Linked(next, E[i], B[i]);
    }
  }

  /** Replacing chain b by `c`, which shares no item with the other chains, keeps the chains apart. */
  lemma DisjointReplace(B: seq<seq<nat>>, b: nat, c: seq<nat>)
    requires Disjoint(B) && b < |B|
    requires forall j, y :: 0 <= j < |B| && j != b && y in B[j] ==> y !in c
    ensures Disjoint(B[b := c])
  {
  }

  // ---------------------------------------------------------------------
  // Resizing as written.

  /** The chains after `typesafe_hash_grow` as written: 2 empty buckets from none, else every chain cut once. */
  ghost function GrownAsWritten(hash: nat -> u32, B: seq<seq<nat>>): (G: seq<seq<nat>>)
    ensures |G| == if B == [] then 2 else 2 * |B|
  {
    if B == [] then [[], []] else GrowAsWrittenSpec(hash, B)
  }

  /** The written grow keeps the chains apart and keeps the items of the table. */
  lemma GrownAsWrittenKeeps(hash: nat -> u32, B: seq<seq<nat>>)
    requires Disjoint(B) && ChainsDistinct(B)
    ensures Disjoint(GrownAsWritten(hash, B)) && Elems(GrownAsWritten(hash, B)) == Elems(B)
  {
    if B == [] {
      FlattenEmpty(GrownAsWritten(hash, B));
    } else {
      GrownApart(hash, B);
      GrownElems(hash, B);
    }
  }

  /** No item is on two chains after the written grow: a cut chain keeps its two parts apart. */
  lemma GrownApart(hash: nat -> u32, B: seq<seq<nat>>)
    requires |B| > 0 && Disjoint(B) && ChainsDistinct(B)
    ensures Disjoint(GrowAsWrittenSpec(hash, B))
  {
    var G := GrowAsWrittenSpec(hash, B);
    hide GrowAsWrittenSpec;
    var n := |B|;
    forall a, b, x | 0 <= a < 2 * n && 0 <= b < 2 * n && a != b && x in G[a]
      ensures x !in G[b]
    {
      var i, p := GrownFrom(hash, B, a, x);
      forall m | 0 <= m < |G[b]|
        ensures G[b][m] != x
      {
        var j, q := GrownFrom(hash, B, b, G[b][m]);
        if i == j {
          assert p != q && Distinct(B[i]);
        } else {
          assert x in B[i] && B[j][q] in B[j];
        }
      }
    }
  }

  /** The written grow keeps the items: every old chain is its two parts, one after the other. */
  lemma GrownElems(hash: nat -> u32, B: seq<seq<nat>>)
    requires |B| > 0
    ensures Elems(GrowAsWrittenSpec(hash, B)) == Elems(B)
  {
    var G: seq<seq<nat>> := GrowAsWrittenSpec(hash, B);
    var n := |B|;
    forall i | 0 <= i < n
      ensures multiset(B[i]) == multiset(G[..n][i]) + multiset(G[n..][i])
    {
      var k := CutIndex(hash, B[i], 2 * n, i + n);
      GrowAsWrittenBuckets(hash, B, i);
      assert B[i] == B[i][..k] + B[i][k..];
    }
    ElemsPointwise(B, G[..n], G[n..]);
    assert G == G[..n] + G[n..];
    FlattenAppend(G[..n], G[n..]);
  }

  /**
   * Where an item of bucket a of the written grow comes from: position p of
   * old bucket i, before the cut when a is i, from the cut on when a is i + n.
   */
  lemma GrownFrom(hash: nat -> u32, B: seq<seq<nat>>, a: nat, x: nat) returns (i: nat, p: nat)
    requires |B| > 0 && a < 2 * |B| && x in GrowAsWrittenSpec(hash, B)[a]
    ensures i < |B| && p < |B[i]| && B[i][p] == x
    ensures a < |B| ==> i == a && p < CutIndex(hash, B[i], 2 * |B|, i + |B|)
    ensures a >= |B| ==> i == a - |B| && p >= CutIndex(hash, B[i], 2 * |B|, i + |B|)
  {
    var n := |B|;
    i := if a < n then a else a - n;
    var k := CutIndex(hash, B[i], 2 * n, i + n);
    GrowAsWrittenBuckets(hash, B, i);
    var G := GrowAsWrittenSpec(hash, B);
    var m :| 0 <= m < |G[a]| && G[a][m] == x;
    p := if a < n then m else m + k;
  }

  /** The chains after `typesafe_hash_shrink` as written: none once the table is empty, else chain i + n appended to chain i. */
  ghost function ShrunkAsWritten(B: seq<seq<nat>>): (S: seq<seq<nat>>)
    requires |B| % 2 == 0
    ensures |S| == if TotalLen(B) == 0 then 0 else |B| / 2
  {
    if TotalLen(B) == 0 then [] else ShrinkAsWrittenSpec(B, |B| / 2)
  }

  /** The written shrink keeps the chains apart and keeps the items of the table. */
  lemma ShrunkAsWrittenKeeps(B: seq<seq<nat>>)
    requires |B| % 2 == 0 && Disjoint(B)
    ensures Disjoint(ShrunkAsWritten(B)) && Elems(ShrunkAsWritten(B)) == Elems(B)
    ensures TotalLen(ShrunkAsWritten(B)) == TotalLen(B)
  {
    var S := ShrunkAsWritten(B);
    if TotalLen(B) != 0 {
      var n := |B| / 2;
      forall a, b, x | 0 <= a < n && 0 <= b < n && a != b && x in S[a]
        ensures x !in S[b]
      {
        assert x in B[a] || x in B[a + n];
      }
      ElemsPointwise(S, B[..n], B[n..]);
      assert B == B[..n] + B[n..];
      FlattenAppend(B[..n], B[n..]);
    }
    assert |Elems(S)| == |Elems(B)|;
  }

  /** The grow check of `_add`, with the count already raised, growing as written. */
  ghost function GrowIfFullAsWritten(hash: nat -> u32, B: seq<seq<nat>>): (G: seq<seq<nat>>)
    ensures |G| > 0 && (|B| % 2 == 0 ==> |G| % 2 == 0)
  {
    if B == [] || GrowThreshold(|B|, TotalLen(B) + 1) then GrownAsWritten(hash, B) else B
  }

  /**
   * `_add` with the written grow: the table grows if needed, and `x` is
   * linked into the chain of bucket `hash(x) % size` before the first item
   * whose hash value is not below its own.
   */
  ghost function AddedAsWritten(hash: nat -> u32, B: seq<seq<nat>>, x: nat): (A: seq<seq<nat>>)
    ensures |A| == |GrowIfFullAsWritten(hash, B)|
  {
    var G := GrowIfFullAsWritten(hash, B);
    var b := hash(x) % |G|;
    G[b := InsertByHash(hash, G[b], x)]
  }

  /** Adding an item the table does not hold keeps the chains apart and adds exactly that item. */
  lemma AddedAsWrittenKeeps(hash: nat -> u32, B: seq<seq<nat>>, x: nat)
    requires Disjoint(B) && ChainsDistinct(B) && x !in Flatten(B)
    ensures Disjoint(AddedAsWritten(hash, B, x))
    ensures Elems(AddedAsWritten(hash, B, x)) == Elems(B) + multiset{x}
  {
    var G := GrowIfFullAsWritten(hash, B);
    assert Disjoint(G) && Elems(G) == Elems(B) by {
      GrownAsWrittenKeeps(hash, B);
    }
    var b := hash(x) % |G|;
    var c := InsertByHash(hash, G[b], x);
    forall j, y | 0 <= j < |G| && j != b && y in G[j]
      ensures y !in c
    {
      FlattenMember(G, y);
      assert y in Elems(B);
      assert y !in multiset(c);
    }
    DisjointReplace(G, b, c);
    ElemsChange(G, b, c, multiset{x}, multiset{});
  }

  /** The shrink check of `_del` and `_pop`, with the count already lowered, shrinking as written. */
  ghost function ShrinkIfLowAsWritten(R: seq<seq<nat>>): (S: seq<seq<nat>>)
    requires |R| % 2 == 0
    ensures !ShrinkThreshold(|R|, TotalLen(R)) ==> S == R
    ensures |S| == |R| || 2 * |S| == |R| || |S| == 0
  {
    if ShrinkThreshold(|R|, TotalLen(R)) then ShrunkAsWritten(R) else R
  }

  /** The common end of `_del` and `_pop`: the k-th item of chain b leaves it, then the shrink check. */
  ghost function UnlinkedAsWritten(B: seq<seq<nat>>, b: nat, k: nat): (D: seq<seq<nat>>)
    requires |B| % 2 == 0 && b < |B| && k < |B[b]|
    ensures |D| == |B| || 2 * |D| == |B| || |D| == 0
  {
    ShrinkIfLowAsWritten(B[b := B[b][..k] + B[b][k + 1..]])
  }

  /**
   * Unlinking the k-th item `x` of chain b: the chains stay apart, exactly
   * `x` leaves the items, and no item is new; with the chains linked, `x` is
   * gone from the table.
   */
  lemma UnlinkedAsWrittenKeeps(B: seq<seq<nat>>, b: nat, k: nat)
    requires |B| % 2 == 0 && Disjoint(B) && ChainsDistinct(B) && b < |B| && k < |B[b]|
    ensures var x := B[b][k]; var R := B[b := B[b][..k] + B[b][k + 1..]]; var D := UnlinkedAsWritten(B, b, k);
      Disjoint(D) && Elems(D) + multiset{x} == Elems(B) && TotalLen(R) + 1 == TotalLen(B) &&
      TotalLen(D) == TotalLen(R) && x in Flatten(B) && x !in Flatten(R) && x !in Flatten(D) &&
      forall y :: y in Flatten(R) ==> y in Flatten(B)
  {
    var x := B[b][k];
    var c := B[b][..k] + B[b][k + 1..];
    var R := B[b := c];
    assert B[b] == B[b][..k] + [x] + B[b][k + 1..];
    assert multiset(c) + multiset{x} == multiset(B[b]);
    forall j, y | 0 <= j < |B| && j != b && y in B[j]
      ensures y !in c
    {
      assert y !in B[b];
      assert y !in multiset(c);
    }
    DisjointReplace(B, b, c);
    ElemsChange(B, b, c, multiset{}, multiset{x});
    assert Elems(R) + multiset{x} == Elems(B) by {
      assert Elems(B) + multiset{} == Elems(B);
    }
    assert |Elems(R)| + 1 == |Elems(B)|;
    ShrunkAsWrittenKeeps(R);
    assert x in B[b];
    FlattenMember(B, x);
    FlattenDistinct(B);
    DistinctOnce(Flatten(B), x);
    assert multiset(Flatten(R))[x] == 0;
    forall y | y in Flatten(R)
      ensures y in Flatten(B)
    {
      assert multiset(Flatten(R))[y] > 0;
      assert Elems(B)[y] == Elems(R)[y] + multiset{x}[y];
      assert multiset(Flatten(B))[y] > 0;
    }
  }

  /**
   * The two walks of `_del` reach `x`: they stop at `DelStop` in the chain
   * of bucket `hash(x) % size` and find `x` there.
   */
  ghost predicate DelFinds(hash: nat -> u32, B: seq<seq<nat>>, x: nat)
  {
    B != [] &&
    var c := B[hash(x) % |B|];
    var k := DelStop(hash, c, x);
    k < |c| && c[k] == x
  }

  /**
   * `_del` with the written shrink: nothing changes unless the walks reach
   * `x`; then `x` is unlinked, the count goes down and the table shrinks if
   * needed.
   */
  ghost function DeletedAsWritten(hash: nat -> u32, B: seq<seq<nat>>, x: nat): (D: seq<seq<nat>>)
    requires |B| % 2 == 0
    ensures x !in Flatten(B) ==> D == B
    ensures |D| == |B| || 2 * |D| == |B| || |D| == 0
  {
    FlattenMember(B, x);
    if DelFinds(hash, B, x) then
      var b := hash(x) % |B|;
      UnlinkedAsWritten(B, b, DelStop(hash, B[b], x))
    else B
  }

  /** Deleting keeps the chains apart and takes `x` out of the items exactly when the walks reach it. */
  lemma DeletedAsWrittenKeeps(hash: nat -> u32, B: seq<seq<nat>>, x: nat)
    requires |B| % 2 == 0 && Disjoint(B) && ChainsDistinct(B)
    ensures Disjoint(DeletedAsWritten(hash, B, x))
    ensures Elems(DeletedAsWritten(hash, B, x)) == if DelFinds(hash, B, x) then Elems(B) - multiset{x} else Elems(B)
    ensures DelFinds(hash, B, x) ==> x in Flatten(B) && x !in Flatten(DeletedAsWritten(hash, B, x))
  {
    if DelFinds(hash, B, x) {
      var b := hash(x) % |B|;
      UnlinkedAsWrittenKeeps(B, b, DelStop(hash, B[b], x));
    }
  }

  /** On a placed table the walks of `_del` reach `x` exactly when the table holds it. */
  lemma DelFindsPlaced(hash: nat -> u32, B: seq<seq<nat>>, x: nat)
    requires Placed(hash, B)
    ensures DelFinds(hash, B, x) <==> x in Flatten(B)
  {
    FlattenMember(B, x);
    if B != [] {
      var b := hash(x) % |B|;
      DelStopFinds(hash, B[b], x);
      if x in Flatten(B) {
        var i :| 0 <= i < |B| && x in B[i];
        assert i == b;
      }
    }
  }

  /** The index of the first bucket that has an item, or the number of buckets. */
  function FirstFull(B: seq<seq<nat>>): (i: nat)
    ensures i <= |B| && (i < |B| ==> B[i] != [])
    ensures forall j :: 0 <= j < i ==> B[j] == []
  {
    if B == [] || B[0] != [] then 0 else 1 + FirstFull(B[1..])
  }

  /** The first bucket that has an item holds the first item of the iteration order. */
  lemma FirstFullHead(B: seq<seq<nat>>)
    ensures HeadPtr(Flatten(B)) == if FirstFull(B) == |B| then Null else Ref(B[FirstFull(B)][0])
  {
    var i := FirstFull(B);
    FlattenSkipEmpty(B, i);
    if i < |B| {
      FlattenDrop(B, i);
    } else {
      assert B[i..] == [];
    }
  }

  /**
   * `_pop` with the written shrink: the first item of the first bucket that
   * has one is unlinked and the table shrinks if needed; an empty table is
   * left as it is.
   */
  ghost function PoppedAsWritten(B: seq<seq<nat>>): (D: seq<seq<nat>>)
    requires |B| % 2 == 0
    ensures (forall j :: 0 <= j < |B| ==> B[j] == []) ==> D == B
    ensures |D| == |B| || 2 * |D| == |B| || |D| == 0
  {
    var i := FirstFull(B);
    if i == |B| then B else UnlinkedAsWritten(B, i, 0)
  }

  /** Popping keeps the chains apart and takes out exactly the first item of the iteration order. */
  lemma PoppedAsWrittenKeeps(B: seq<seq<nat>>)
    requires |B| % 2 == 0 && Disjoint(B) && ChainsDistinct(B)
    ensures Disjoint(PoppedAsWritten(B))
    ensures Flatten(B) == [] ==> PoppedAsWritten(B) == B
    ensures Flatten(B) != [] ==>
      Elems(PoppedAsWritten(B)) + multiset{Flatten(B)[0]} == Elems(B) && Flatten(B)[0] !in Flatten(PoppedAsWritten(B))
  {
    FirstFullHead(B);
    var i := FirstFull(B);
    if i < |B| {
      UnlinkedAsWrittenKeeps(B, i, 0);
    }
  }

  // ---------------------------------------------------------------------
  // Iteration.

  /**
   * Where `_next` goes from the m-th item of chain b: the item's own link,
   * or else the head of the first bucket that has an item after the bucket
   * of the item's hash value. Only on a placed table is that the item's
   * own bucket.
   */
  function NextAfter(hash: nat -> u32, B: seq<seq<nat>>, b: nat, m: nat): (r: Ptr)
    requires b < |B| && m < |B[b]|
    ensures r.Ref? ==> r.id in Flatten(B)
  {
    if m + 1 < |B[b]| then
      FlattenMember(B, B[b][m + 1]);
      Ref(B[b][m + 1])
    else
      var j := hash(B[b][m]) % |B| + 1;
      var r := HeadPtr(Flatten(B[j..]));
      if r.Ref? then
        FlattenMember(B[j..], r.id);
        var i :| 0 <= i < |B[j..]| && r.id in B[j..][i];
        FlattenMember(B, r.id);
        assert r.id in B[j + i];
        r
      else r
  }

  /** On a placed table, `_next` gives the item after the m-th of chain b in the iteration order. */
  lemma NextAfterPlaced(hash: nat -> u32, B: seq<seq<nat>>, b: nat, m: nat)
    requires Placed(hash, B) && ChainsDistinct(B) && b < |B| && m < |B[b]|
    ensures B[b][m] in Flatten(B)
    ensures var F := Flatten(B); NextAfter(hash, B, b, m) == HeadPtr(F[IndexOf(F, B[b][m]) + 1..])
  {
    PlacedDisjoint(hash, B);
    FlattenDistinct(B);
    FlattenAfter(B, b, m);
    assert hash(B[b][m]) % |B| == b;
    HeadPtrConcat(B[b][m + 1..], Flatten(B[b + 1..]));
    if m + 1 < |B[b]| {
      assert B[b][m + 1..][0] == B[b][m + 1];
    }
  }

  // ---------------------------------------------------------------------
  // What the written grow does to a lookup.

  /**
   * A table of 4 buckets holding 0, 5 and 9, hashed to themselves: adding 2
   * grows it, the written grow moves 5 and 9 together to bucket 5, and
   * afterwards neither `_find` nor `_del` reaches 9, which the table holds.
   */
  lemma AddAsWrittenStrands()
    ensures var B: seq<seq<nat>> := [[0], [5, 9], [], []];
      var A := AddedAsWritten(Low32, B, 2);
      Placed(Low32, B) && 9 in Flatten(A) &&
      FindChain(Low32, Low32, A[Low32(9) % |A|], 9, 9) == Null && !DelFinds(Low32, A, 9)
  {
    hide GrowAsWrittenSpec, Flatten;
    var B: seq<seq<nat>> := [[0], [5, 9], [], []];
    StrandsExample();
    var A := AddedAsWritten(Low32, B, 2);
    assert A[1] == [] && A[5] == [5, 9];
    assert 9 in A[5];
    FlattenMember(A, 9);
  }

  /** The table of the example above is placed, holds three items, and its two full chains are cut as shown. */
  lemma StrandsExample()
    ensures var B: seq<seq<nat>> := [[0], [5, 9], [], []];
      var A := AddedAsWritten(Low32, B, 2);
      Placed(Low32, B) && |A| == 8 && A[1] == [] && A[5] == [5, 9]
  {
    hide GrowAsWrittenSpec, Flatten;
    var B: seq<seq<nat>> := [[0], [5, 9], [], []];
    StrandsPlaced();
    StrandsGrown();
    assert GrowIfFullAsWritten(Low32, B) == GrowAsWrittenSpec(Low32, B);
  }

  /**
   * Iteration over the same table after the `_add` of 2: `_first` gives 0,
   * and `_next` then visits 2, 5, 9 and, from 9, whose hash value names
   * bucket 1, restarts at bucket 2 and visits 2 again: the walk never
   * reaches null.
   */
  lemma IterationCycles()
    ensures var A := AddedAsWritten(Low32, [[0], [5, 9], [], []], 2);
      |A| == 8 && A[0] == [0] && A[2] == [2] && A[5] == [5, 9] &&
      HeadPtr(Flatten(A)) == Ref(0) &&
      NextAfter(Low32, A, 0, 0) == Ref(2) && NextAfter(Low32, A, 2, 0) == Ref(5) &&
      NextAfter(Low32, A, 5, 0) == Ref(9) && NextAfter(Low32, A, 5, 1) == Ref(2)
  {
    hide GrowAsWrittenSpec, AddedAsWritten, NextAfter, Flatten;
    StrandsExample();
    StrandsRest();
    CycleSteps(AddedAsWritten(Low32, [[0], [5, 9], [], []], 2));
  }

  /** The walk of `_first` and `_next` over any table of eight buckets that starts [0], [], [2], [], [], [5, 9]. */
  lemma CycleSteps(A: seq<seq<nat>>)
    requires |A| == 8 && A[0] == [0] && A[1] == [] && A[2] == [2] && A[3] == [] && A[4] == [] && A[5] == [5, 9]
    ensures HeadPtr(Flatten(A)) == Ref(0) &&
      NextAfter(Low32, A, 0, 0) == Ref(2) && NextAfter(Low32, A, 2, 0) == Ref(5) &&
      NextAfter(Low32, A, 5, 0) == Ref(9) && NextAfter(Low32, A, 5, 1) == Ref(2)
  {
    assert Low32(0) == 0 && Low32(2) == 2 && Low32(9) == 9;
    assert A[0..] == A;
    HeadFrom(A, 0);
    HeadFrom(A, 1);
    HeadFrom(A, 2);
    HeadFrom(A, 3);
  }

  /** The head of the buckets from i on: that of bucket i, else of those after it. */
  lemma HeadFrom(A: seq<seq<nat>>, i: nat)
    requires i < |A|
    ensures HeadPtr(Flatten(A[i..])) == if A[i] != [] then Ref(A[i][0]) else HeadPtr(Flatten(A[i + 1..]))
  {
    FlattenDrop(A, i);
    HeadPtrConcat(A[i], Flatten(A[i + 1..]));
  }

  /** The other buckets of that table after the `_add` of 2: 0 stays in bucket 0, 2 joins bucket 2, buckets 1, 3 and 4 are empty. */
  lemma StrandsRest()
    ensures var A := AddedAsWritten(Low32, [[0], [5, 9], [], []], 2);
      |A| == 8 && A[0] == [0] && A[1] == [] && A[2] == [2] && A[3] == [] && A[4] == []
  {
    hide GrowIfFullAsWritten, GrowAsWrittenSpec, Flatten;
    StrandsFull();
    assert Low32(2) == 2;
  }

  /** Adding a third item grows the table to eight buckets; buckets 0 to 4 then hold [0], [], [], [], []. */
  lemma StrandsFull()
    ensures var G := GrowIfFullAsWritten(Low32, [[0], [5, 9], [], []]);
      |G| == 8 && G[0] == [0] && G[1] == [] && G[2] == [] && G[3] == [] && G[4] == []
  {
    hide GrowAsWrittenSpec, Flatten;
    var B: seq<seq<nat>> := [[0], [5, 9], [], []];
    StrandsPlaced();
    StrandsGrown();
    assert GrowIfFullAsWritten(Low32, B) == GrowAsWrittenSpec(Low32, B);
    assert Low32(0) == 0;
    assert CutIndex(Low32, [0], 8, 4) == 1;
    GrowAsWrittenBuckets(Low32, B, 0);
    GrowAsWrittenBuckets(Low32, B, 2);
    GrowAsWrittenBuckets(Low32, B, 3);
  }

  /** Every item of that table is in the bucket of its hash value, chains ordered. */
  lemma StrandsPlaced()
    ensures Placed(Low32, [[0], [5, 9], [], []]) && TotalLen([[0], [5, 9], [], []]) == 3
  {
    var B: seq<seq<nat>> := [[0], [5, 9], [], []];
    assert Low32(0) == 0 && Low32(5) == 5 && Low32(9) == 9;
    forall i, x | 0 <= i < 4 && x in B[i]
      ensures Low32(x) % 4 == i
    {
      assert (i == 0 && x == 0) || (i == 1 && (x == 5 || x == 9));
    }
    forall i | 0 <= i < 4
      ensures SortedBy(Low32, B[i])
    {
    }
    assert B[1..][1..][1..][1..] == [];
    assert Flatten(B) == [0, 5, 9];
  }

  /** The written grow cuts chain [5, 9] before 5: bucket 1 empties and bucket 5 takes both. */
  lemma StrandsGrown()
    ensures var G := GrowAsWrittenSpec(Low32, [[0], [5, 9], [], []]);
      G[1] == [] && G[5] == [5, 9]
  {
    var B: seq<seq<nat>> := [[0], [5, 9], [], []];
    assert CutIndex(Low32, [5, 9], 8, 5) == 0;
    GrowAsWrittenBuckets(Low32, B, 1);
  }
}
