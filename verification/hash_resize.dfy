/**
 * The bucket loops of the corrected hash-table resize (lib/typesafe.c), on
 * the bucket array and the `next` fields of the items: growing from n to 2n
 * buckets splits every chain in order, shrinking from 2n to n merges the
 * chains of buckets i and i + n by hash value.
 */
module HashResize {
  import opened Links
  import opened HashSpec
  import opened HashRelink
  import opened HashMerge

  /** Every item of every chain caches its hash value. */
  ghost predicate CachedAll(hash: nat -> u32, hashval: map<nat, u32>, B: seq<seq<nat>>)
  {
    forall j, x :: 0 <= j < |B| && x in B[j] ==> x in hashval && hashval[x] == hash(x)
  }

  // ---------------------------------------------------------------------
  // Growing.

  /**
   * The corrected `typesafe_hash_grow` of a table of n > 0 buckets: the
   * array gets n more, empty buckets, then each old bucket in turn is split
   * between itself and its partner n above. The result links the chains of
   * `GrowSpec`, and no link off the table changes.
   */
  method GrowChains(hash: nat -> u32, hashval: map<nat, u32>, next: map<nat, Ptr>, E: seq<Ptr>, ghost B: seq<seq<nat>>)
    returns (links: map<nat, Ptr>, E': seq<Ptr>)
    requires |B| > 0 && AllLinked(next, E, B) && Placed(hash, B) && CachedAll(hash, hashval, B)
    ensures AllLinked(links, E', GrowSpec(hash, B))
    ensures links.Keys == next.Keys
    ensures forall y {:trigger links[y]} :: y in next && y !in Flatten(B) ==> links[y] == next[y]
  {
    var n := |E|;
    E' := E + seq(n, j => Null);
    links := next;
    GrowStart(hash, next, E, B);
    var i := 0;
    while i < n
      invariant i <= n && |E'| == 2 * n
      invariant AllLinked(links, E', GrowMid(hash, B, i))
      invariant links.Keys == next.Keys
      invariant forall y {:trigger links[y]} :: y in next && y !in Flatten(B) ==> links[y] == next[y]
      decreases n - i
    {
      ghost var links0 := links;
      links, E' := SplitBucket(hash, hashval, links, E', B, n, i);
      assert forall y :: y in next && y !in Flatten(B) ==> links[y] == links0[y] by {
        forall y | y in next && y !in Flatten(B)
          ensures links[y] == links0[y]
        {
          FlattenMember(B, y);
          assert y !in B[i];
        }
      }
      i := i + 1;
    }
    GrowMidEnds(hash, B);
  }

  /** The array with n empty buckets added links the old chains followed by n empty ones. */
  lemma GrowStart(hash: nat -> u32, next: map<nat, Ptr>, E: seq<Ptr>, B: seq<seq<nat>>)
    requires |B| > 0 && AllLinked(next, E, B)
    ensures AllLinked(next, E + seq(|E|, j => Null), GrowMid(hash, B, 0))
  {
    GrowMidEnds(hash, B);
    var n := |B|;
    var E' := E + seq(n, j => Null);
    var M := B + seq(n, j => []);
    forall j | 0 <= j < 2 * n
      ensures Linked(next, E'[j], M[j])
    {
      if j < n {
        assert E'[j] == E[j] && M[j] == B[j];
      } else {
        assert E'[j] == Null && M[j] == [];
      }
    }
  }

  /**
   * One turn of the grow loop: the chain of bucket i is split in order
   * between bucket i and bucket i + n; only links of that chain change.
   */
  method SplitBucket(hash: nat -> u32, hashval: map<nat, u32>, next: map<nat, Ptr>, E: seq<Ptr>,
                     ghost B: seq<seq<nat>>, n: nat, i: nat)
    returns (links: map<nat, Ptr>, E': seq<Ptr>)
    requires |B| == n && i < n && |E| == 2 * n && AllLinked(next, E, GrowMid(hash, B, i))
    requires Placed(hash, B) && CachedAll(hash, hashval, B)
    ensures |E'| == 2 * |B| && AllLinked(links, E', GrowMid(hash, B, i + 1))
    ensures links.Keys == next.Keys
    ensures forall y {:trigger links[y]} :: y in next && y !in B[i] ==> links[y] == next[y]
  {
    ghost var M := GrowMid(hash, B, i);
    assert M[i] == B[i] && M[i + n] == [];
    SplitInput(hash, hashval, B, i);
    var head1, head2;
    links, head1, head2 := SplitChain(hash, hashval, next, E[i], B[i], 2 * n, i, i + n);
    E' := E[i := head1][i + n := head2];
    ghost var K1, K2 := Keep(hash, B[i], 2 * n, i), Keep(hash, B[i], 2 * n, i + n);
    SplitRelinked(hash, next, links, E, B, i, head1, K1, head2, K2);
    GrowMidStep(hash, B, i);
  }

  /**
   * The split of bucket i relinks the two chains of its buckets i and
   * i + |B|; the chains of the other buckets hold no item of bucket i, so
   * their links did not change and they stay linked.
   */
  lemma SplitRelinked(hash: nat -> u32, next: map<nat, Ptr>, links: map<nat, Ptr>, E: seq<Ptr>, B: seq<seq<nat>>,
                      i: nat, h1: Ptr, c1: seq<nat>, h2: Ptr, c2: seq<nat>)
    requires i < |B| && AllLinked(next, E, GrowMid(hash, B, i)) && Placed(hash, B)
    requires links.Keys == next.Keys
    requires forall y {:trigger links[y]} :: y in next && y !in B[i] ==> links[y] == next[y]
    requires Linked(links, h1, c1) && Linked(links, h2, c2)
    ensures AllLinked(links, E[i := h1][i + |B| := h2], GrowMid(hash, B, i)[i := c1][i + |B| := c2])
  {
    var n := |B|;
    var M := GrowMid(hash, B, i);
    var E', M' := E[i := h1][i + n := h2], M[i := c1][i + n := c2];
    GrowMidApart(hash, B, i);
    forall j | 0 <= j < |M'|
      ensures Linked(links, E'[j], M'[j])
    {
      if j != i && j != i + n {
        assert Linked(next, E[j], M[j]);
        forall x | x in M[j]
          ensures x in links && links[x] == next[x]
        {
          assert x in next;
        }
        LinkedFrame(next, links, E[j], M[j]);
      }
    }
  }

  /** What the split of bucket i needs to know about its chain. */
  lemma SplitInput(hash: nat -> u32, hashval: map<nat, u32>, B: seq<seq<nat>>, i: nat)
    requires i < |B| && Placed(hash, B) && CachedAll(hash, hashval, B)
    ensures forall x :: x in B[i] ==> x in hashval && hashval[x] == hash(x)
    ensures forall x :: x in B[i] ==> hash(x) % (2 * |B|) == i || hash(x) % (2 * |B|) == i + |B|
  {
    forall x | x in B[i]
      ensures hash(x) % (2 * |B|) == i || hash(x) % (2 * |B|) == i + |B|
    {
      ModDouble(hash(x), |B|);
    }
  }

  // ---------------------------------------------------------------------
  // Shrinking.

  /**
   * The chains of a table of 2n being shrunk to n, after the first i buckets
   * have been merged: bucket j < i holds the merge of the old chains j and
   * j + n, the buckets from i to n - 1 are as before.
   */
  ghost function ShrinkMid(hash: nat -> u32, B: seq<seq<nat>>, n: nat, i: nat): (M: seq<seq<nat>>)
    requires |B| == 2 * n && i <= n
    ensures |M| == n
    ensures forall j {:trigger M[j]} :: 0 <= j < n ==> M[j] == if j < i then Merge(hash, B[j], B[j + n]) else B[j]
  {
    seq(n, j requires 0 <= j < n => if j < i then Merge(hash, B[j], B[j + n]) else B[j])
  }

  /** Before any merge the lower half is as before; after all, it is the shrunk table. */
  lemma ShrinkMidEnds(hash: nat -> u32, B: seq<seq<nat>>, n: nat)
    requires |B| == 2 * n
    ensures ShrinkMid(hash, B, n, 0) == B[..n]
    ensures ShrinkMid(hash, B, n, n) == ShrinkSpec(hash, B, n)
  {
  }

  /** Merging bucket i moves the shrink on by one bucket. */
  lemma ShrinkMidStep(hash: nat -> u32, B: seq<seq<nat>>, n: nat, i: nat)
    requires |B| == 2 * n && i < n
    ensures ShrinkMid(hash, B, n, i + 1) == ShrinkMid(hash, B, n, i)[i := Merge(hash, B[i], B[i + n])]
  {
  }

  /**
   * The corrected `typesafe_hash_shrink` of a table of 2n buckets to n: the
   * chain of bucket i + n is merged by hash value into the chain of bucket
   * i, for each i < n, and the array is cut to n buckets. The result links
   * the chains of `ShrinkSpec`, and no link off the table changes.
   */
  method ShrinkChains(hash: nat -> u32, hashval: map<nat, u32>, next: map<nat, Ptr>, E: seq<Ptr>,
                      ghost B: seq<seq<nat>>, n: nat)
    returns (links: map<nat, Ptr>, E': seq<Ptr>)
    requires |B| == 2 * n && AllLinked(next, E, B) && Placed(hash, B) && CachedAll(hash, hashval, B)
    ensures AllLinked(links, E', ShrinkSpec(hash, B, n))
    ensures links.Keys == next.Keys
    ensures forall y {:trigger links[y]} :: y in next && y !in Flatten(B) ==> links[y] == next[y]
  {
    links, E' := next, E;
    ShrinkMidEnds(hash, B, n);
    AllLinkedSlices(next, E, B, n);
    var i := 0;
    while i < n
      invariant i <= n && |E'| == 2 * n
      invariant AllLinked(links, E'[..n], ShrinkMid(hash, B, n, i))
      invariant AllLinked(links, E'[n + i..], B[n + i..])
      invariant links.Keys == next.Keys
      invariant forall y {:trigger links[y]} :: y in next && y !in Flatten(B) ==> links[y] == next[y]
      decreases n - i
    {
      ghost var links0 := links;
      links, E' := MergeBucket(hash, hashval, links, E', B, n, i);
      assert forall y :: y in next && y !in Flatten(B) ==> links[y] == links0[y] by {
        forall y | y in next && y !in Flatten(B)
          ensures links[y] == links0[y]
        {
          FlattenMember(B, y);
          assert y !in B[i] && y !in B[i + n];
        }
      }
      i := i + 1;
    }
    E' := E'[..n];
  }

  /** The two halves of a linked array are linked. */
  lemma AllLinkedSlices(next: map<nat, Ptr>, E: seq<Ptr>, B: seq<seq<nat>>, n: nat)
    requires AllLinked(next, E, B) && n <= |B|
    ensures AllLinked(next, E[..n], B[..n]) && AllLinked(next, E[n..], B[n..])
  {
    forall j | 0 <= j < |B| - n
      ensures Linked(next, E[n..][j], B[n..][j])
    {
      assert E[n..][j] == E[n + j] && B[n..][j] == B[n + j];
    }
  }

  /**
   * One turn of the shrink loop: the chains of buckets i and i + n are
   * merged into bucket i; only links of those two chains change.
   */
  method MergeBucket(hash: nat -> u32, hashval: map<nat, u32>, next: map<nat, Ptr>, E: seq<Ptr>,
                     ghost B: seq<seq<nat>>, n: nat, i: nat)
    returns (links: map<nat, Ptr>, E': seq<Ptr>)
    requires |B| == 2 * n && i < n && |E| == 2 * n
    requires AllLinked(next, E[..n], ShrinkMid(hash, B, n, i)) && AllLinked(next, E[n + i..], B[n + i..])
    requires Placed(hash, B) && CachedAll(hash, hashval, B)
    ensures |E'| == 2 * n
    ensures AllLinked(links, E'[..n], ShrinkMid(hash, B, n, i + 1)) && AllLinked(links, E'[n + i + 1..], B[n + i + 1..])
    ensures links.Keys == next.Keys
    ensures forall y {:trigger links[y]} :: y in next && y !in B[i] && y !in B[i + n] ==> links[y] == next[y]
  {
    ghost var M := ShrinkMid(hash, B, n, i);
    MergeInputs(hash, hashval, next, E, B, n, i);
    var head;
    links, head := MergeChains(hash, hashval, next, E[i], B[i], E[i + n], B[i + n], i);
    E' := E[i := head];
    MergeRelinked(hash, next, links, E, B, n, i, head);
    assert E'[..n] == E[..n][i := head];
    ShrinkMidStep(hash, B, n, i);
    assert E'[n + i + 1..] == E[n + i + 1..];
  }

  /** What the merge of buckets i and i + n needs to know about their chains. */
  lemma MergeInputs(hash: nat -> u32, hashval: map<nat, u32>, next: map<nat, Ptr>, E: seq<Ptr>,
                    B: seq<seq<nat>>, n: nat, i: nat)
    requires |B| == 2 * n && i < n && |E| == 2 * n
    requires AllLinked(next, E[..n], ShrinkMid(hash, B, n, i)) && AllLinked(next, E[n + i..], B[n + i..])
    requires Placed(hash, B) && CachedAll(hash, hashval, B)
    ensures Linked(next, E[i], B[i]) && Linked(next, E[i + n], B[i + n])
    ensures forall x :: x in B[i] ==> x !in B[i + n]
    ensures forall x :: x in B[i] ==> x in hashval && hashval[x] == hash(x)
    ensures forall x :: x in B[i + n] ==> x in hashval && hashval[x] == hash(x)
  {
    assert E[..n][i] == E[i] && ShrinkMid(hash, B, n, i)[i] == B[i];
    assert E[n + i..][0] == E[i + n] && B[n + i..][0] == B[i + n];
  }

  /** On a placed table of 2n, the chains other than i and i + n share no item with those two. */
  lemma MergeOthers(hash: nat -> u32, B: seq<seq<nat>>, n: nat, i: nat)
    requires |B| == 2 * n && i < n && Placed(hash, B)
    ensures forall j, x :: 0 <= j < n && j != i && x in ShrinkMid(hash, B, n, i)[j] ==> x !in B[i] && x !in B[i + n]
    ensures forall j, x :: n + i < j < 2 * n && x in B[j] ==> x !in B[i] && x !in B[i + n]
  {
    forall j, x | 0 <= j < n && j != i && x in ShrinkMid(hash, B, n, i)[j]
      ensures x !in B[i] && x !in B[i + n]
    {
      if j < i {
        MergeMultiset(hash, B[j], B[j + n]);
        assert x in multiset(Merge(hash, B[j], B[j + n]));
        assert x in B[j] || x in B[j + n];
      }
    }
    forall j, x | n + i < j < 2 * n && x in B[j]
      ensures x !in B[i] && x !in B[i + n]
    {
      assert hash(x) % |B| == j;
    }
  }

  /**
   * The merge of buckets i and i + n relinks the chain of bucket i; the
   * chains of the other buckets still in use hold no item of either, so
   * their links did not change and they stay linked.
   */
  lemma MergeRelinked(hash: nat -> u32, next: map<nat, Ptr>, links: map<nat, Ptr>, E: seq<Ptr>, B: seq<seq<nat>>,
                      n: nat, i: nat, head: Ptr)
    requires |B| == 2 * n && i < n && |E| == 2 * n && Placed(hash, B)
    requires AllLinked(next, E[..n], ShrinkMid(hash, B, n, i)) && AllLinked(next, E[n + i..], B[n + i..])
    requires links.Keys == next.Keys
    requires forall y {:trigger links[y]} :: y in next && y !in B[i] && y !in B[i + n] ==> links[y] == next[y]
    requires Linked(links, head, Merge(hash, B[i], B[i + n]))
    ensures AllLinked(links, E[..n][i := head], ShrinkMid(hash, B, n, i)[i := Merge(hash, B[i], B[i + n])])
    ensures AllLinked(links, E[n + i + 1..], B[n + i + 1..])
  {
    var M := ShrinkMid(hash, B, n, i);
    MergeOthers(hash, B, n, i);
    forall j | 0 <= j < n && j != i
      ensures Linked(links, E[..n][j], M[j])
    {
      assert Linked(next, E[..n][j], M[j]);
      forall x | x in M[j]
        ensures x in links && links[x] == next[x]
      {
        assert x in next;
      }
      LinkedFrame(next, links, E[..n][j], M[j]);
    }
    var E1, B1 := E[n + i + 1..], B[n + i + 1..];
    forall j | 0 <= j < |B1|
      ensures Linked(links, E1[j], B1[j])
    {
      assert E1[j] == E[n + i..][j + 1] && B1[j] == B[n + i..][j + 1];
      assert Linked(next, E[n + i..][j + 1], B[n + i..][j + 1]);
      forall x | x in B1[j]
        ensures x in links && links[x] == next[x]
      {
        assert x in next;
      }
      LinkedFrame(next, links, E1[j], B1[j]);
    }
  }
}
