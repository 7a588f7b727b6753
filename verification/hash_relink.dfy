/**
 * The relinking loops of the corrected hash-table resize (lib/typesafe.c),
 * on the `next` fields of the items: splitting one chain in order into two
 * and merging two chains by hash value.
 */
module HashRelink {
  import opened Links
  import opened HashSpec

  /** A place holding a pointer: a bucket of the array or an item's `next` field. */
  datatype HSlot = Entry(bucket: nat) | NextOf(owner: nat)

  /**
   * The relinking loop of one bucket of the corrected grow, on the `next`
   * fields: chain `c`, starting at `head`, is taken apart in order into the
   * chain of the items whose bucket in a table of m is r1 and the chain of
   * those whose bucket is r2.
   */
  method SplitChain(hash: nat -> u32, hashval: map<nat, u32>, next: map<nat, Ptr>, head: Ptr,
                    ghost c: seq<nat>, m: nat, r1: nat, r2: nat)
    returns (links: map<nat, Ptr>, head1: Ptr, head2: Ptr)
    requires m > 0 && r1 != r2 && Linked(next, head, c)
    requires forall x :: x in c ==> x in hashval && hashval[x] == hash(x)
    requires forall x :: x in c ==> hash(x) % m == r1 || hash(x) % m == r2
    ensures Linked(links, head1, Keep(hash, c, m, r1))
    ensures Linked(links, head2, Keep(hash, c, m, r2))
    ensures links.Keys == next.Keys
    ensures forall x {:trigger links[x]} :: x in next && x !in c ==> links[x] == next[x]
  {
    links := next;
    head1, head2 := head, Null;
    var cur := head;
    var apos, bpos := Entry(r1), Entry(r2);
    ghost var k := 0;
    assert c[0..] == c;
    while cur != Null
      invariant k <= |c| && cur == HeadPtr(c[k..])
      invariant SplitCursor(links, head1, apos, head2, bpos) == SplitPrefix(hash, c, m, r1, r2, next, head, k)
      decreases |c| - k
    {
      var x := cur.id;
      assert c[k..][0] == c[k] == x && x in c;
      SplitPrefixNext(hash, c, m, r1, r2, next, head, k);
      var nx := links[x];
      if hashval[x] % m == r1 {
        if apos.Entry? {
          head1 := cur;
        } else {
          links := links[apos.owner := cur];
        }
        apos := NextOf(x);
      } else {
        if bpos.Entry? {
          head2 := cur;
        } else {
          links := links[bpos.owner := cur];
        }
        bpos := NextOf(x);
      }
      cur := nx;
      k := k + 1;
    }
    assert k == |c|;
    SplitPrefixDone(hash, c, m, r1, r2, next, head);
    if apos.Entry? {
      head1 := Null;
    } else {
      links := links[apos.owner := Null];
    }
    if bpos.Entry? {
      head2 := Null;
    } else {
      links := links[bpos.owner := Null];
    }
  }

  /**
   * Where the split loop stands: the `next` fields, the start of each of
   * the two chains being built and the place their next item is linked into.
   */
  datatype SplitCursor = SplitCursor(links: map<nat, Ptr>, head1: Ptr, apos: HSlot, head2: Ptr, bpos: HSlot)

  /** The state of the split loop after the first k items of chain `c`. */
  function SplitPrefix(hash: nat -> u32, c: seq<nat>, m: nat, r1: nat, r2: nat,
                       next: map<nat, Ptr>, head: Ptr, k: nat): SplitCursor
    requires m > 0 && k <= |c|
  {
    if k == 0 then SplitCursor(next, head, Entry(r1), Null, Entry(r2))
    else
      var st := SplitPrefix(hash, c, m, r1, r2, next, head, k - 1);
      var x := c[k - 1];
      if hash(x) % m == r1 then TakeFirst(st, x) else TakeSecond(st, x)
  }

  /** Item x has the first bucket: it becomes the first chain's start or is linked after its last item. */
  function TakeFirst(st: SplitCursor, x: nat): SplitCursor
  {
    SplitCursor(if st.apos.Entry? then st.links else st.links[st.apos.owner := Ref(x)],
                if st.apos.Entry? then Ref(x) else st.head1, NextOf(x), st.head2, st.bpos)
  }

  /** Item x has the second bucket: the same on the second chain. */
  function TakeSecond(st: SplitCursor, x: nat): SplitCursor
  {
    SplitCursor(if st.bpos.Entry? then st.links else st.links[st.bpos.owner := Ref(x)],
                st.head1, st.apos, if st.bpos.Entry? then Ref(x) else st.head2, NextOf(x))
  }

  /** The place after the last item of an open chain, or the bucket itself when it is empty. */
  function TailSlot(A: seq<nat>, bucket: nat): HSlot
  {
    if A == [] then Entry(bucket) else NextOf(A[|A| - 1])
  }

  /**
   * Cursor `st` after the first k items of `c`, A and Z being the items taken
   * so far into the first and the second chain: the rest of `c` is still
   * linked as before, A and Z are open chains that the next item of their
   * bucket is linked after, and nothing off `c` changed.
   */
  ghost predicate SplitState(st: SplitCursor, c: seq<nat>, k: nat, next0: map<nat, Ptr>,
                             A: seq<nat>, r1: nat, Z: seq<nat>, r2: nat)
    requires k <= |c|
  {
    Linked(st.links, HeadPtr(c[k..]), c[k..]) &&
    Open(st.links, st.head1, A) && Open(st.links, st.head2, Z) &&
    st.apos == TailSlot(A, r1) && st.bpos == TailSlot(Z, r2) &&
    st.links.Keys == next0.Keys &&
    (forall x {:trigger st.links[x]} :: x in next0 && x !in c[..k] ==> st.links[x] == next0[x])
  }

  /** The split loop after the first k items of `c`. */
  ghost predicate SplitAt(hash: nat -> u32, c: seq<nat>, m: nat, r1: nat, r2: nat,
                          next: map<nat, Ptr>, head: Ptr, k: nat)
    requires m > 0 && k <= |c|
  {
    SplitState(SplitPrefix(hash, c, m, r1, r2, next, head, k), c, k, next,
               Keep(hash, c[..k], m, r1), r1, Keep(hash, c[..k], m, r2), r2)
  }

  lemma {:induction false} SplitPrefixInv(hash: nat -> u32, c: seq<nat>, m: nat, r1: nat, r2: nat,
                                          next: map<nat, Ptr>, head: Ptr, k: nat)
    requires m > 0 && r1 != r2 && Linked(next, head, c) && k <= |c|
    requires forall x :: x in c ==> hash(x) % m == r1 || hash(x) % m == r2
    ensures SplitAt(hash, c, m, r1, r2, next, head, k)
  {
    if k == 0 {
      assert c[0..] == c && c[..0] == [];
    } else {
      SplitPrefixInv(hash, c, m, r1, r2, next, head, k - 1);
      if hash(c[k - 1]) % m == r1 {
        SplitStepFirst(hash, c, m, r1, r2, next, head, k);
      } else {
        assert c[k - 1] in c;
        SplitStepSecond(hash, c, m, r1, r2, next, head, k);
      }
    }
  }

  /** One turn of the split loop, when the k-th item (counting from one) has the first bucket. */
  lemma SplitStepFirst(hash: nat -> u32, c: seq<nat>, m: nat, r1: nat, r2: nat,
                        next: map<nat, Ptr>, head: Ptr, k: nat)
    requires m > 0 && r1 != r2 && Distinct(c) && (forall x :: x in c ==> x in next) && 0 < k <= |c|
    requires SplitAt(hash, c, m, r1, r2, next, head, k - 1) && hash(c[k - 1]) % m == r1
    ensures SplitAt(hash, c, m, r1, r2, next, head, k)
  {
    var st := SplitPrefix(hash, c, m, r1, r2, next, head, k - 1);
    var x := c[k - 1];
    KeepStep(hash, c, m, r1, k);
    KeepStep(hash, c, m, r2, k);
    SplitTakeFirst(st, c, k, next, Keep(hash, c[..k - 1], m, r1), r1, Keep(hash, c[..k - 1], m, r2), r2);
    SplitStateEqual(TakeFirst(st, x), SplitPrefix(hash, c, m, r1, r2, next, head, k), c, k, next,
                    Keep(hash, c[..k - 1], m, r1) + [x], Keep(hash, c[..k], m, r1), r1,
                    Keep(hash, c[..k - 1], m, r2), Keep(hash, c[..k], m, r2), r2);
  }

  /** One turn of the split loop, when the k-th item has the second bucket. */
  lemma SplitStepSecond(hash: nat -> u32, c: seq<nat>, m: nat, r1: nat, r2: nat,
                        next: map<nat, Ptr>, head: Ptr, k: nat)
    requires m > 0 && r1 != r2 && Distinct(c) && (forall x :: x in c ==> x in next) && 0 < k <= |c|
    requires SplitAt(hash, c, m, r1, r2, next, head, k - 1) && hash(c[k - 1]) % m == r2
    ensures SplitAt(hash, c, m, r1, r2, next, head, k)
  {
    var st := SplitPrefix(hash, c, m, r1, r2, next, head, k - 1);
    var x := c[k - 1];
    KeepStep(hash, c, m, r1, k);
    KeepStep(hash, c, m, r2, k);
    SplitTakeSecond(st, c, k, next, Keep(hash, c[..k - 1], m, r1), r1, Keep(hash, c[..k - 1], m, r2), r2);
    SplitStateEqual(TakeSecond(st, x), SplitPrefix(hash, c, m, r1, r2, next, head, k), c, k, next,
                    Keep(hash, c[..k - 1], m, r1), Keep(hash, c[..k], m, r1), r1,
                    Keep(hash, c[..k - 1], m, r2) + [x], Keep(hash, c[..k], m, r2), r2);
  }

  /**
   * SplitState for equal arguments. Called rather than left to the solver,
   * which otherwise rewrites every conjunct of the predicate separately.
   */
  lemma SplitStateEqual(st1: SplitCursor, st2: SplitCursor, c: seq<nat>, k: nat, next0: map<nat, Ptr>,
                        A1: seq<nat>, A2: seq<nat>, r1: nat, Z1: seq<nat>, Z2: seq<nat>, r2: nat)
    requires k <= |c| && st1 == st2 && A1 == A2 && Z1 == Z2
    requires SplitState(st1, c, k, next0, A1, r1, Z1, r2)
    ensures SplitState(st2, c, k, next0, A2, r1, Z2, r2)
  {
  }

  /** Taking the k-th item into the first chain. */
  lemma SplitTakeFirst(st: SplitCursor, c: seq<nat>, k: nat, next0: map<nat, Ptr>,
                       A: seq<nat>, r1: nat, Z: seq<nat>, r2: nat)
    requires 0 < k <= |c| && Distinct(c) && SplitState(st, c, k - 1, next0, A, r1, Z, r2)
    requires forall x :: x in A ==> x in c[..k - 1] && x !in Z
    requires forall x :: x in Z ==> x in c[..k - 1]
    requires forall x :: x in c ==> x in next0
    ensures SplitState(TakeFirst(st, c[k - 1]), c, k, next0, A + [c[k - 1]], r1, Z, r2)
  {
    SplitLinkAfter(c, k, st.links, next0, st.head1, A, st.head2, Z);
  }

  /** Taking the k-th item into the second chain. */
  lemma SplitTakeSecond(st: SplitCursor, c: seq<nat>, k: nat, next0: map<nat, Ptr>,
                        A: seq<nat>, r1: nat, Z: seq<nat>, r2: nat)
    requires 0 < k <= |c| && Distinct(c) && SplitState(st, c, k - 1, next0, A, r1, Z, r2)
    requires forall x :: x in Z ==> x in c[..k - 1] && x !in A
    requires forall x :: x in A ==> x in c[..k - 1]
    requires forall x :: x in c ==> x in next0
    ensures SplitState(TakeSecond(st, c[k - 1]), c, k, next0, A, r1, Z + [c[k - 1]], r2)
  {
    SplitLinkAfter(c, k, st.links, next0, st.head2, Z, st.head1, A);
  }

  /**
   * Linking c[k - 1] after the open chain A (or making it A's start) keeps
   * the rest of `c` linked and leaves the open chain Z alone.
   */
  lemma SplitLinkAfter(c: seq<nat>, k: nat, next: map<nat, Ptr>, next0: map<nat, Ptr>,
                       s1: Ptr, A: seq<nat>, s2: Ptr, Z: seq<nat>)
    requires 0 < k <= |c| && Distinct(c) && Linked(next, HeadPtr(c[k - 1..]), c[k - 1..])
    requires forall x :: x in A ==> x in c[..k - 1] && x !in Z
    requires forall x :: x in Z ==> x in c[..k - 1]
    requires Open(next, s1, A) && Open(next, s2, Z)
    requires next.Keys == next0.Keys && forall x :: x in c ==> x in next0
    requires forall x {:trigger next[x]} :: x in next0 && x !in c[..k - 1] ==> next[x] == next0[x]
    ensures var x := c[k - 1];
      var next' := if A == [] then next else next[A[|A| - 1] := Ref(x)];
      Linked(next', HeadPtr(c[k..]), c[k..]) &&
      Open(next', if A == [] then Ref(x) else s1, A + [x]) && Open(next', s2, Z) &&
      next'.Keys == next0.Keys &&
      (forall y {:trigger next'[y]} :: y in next0 && y !in c[..k] ==> next'[y] == next0[y])
  {
    var x := c[k - 1];
    var next' := if A == [] then next else next[A[|A| - 1] := Ref(x)];
    var rest := c[k - 1..];
    assert rest[0] == x && rest[1..] == c[k..];
    LinkedTail(next, rest);
    SplitDistinct(c, k - 1);
    assert x !in A && x !in Z;
    OpenExtend(next, s1, A, x);
    if A != [] {
      assert A[|A| - 1] in A;
    }
    OpenFrame(next, next', s2, Z);
    assert c[..k] == c[..k - 1] + [x];
    SplitDistinct(c, k);
    LinkedFrame(next, next', next[x], c[k..]);
  }

  /** The loop reads the `next` field of the item it is at before relinking it. */
  lemma SplitPrefixNext(hash: nat -> u32, c: seq<nat>, m: nat, r1: nat, r2: nat,
                        next: map<nat, Ptr>, head: Ptr, k: nat)
    requires m > 0 && r1 != r2 && Linked(next, head, c) && k < |c|
    requires forall x :: x in c ==> hash(x) % m == r1 || hash(x) % m == r2
    ensures var st := SplitPrefix(hash, c, m, r1, r2, next, head, k);
      c[k] in st.links && st.links[c[k]] == HeadPtr(c[k + 1..])
  {
    SplitPrefixInv(hash, c, m, r1, r2, next, head, k);
    assert c[k..][0] == c[k] && c[k..][1..] == c[k + 1..];
  }

  /** Closing both open chains with null yields the two halves of `c`. */
  lemma SplitPrefixDone(hash: nat -> u32, c: seq<nat>, m: nat, r1: nat, r2: nat,
                        next: map<nat, Ptr>, head: Ptr)
    requires m > 0 && r1 != r2 && Linked(next, head, c)
    requires forall x :: x in c ==> hash(x) % m == r1 || hash(x) % m == r2
    ensures var st := SplitPrefix(hash, c, m, r1, r2, next, head, |c|);
      var links1 := if st.apos.Entry? then st.links else st.links[st.apos.owner := Null];
      var links2 := if st.bpos.Entry? then links1 else links1[st.bpos.owner := Null];
      Linked(links2, if st.apos.Entry? then Null else st.head1, Keep(hash, c, m, r1)) &&
      Linked(links2, if st.bpos.Entry? then Null else st.head2, Keep(hash, c, m, r2)) &&
      links2.Keys == next.Keys &&
      (forall x {:trigger links2[x]} :: x in next && x !in c ==> links2[x] == next[x])
  {
    // Only the contracts of Keep and the split state are needed here.
    hide SplitPrefix, Keep, Open;
    SplitPrefixInv(hash, c, m, r1, r2, next, head, |c|);
    var st := SplitPrefix(hash, c, m, r1, r2, next, head, |c|);
    assert c[..|c|] == c;
    var A, Z := Keep(hash, c, m, r1), Keep(hash, c, m, r2);
    assert SplitState(st, c, |c|, next, A, r1, Z, r2);
    forall x | x in c
      ensures x in st.links
    {
      var k :| 0 <= k < |c| && c[k] == x;
    }
    assert forall x :: x in A ==> x !in Z && x in st.links;
    SplitClose(st.links, st.head1, Keep(hash, c, m, r1), st.apos, r1, st.head2, Keep(hash, c, m, r2), st.bpos, r2);
  }

  /** Ending each open chain with null makes it a complete chain. */
  lemma SplitClose(links: map<nat, Ptr>, s1: Ptr, A: seq<nat>, apos: HSlot, r1: nat,
                   s2: Ptr, Z: seq<nat>, bpos: HSlot, r2: nat)
    requires Open(links, s1, A) && Open(links, s2, Z)
    requires forall x :: x in A ==> x !in Z && x in links
    requires forall x :: x in Z ==> x in links
    requires apos == TailSlot(A, r1) && bpos == TailSlot(Z, r2)
    ensures var links1 := if apos.Entry? then links else links[apos.owner := Null];
      var links2 := if bpos.Entry? then links1 else links1[bpos.owner := Null];
      Linked(links2, if apos.Entry? then Null else s1, A) &&
      Linked(links2, if bpos.Entry? then Null else s2, Z) &&
      links2.Keys == links.Keys &&
      (forall x {:trigger links2[x]} :: x in links && x !in A && x !in Z ==> links2[x] == links[x])
  {
    var links1 := if apos.Entry? then links else links[apos.owner := Null];
    var links2 := if bpos.Entry? then links1 else links1[bpos.owner := Null];
    var h1 := if apos.Entry? then Null else s1;
    if !apos.Entry? {
      OpenJoin(links, s1, A, []);
      assert A + [] == A;
    }
    OpenFrame(links, links1, s2, Z);
    if !bpos.Entry? {
      OpenJoin(links1, s2, Z, []);
      assert Z + [] == Z;
    }
    LinkedFrame(links1, links2, h1, A);
  }

  /** The items before position k of a chain that repeats nothing are not at position k or after. */
  lemma SplitDistinct(c: seq<nat>, k: nat)
    requires Distinct(c) && k <= |c|
    ensures forall x :: x in c[..k] ==> x !in c[k..]
  {
    forall x | x in c[..k]
      ensures x !in c[k..]
    {
      var a :| 0 <= a < k && c[a] == x;
      forall j | 0 <= j < |c| - k
        ensures c[k..][j] != x
      {
        assert c[k..][j] == c[k + j] && a < k + j;
      }
    }
  }

  // ---------------------------------------------------------------------
  // A whole bucket array.

  /** Bucket j of the array `E` starts the chain `M[j]`, for every j. */
  ghost predicate AllLinked(next: map<nat, Ptr>, E: seq<Ptr>, M: seq<seq<nat>>)
  {
    |E| == |M| && forall j :: 0 <= j < |M| ==> Linked(next, E[j], M[j])
  }

  /**
   * Replacing the chain of bucket b: the other chains stay linked as long as
   * none of their links changed.
   */
  lemma AllLinkedUpdate(next: map<nat, Ptr>, next': map<nat, Ptr>, E: seq<Ptr>, M: seq<seq<nat>>,
                        b: nat, h: Ptr, c: seq<nat>)
    requires AllLinked(next, E, M) && b < |M| && Linked(next', h, c)
    requires forall j, x :: 0 <= j < |M| && j != b && x in M[j] ==> x in next' && next'[x] == next[x]
    ensures AllLinked(next', E[b := h], M[b := c])
  {
    forall j | 0 <= j < |M| && j != b
      ensures Linked(next', E[j], M[j])
    {
      LinkedFrame(next, next', E[j], M[j]);
    }
  }

  /**
   * The chains of a table of n being grown to 2n, after the first i buckets
   * have been split: bucket j < i already holds its part of the old chain j
   * and bucket j + n the other part; the buckets from i on are as before and
   * their partners in the upper half are still empty.
   */
  ghost function GrowMid(hash: nat -> u32, B: seq<seq<nat>>, i: nat): (M: seq<seq<nat>>)
    requires i <= |B|
    ensures |M| == 2 * |B|
    ensures forall j {:trigger M[j]} :: 0 <= j < 2 * |B| ==> M[j] == GrowCell(hash, B, i, j)
  {
    seq(2 * |B|, j requires 0 <= j < 2 * |B| => GrowCell(hash, B, i, j))
  }

  /** Bucket j of GrowMid(hash, B, i). */
  ghost function GrowCell(hash: nat -> u32, B: seq<seq<nat>>, i: nat, j: nat): seq<nat>
    requires j < 2 * |B|
  {
    var n := |B|;
    if j < n then (if j < i then Keep(hash, B[j], 2 * n, j) else B[j])
    else if j - n < i then Keep(hash, B[j - n], 2 * n, j) else []
  }

  /** Splitting bucket i moves the grow on by one bucket. */
  lemma GrowMidStep(hash: nat -> u32, B: seq<seq<nat>>, i: nat)
    requires i < |B|
    ensures var n := |B|;
      GrowMid(hash, B, i + 1) ==
      GrowMid(hash, B, i)[i := Keep(hash, B[i], 2 * n, i)][i + n := Keep(hash, B[i], 2 * n, i + n)]
  {
    var n := |B|;
    var L := GrowMid(hash, B, i + 1);
    var R := GrowMid(hash, B, i)[i := Keep(hash, B[i], 2 * n, i)][i + n := Keep(hash, B[i], 2 * n, i + n)];
    forall j | 0 <= j < 2 * n
      ensures L[j] == R[j]
    {
      if j >= n {
        assert L[(j - n) + n] == L[j] && R[(j - n) + n] == R[j];
      }
    }
  }

  /** Before any split the grown array holds the old chains and empty upper buckets; after all, the grown table. */
  lemma GrowMidEnds(hash: nat -> u32, B: seq<seq<nat>>)
    requires |B| > 0
    ensures GrowMid(hash, B, 0) == B + seq(|B|, j => [])
    ensures GrowMid(hash, B, |B|) == GrowSpec(hash, B)
  {
    var n := |B|;
    var Z: seq<seq<nat>> := seq(n, j => []);
    var M0, Mn, G := GrowMid(hash, B, 0), GrowMid(hash, B, n), GrowSpec(hash, B);
    forall j | 0 <= j < 2 * n
      ensures M0[j] == (B + Z)[j] && Mn[j] == G[j]
    {
      if j >= n {
        assert M0[(j - n) + n] == M0[j] && Mn[(j - n) + n] == Mn[j] && G[(j - n) + n] == G[j];
      }
    }
  }

  /** On a placed table, no chain of the grown array but bucket i's shares an item with the old chain i. */
  lemma GrowMidApart(hash: nat -> u32, B: seq<seq<nat>>, i: nat)
    requires Placed(hash, B) && i < |B|
    ensures forall j, x :: 0 <= j < 2 * |B| && j != i && x in GrowMid(hash, B, i)[j] ==> x !in B[i]
  {
    var n := |B|;
    var M := GrowMid(hash, B, i);
    forall j, x | 0 <= j < 2 * n && j != i && x in M[j]
      ensures x !in B[i]
    {
      var b := if j < n then j else j - n;
      assert M[j] == M[b] || M[j] == M[b + n];
      assert x in B[b];
      assert hash(x) % n == b && b != i;
    }
  }
}
