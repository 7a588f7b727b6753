/**
 * The bucket loops of `typesafe_hash_grow` and `typesafe_hash_shrink`
 * (lib/typesafe.c) as they are written, on the bucket array and the `next`
 * fields of the items, for the doubling and the halving the load band
 * calls for. Growing cuts every chain once, before the first item whose
 * new bucket is not below the partner bucket, and hands the rest of the
 * chain to the partner; shrinking appends the chain of bucket i + n to the
 * chain of bucket i. The results are the tables `GrowAsWrittenSpec` and
 * `ShrinkAsWrittenSpec` describe.
 */
module HashWritten {
  import opened Links
  import opened HashSpec
  import opened HashRelink
  import opened HashWalk
  import opened HashMerge
  import opened HashMergeParts
  import opened HashResize

  // ---------------------------------------------------------------------
  // Growing.

  /** The `next` fields after the cut before the k-th item of `c`: the item before it ends its chain. */
  function CutLinks(next: map<nat, Ptr>, c: seq<nat>, k: nat): map<nat, Ptr>
    requires k < |c|
  {
    if k == 0 then next else next[c[k - 1] := Null]
  }

  /** The array after the cut of chain i before its k-th item: that item starts bucket i + n. */
  function CutEntries(E: seq<Ptr>, c: seq<nat>, k: nat, i: nat, n: nat): seq<Ptr>
    requires k < |c| && i < n && |E| == 2 * n
  {
    if k == 0 then E[i := Null][i + n := Ref(c[0])] else E[i + n := Ref(c[k])]
  }

  /** Where the walk of chain `c` stands after m items: the `next` fields, the array and j. */
  datatype CutCursor = CutCursor(links: map<nat, Ptr>, E: seq<Ptr>, j: nat)

  /** The walk before the cut item is reached, and after it. */
  function CutState(next: map<nat, Ptr>, E: seq<Ptr>, c: seq<nat>, k: nat, i: nat, n: nat, m: nat): CutCursor
    requires k <= |c| && i < n && |E| == 2 * n
  {
    if m <= k || k == |c| then CutCursor(next, E, i + n)
    else CutCursor(CutLinks(next, c, k), CutEntries(E, c, k, i, n), i + 2 * n)
  }

  /**
   * The bucket loop of `typesafe_hash_grow` for one bucket i of a table of
   * n buckets growing to 2n: `apos` walks chain `c`; the first item whose
   * bucket in the new table is j = i + n or above is cut off (its place is
   * set to null), starts bucket j, and j moves on by n. The walk goes on to
   * the end of the chain, but j is then past every bucket, so nothing more
   * is cut. Only the link of the item before the cut changes.
   */
  method CutChain(hash: nat -> u32, hashval: map<nat, u32>, next: map<nat, Ptr>, E: seq<Ptr>,
                  ghost c: seq<nat>, n: nat, i: nat)
    returns (links: map<nat, Ptr>, E': seq<Ptr>)
    requires i < n && |E| == 2 * n && Linked(next, E[i], c) && E[i + n] == Null && CachedOn(hash, hashval, c)
    ensures var k := CutIndex(hash, c, 2 * n, i + n);
      E' == E[i := HeadPtr(c[..k])][i + n := HeadPtr(c[k..])] &&
      Linked(links, E'[i], c[..k]) && Linked(links, E'[i + n], c[k..])
    ensures links.Keys == next.Keys
    ensures forall y {:trigger links[y]} :: y in next && y !in c ==> links[y] == next[y]
  {
    ghost var K := CutIndex(hash, c, 2 * n, i + n);
    links, E' := next, E;
    var apos := Entry(i);
    var j: nat := i + n;
    var item := E[i];
    ghost var m := 0;
    assert c[0..] == c;
    while item != Null
      invariant m <= |c| && item == HeadPtr(c[m..]) && apos == SlotOf(c, m, i)
      invariant CutCursor(links, E', j) == CutState(next, E, c, K, i, n, m)
      decreases |c| - m
    {
      links, E', j, apos, item := CutTurn(hash, hashval, next, E, c, n, i, m, links, E', j, apos, item);
      m := m + 1;
    }
    CutDone(next, E, c, K, i, n);
    CutFrame(next, c, K);
  }

  /** One turn of the walk: the m-th item is cut off when it is the first not below j, and `apos` moves past it. */
  method CutTurn(hash: nat -> u32, hashval: map<nat, u32>, next: map<nat, Ptr>, E: seq<Ptr>, ghost c: seq<nat>,
                 n: nat, i: nat, ghost m: nat, links: map<nat, Ptr>, E1: seq<Ptr>, j: nat, apos: HSlot, item: Ptr)
    returns (links': map<nat, Ptr>, E': seq<Ptr>, j': nat, apos': HSlot, item': Ptr)
    requires i < n && |E| == 2 * n && Linked(next, E[i], c) && CachedOn(hash, hashval, c)
    requires m < |c| && item == HeadPtr(c[m..]) && apos == SlotOf(c, m, i)
    requires CutCursor(links, E1, j) == CutState(next, E, c, CutIndex(hash, c, 2 * n, i + n), i, n, m)
    ensures item' == HeadPtr(c[m + 1..]) && apos' == SlotOf(c, m + 1, i)
    ensures CutCursor(links', E', j') == CutState(next, E, c, CutIndex(hash, c, 2 * n, i + n), i, n, m + 1)
  {
    ghost var K := CutIndex(hash, c, 2 * n, i + n);
    var x := item.id;
    assert x == c[m];
    WalkStep(hash, hashval, next, E[i], c, m);
    CutIndexFirst(hash, c, 2 * n, i + n);
    links', E', j' := links, E1, j;
    if hashval[x] % (2 * n) >= j {
      assert m == K;
      if apos.Entry? {
        E' := E'[apos.bucket := Null];
      } else {
        links' := links'[apos.owner := Null];
      }
      E' := E'[j := item];
      j' := j + n;
    }
    assert links'[x] == next[x] by {
      if 0 < K <= m {
        assert c[K - 1] != c[m];
      }
    }
    apos' := NextOf(x);
    item' := links'[x];
  }

  /** The cut changes no link but the one of the item before it. */
  lemma CutFrame(next: map<nat, Ptr>, c: seq<nat>, k: nat)
    requires k <= |c| && forall y :: y in c ==> y in next
    ensures var links := if k < |c| then CutLinks(next, c, k) else next;
      links.Keys == next.Keys && forall y {:trigger links[y]} :: y in next && y !in c ==> links[y] == next[y]
  {
    if 0 < k < |c| {
      assert c[k - 1] in c;
    }
  }

  /** After the walk: the two parts of the cut chain are linked from buckets i and i + n. */
  lemma CutDone(next: map<nat, Ptr>, E: seq<Ptr>, c: seq<nat>, k: nat, i: nat, n: nat)
    requires i < n && |E| == 2 * n && Linked(next, E[i], c) && E[i + n] == Null && k <= |c|
    ensures var links := if k < |c| then CutLinks(next, c, k) else next;
      var E' := if k < |c| then CutEntries(E, c, k, i, n) else E;
      E' == E[i := HeadPtr(c[..k])][i + n := HeadPtr(c[k..])] &&
      Linked(links, E'[i], c[..k]) && Linked(links, E'[i + n], c[k..])
  {
    if k == |c| {
      assert c[..k] == c && c[k..] == [];
    } else if k == 0 {
      assert c[..0] == [] && c[0..] == c;
    } else {
      LinkedCut(next, c, k);
    }
  }

  /**
   * `typesafe_hash_grow` as written, for a table of n > 0 buckets growing
   * to 2n: the array gets n more, zeroed buckets, then the chain of each old
   * bucket in turn is cut between itself and its partner n above. The
   * result links the chains of `GrowAsWrittenSpec`, and no link off the
   * table changes.
   */
  method GrowWritten(hash: nat -> u32, hashval: map<nat, u32>, next: map<nat, Ptr>, E: seq<Ptr>, ghost B: seq<seq<nat>>)
    returns (links: map<nat, Ptr>, E': seq<Ptr>)
    requires |B| > 0 && AllLinked(next, E, B) && Disjoint(B) && CachedAll(hash, hashval, B)
    ensures AllLinked(links, E', GrowAsWrittenSpec(hash, B))
    ensures links.Keys == next.Keys
    ensures forall y {:trigger links[y]} :: y in next && y !in Flatten(B) ==> links[y] == next[y]
  {
    var n := |E|;
    E' := E + seq(n, j => Null);
    links := next;
    CutStart(hash, next, E, B);
    var i := 0;
    while i < n
      invariant i <= n && |E'| == 2 * n
      invariant AllLinked(links, E', CutMid(hash, B, i))
      invariant links.Keys == next.Keys
      invariant forall y {:trigger links[y]} :: y in next && y !in Flatten(B) ==> links[y] == next[y]
      decreases n - i
    {
      ghost var links0 := links;
      links, E' := CutBucket(hash, hashval, links, E', B, n, i);
      assert forall y :: y in next && y !in Flatten(B) ==> links[y] == links0[y] by {
        forall y | y in next && y !in Flatten(B)
          ensures links[y] == links0[y]
        {
          FlattenMember(B, y);
          assert y !in B[i];
        }
      }
      i := i + 1;
    }
    CutMidEnds(hash, B);
  }

  /** The cut index of old bucket b when a table of |B| buckets doubles. */
  function CutOf(hash: nat -> u32, B: seq<seq<nat>>, b: nat): (k: nat)
    requires b < |B|
    ensures k <= |B[b]|
  {
    CutIndex(hash, B[b], 2 * |B|, b + |B|)
  }

  /**
   * The chains of a table of n being grown to 2n as written, after the
   * first i buckets have been cut: bucket j < i holds the items of old chain
   * j before its cut and bucket j + n the rest; the buckets from i on are as
   * before and their partners in the upper half are still empty.
   */
  ghost function CutMid(hash: nat -> u32, B: seq<seq<nat>>, i: nat): (M: seq<seq<nat>>)
    requires i <= |B|
    ensures |M| == 2 * |B|
    ensures forall j {:trigger M[j]} :: 0 <= j < 2 * |B| ==> M[j] == CutCell(hash, B, i, j)
  {
    seq(2 * |B|, j requires 0 <= j < 2 * |B| => CutCell(hash, B, i, j))
  }

  /** Bucket j of CutMid(hash, B, i). */
  ghost function CutCell(hash: nat -> u32, B: seq<seq<nat>>, i: nat, j: nat): seq<nat>
    requires j < 2 * |B|
  {
    var n := |B|;
    if j < n then (if j < i then B[j][..CutOf(hash, B, j)] else B[j])
    else if j - n < i then B[j - n][CutOf(hash, B, j - n)..] else []
  }

  /** Cutting bucket i moves the grow on by one bucket. */
  lemma CutMidStep(hash: nat -> u32, B: seq<seq<nat>>, i: nat)
    requires i < |B|
    ensures var n := |B|; var k := CutOf(hash, B, i);
      CutMid(hash, B, i + 1) == CutMid(hash, B, i)[i := B[i][..k]][i + n := B[i][k..]]
  {
    var n := |B|;
    var k := CutOf(hash, B, i);
    var L := CutMid(hash, B, i + 1);
    var R := CutMid(hash, B, i)[i := B[i][..k]][i + n := B[i][k..]];
    forall j | 0 <= j < 2 * n
      ensures L[j] == R[j]
    {
      if j >= n {
        assert L[(j - n) + n] == L[j] && R[(j - n) + n] == R[j];
      }
    }
  }

  /** Before any cut the grown array holds the old chains and empty upper buckets; after all, the written grow. */
  lemma CutMidEnds(hash: nat -> u32, B: seq<seq<nat>>)
    requires |B| > 0
    ensures CutMid(hash, B, 0) == B + seq(|B|, j => [])
    ensures CutMid(hash, B, |B|) == GrowAsWrittenSpec(hash, B)
  {
    var n := |B|;
    var Z: seq<seq<nat>> := seq(n, j => []);
    var M0, Mn, G := CutMid(hash, B, 0), CutMid(hash, B, n), GrowAsWrittenSpec(hash, B);
    forall j | 0 <= j < 2 * n
      ensures M0[j] == (B + Z)[j] && Mn[j] == G[j]
    {
      if j >= n {
        assert M0[(j - n) + n] == M0[j] && Mn[(j - n) + n] == Mn[j] && G[(j - n) + n] == G[j];
      }
    }
  }

  /** The array with n zeroed buckets added links the old chains followed by n empty ones. */
  lemma CutStart(hash: nat -> u32, next: map<nat, Ptr>, E: seq<Ptr>, B: seq<seq<nat>>)
    requires |B| > 0 && AllLinked(next, E, B)
    ensures AllLinked(next, E + seq(|E|, j => Null), CutMid(hash, B, 0))
  {
    CutMidEnds(hash, B);
    var n := |B|;
    var E' := E + seq(n, j => Null);
    var M := B + seq(n, j => []);
    forall j | 0 <= j < 2 * n
      ensures Linked(next, E'[j], M[j])
    {
      if j < n {
        assert E'[j] == E[j] && M[j] == B[j];
      } else {
        assert E'[j] == Null && M[j] == [];
      }
    }
  }

  /** On a table whose chains are apart, no chain of the array being grown but bucket i's shares an item with old chain i. */
  lemma CutMidApart(hash: nat -> u32, B: seq<seq<nat>>, i: nat)
    requires Disjoint(B) && i < |B|
    ensures forall j, x :: 0 <= j < 2 * |B| && j != i && x in CutMid(hash, B, i)[j] ==> x !in B[i]
  {
    var n := |B|;
    var M := CutMid(hash, B, i);
    forall j, x | 0 <= j < 2 * n && j != i && x in M[j]
      ensures x !in B[i]
    {
      var b := if j < n then j else j - n;
      var k := CutOf(hash, B, b);
      assert M[j] == B[b] || M[j] == B[b][..k] || M[j] == B[b][k..];
      assert x in B[b] by {
        assert B[b] == B[b][..k] + B[b][k..];
      }
      assert b != i;
    }
  }

  /**
   * One turn of the bucket loop of the written grow: the chain of bucket i
   * is cut between bucket i and bucket i + n; only links of that chain
   * change.
   */
  method CutBucket(hash: nat -> u32, hashval: map<nat, u32>, next: map<nat, Ptr>, E: seq<Ptr>,
                   ghost B: seq<seq<nat>>, n: nat, i: nat)
    returns (links: map<nat, Ptr>, E': seq<Ptr>)
    requires |B| == n && i < n && |E| == 2 * n && AllLinked(next, E, CutMid(hash, B, i))
    requires Disjoint(B) && CachedAll(hash, hashval, B)
    ensures |E'| == 2 * n && AllLinked(links, E', CutMid(hash, B, i + 1))
    ensures links.Keys == next.Keys
    ensures forall y {:trigger links[y]} :: y in next && y !in B[i] ==> links[y] == next[y]
  {
    ghost var M := CutMid(hash, B, i);
    assert M[i] == B[i] && M[i + n] == [];
    assert Linked(next, E[i], B[i]) && Linked(next, E[i + n], []);
    links, E' := CutChain(hash, hashval, next, E, B[i], n, i);
    ghost var k := CutOf(hash, B, i);
    CutRelinked(hash, next, links, E, B, i, E'[i], B[i][..k], E'[i + n], B[i][k..]);
    CutMidStep(hash, B, i);
  }

  /**
   * The cut of bucket i relinks the two chains of its buckets i and i + |B|;
   * the chains of the other buckets hold no item of bucket i, so their
   * links did not change and they stay linked.
   */
  lemma CutRelinked(hash: nat -> u32, next: map<nat, Ptr>, links: map<nat, Ptr>, E: seq<Ptr>, B: seq<seq<nat>>,
                    i: nat, h1: Ptr, c1: seq<nat>, h2: Ptr, c2: seq<nat>)
    requires i < |B| && AllLinked(next, E, CutMid(hash, B, i)) && Disjoint(B)
    requires links.Keys == next.Keys
    requires forall y {:trigger links[y]} :: y in next && y !in B[i] ==> links[y] == next[y]
    requires Linked(links, h1, c1) && Linked(links, h2, c2)
    ensures AllLinked(links, E[i := h1][i + |B| := h2], CutMid(hash, B, i)[i := c1][i + |B| := c2])
  {
    var n := |B|;
    var M := CutMid(hash, B, i);
    var E', M' := E[i := h1][i + n := h2], M[i := c1][i + n := c2];
    CutMidApart(hash, B, i);
    forall j | 0 <= j < |M'|
      ensures Linked(links, E'[j], M'[j])
    {
      if j != i && j != i + n {
        assert Linked(next, E[j], M[j]);
        forall x | x in M[j]
          ensures x in links && links[x] == next[x]
        {
          assert x in next;
        }
        LinkedFrame(next, links, E[j], M[j]);
      }
    }
  }

  // ---------------------------------------------------------------------
  // Shrinking.

  /**
   * The walk `while (*apos) apos = &(*apos)->next;` of the written shrink:
   * from bucket i along chain `a` to the place after its last item (the
   * bucket itself when the chain is empty).
   */
  method ChainEnd(next: map<nat, Ptr>, E: seq<Ptr>, ghost a: seq<nat>, i: nat) returns (apos: HSlot)
    requires i < |E| && Linked(next, E[i], a)
    ensures apos == TailSlot(a, i)
  {
    apos := Entry(i);
    var cur := E[i];
    ghost var m := 0;
    assert a[0..] == a;
    while cur != Null
      invariant m <= |a| && cur == HeadPtr(a[m..]) && apos == SlotOf(a, m, i)
      decreases |a| - m
    {
      LinkedAt(next, E[i], a, m);
      apos := NextOf(cur.id);
      cur := next[cur.id];
      m := m + 1;
    }
  }

  /**
   * One turn of the loop over j of the written shrink: the place after the
   * last item of chain `a` of bucket i takes the start of chain `b` of
   * bucket j, so bucket i links `a + b`. Only that place changes.
   */
  method AppendBucket(next: map<nat, Ptr>, E: seq<Ptr>, ghost a: seq<nat>, ghost b: seq<nat>, i: nat, j: nat)
    returns (links: map<nat, Ptr>, E': seq<Ptr>)
    requires i < |E| && j < |E| && Linked(next, E[i], a) && Linked(next, E[j], b)
    requires forall y {:trigger y in a} :: y in a ==> y !in b
    ensures |E'| == |E| && E' == E[i := E'[i]] && Linked(links, E'[i], a + b)
    ensures links.Keys == next.Keys
    ensures forall y {:trigger links[y]} :: y in next && y !in a ==> links[y] == next[y]
  {
    var apos := ChainEnd(next, E, a, i);
    var head;
    links, head := LinkAt(next, E[i], apos, E[j]);
    E' := E[i := head];
    MergeClose(next, E[i], a, apos, i, b);
    TailSlotLast(a, i);
    if a != [] {
      assert a[|a| - 1] in a;
    }
  }

  /**
   * The chains of a table of 2n being shrunk to n as written, after the
   * first i buckets have been joined: bucket j < i holds old chain j
   * followed by old chain j + n, the buckets from i to n - 1 are as before.
   */
  ghost function AppendMid(B: seq<seq<nat>>, n: nat, i: nat): (M: seq<seq<nat>>)
    requires |B| == 2 * n && i <= n
    ensures |M| == n
    ensures forall j {:trigger M[j]} :: 0 <= j < n ==> M[j] == if j < i then B[j] + B[j + n] else B[j]
  {
    seq(n, j requires 0 <= j < n => if j < i then B[j] + B[j + n] else B[j])
  }

  /**
   * `typesafe_hash_shrink` as written, from 2n buckets to n: for each
   * bucket i < n the chain of bucket i + n is appended to the chain of
   * bucket i, and the array is cut to n buckets. The result links the
   * chains of `ShrinkAsWrittenSpec`, and no link off the table changes.
   */
  method ShrinkWritten(next: map<nat, Ptr>, E: seq<Ptr>, ghost B: seq<seq<nat>>, n: nat)
    returns (links: map<nat, Ptr>, E': seq<Ptr>)
    requires |B| == 2 * n && AllLinked(next, E, B) && Disjoint(B)
    ensures AllLinked(links, E', ShrinkAsWrittenSpec(B, n))
    ensures links.Keys == next.Keys
    ensures forall y {:trigger links[y]} :: y in next && y !in Flatten(B) ==> links[y] == next[y]
  {
    links, E' := next, E;
    AllLinkedSlices(next, E, B, n);
    assert AppendMid(B, n, 0) == B[..n];
    var i := 0;
    while i < n
      invariant i <= n && |E'| == 2 * n
      invariant AllLinked(links, E'[..n], AppendMid(B, n, i))
      invariant AllLinked(links, E'[n + i..], B[n + i..])
      invariant links.Keys == next.Keys
      invariant forall y {:trigger links[y]} :: y in next && y !in Flatten(B) ==> links[y] == next[y]
      decreases n - i
    {
      ghost var links0 := links;
      links, E' := AppendTurn(links, E', B, n, i);
      assert forall y :: y in next && y !in Flatten(B) ==> links[y] == links0[y] by {
        forall y | y in next && y !in Flatten(B)
          ensures links[y] == links0[y]
        {
          FlattenMember(B, y);
          assert y !in B[i];
        }
      }
      i := i + 1;
    }
    assert AppendMid(B, n, n) == ShrinkAsWrittenSpec(B, n);
    E' := E'[..n];
  }

  /**
   * One turn of the bucket loop of the written shrink: with 2n buckets the
   * loop over j runs once, for j = i + n, and appends chain i + n to chain
   * i; only the link after the last item of chain i changes.
   */
  method AppendTurn(next: map<nat, Ptr>, E: seq<Ptr>, ghost B: seq<seq<nat>>, n: nat, i: nat)
    returns (links: map<nat, Ptr>, E': seq<Ptr>)
    requires |B| == 2 * n && i < n && |E| == 2 * n && Disjoint(B)
    requires AllLinked(next, E[..n], AppendMid(B, n, i)) && AllLinked(next, E[n + i..], B[n + i..])
    ensures |E'| == 2 * n
    ensures AllLinked(links, E'[..n], AppendMid(B, n, i + 1)) && AllLinked(links, E'[n + i + 1..], B[n + i + 1..])
    ensures links.Keys == next.Keys
    ensures forall y {:trigger links[y]} :: y in next && y !in B[i] ==> links[y] == next[y]
  {
    assert E[..n][i] == E[i] && AppendMid(B, n, i)[i] == B[i];
    assert E[n + i..][0] == E[i + n] && B[n + i..][0] == B[i + n];
    assert Linked(next, E[i], B[i]) && Linked(next, E[i + n], B[i + n]);
    var j := i + n;
    links, E' := AppendBucket(next, E, B[i], B[j], i, j);
    AppendRelinked(next, links, E, B, n, i, E'[i]);
    assert E'[..n] == E[..n][i := E'[i]];
    assert AppendMid(B, n, i + 1) == AppendMid(B, n, i)[i := B[i] + B[i + n]];
    assert E'[n + i + 1..] == E[n + i + 1..];
  }

  /**
   * The join of buckets i and i + n relinks the chain of bucket i; the
   * chains of the other buckets still in use hold no item of chain i, so
   * their links did not change and they stay linked.
   */
  lemma AppendRelinked(next: map<nat, Ptr>, links: map<nat, Ptr>, E: seq<Ptr>, B: seq<seq<nat>>,
                       n: nat, i: nat, head: Ptr)
    requires |B| == 2 * n && i < n && |E| == 2 * n && Disjoint(B)
    requires AllLinked(next, E[..n], AppendMid(B, n, i)) && AllLinked(next, E[n + i..], B[n + i..])
    requires links.Keys == next.Keys
    requires forall y {:trigger links[y]} :: y in next && y !in B[i] ==> links[y] == next[y]
    requires Linked(links, head, B[i] + B[i + n])
    ensures AllLinked(links, E[..n][i := head], AppendMid(B, n, i)[i := B[i] + B[i + n]])
    ensures AllLinked(links, E[n + i + 1..], B[n + i + 1..])
  {
    var M := AppendMid(B, n, i);
    forall j | 0 <= j < n && j != i
      ensures Linked(links, E[..n][j], M[j])
    {
      assert Linked(next, E[..n][j], M[j]);
      forall x | x in M[j]
        ensures x in links && links[x] == next[x]
      {
        assert x in next;
        assert x in B[j] || x in B[j + n];
      }
      LinkedFrame(next, links, E[..n][j], M[j]);
    }
    var E1, B1 := E[n + i + 1..], B[n + i + 1..];
    forall j | 0 <= j < |B1|
      ensures Linked(links, E1[j], B1[j])
    {
      assert E1[j] == E[n + i..][j + 1] && B1[j] == B[n + i..][j + 1];
      assert Linked(next, E[n + i..][j + 1], B[n + i..][j + 1]);
      forall x | x in B1[j]
        ensures x in links && links[x] == next[x]
      {
        assert x in next;
        assert x in B[n + i + 1 + j];
      }
      LinkedFrame(next, links, E1[j], B1[j]);
    }
  }
}
