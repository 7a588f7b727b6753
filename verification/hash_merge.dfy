/**
 * The relinking loop of the corrected hash-table shrink (lib/typesafe.c),
 * on the `next` fields of the items: the chains of buckets i and i + n of a
 * table of 2n are merged by hash value into the chain of bucket i of the
 * table of n.
 */
module HashMerge {
  import opened Links
  import opened HashSpec
  import opened HashRelink
  import opened HashMergeStep
  import opened HashMergeParts

  /**
   * Two chains, starting at `ha` and `hb`, are merged by hash value into one
   * chain for bucket r: the result starts at `head`, visits the items of both
   * in the order of `Merge`, and no link off the two chains changes.
   */
  method MergeChains(hash: nat -> u32, hashval: map<nat, u32>, next: map<nat, Ptr>,
                     ha: Ptr, ghost A: seq<nat>, hb: Ptr, ghost Z: seq<nat>, r: nat)
    returns (links: map<nat, Ptr>, head: Ptr)
    requires Linked(next, ha, A) && Linked(next, hb, Z)
    requires forall x {:trigger x in A} :: x in A ==> x !in Z
    requires forall x :: x in A ==> x in hashval && hashval[x] == hash(x)
    requires forall x :: x in Z ==> x in hashval && hashval[x] == hash(x)
    ensures Linked(links, head, Merge(hash, A, Z))
    ensures links.Keys == next.Keys
    ensures forall x {:trigger links[x]} :: x in next && x !in A && x !in Z ==> links[x] == next[x]
  {
    links, head := next, Null;
    var pos := Entry(r);
    var ca, cb := ha, hb;
    ghost var st := MergeCursor(links, head, pos, 0, 0, []);
    MergeStart(hash, A, Z, next, r);
    while ca != Null && cb != Null
      invariant MergeState(hash, st, A, Z, next, r)
      invariant st.links == links && st.head == head && st.pos == pos
      invariant ca == HeadPtr(A[st.p..]) && cb == HeadPtr(Z[st.q..])
      decreases |A| + |Z| - st.p - st.q
    {
      links, head, pos, ca, cb, st := MergeOne(hash, hashval, next, A, Z, r, links, head, pos, ca, cb, st);
    }
    MergeDone(hash, A, Z, next, r, st);
    var rest := if ca != Null then ca else cb;
    links, head := LinkAt(links, head, pos, rest);
  }

  /**
   * One turn of the merge loop: the item at `ca` is taken unless the item
   * at `cb` has a lower hash value; it is linked in at `pos` and its old
   * `next` field becomes the new cursor of its chain.
   */
  method MergeOne(hash: nat -> u32, hashval: map<nat, u32>, next: map<nat, Ptr>, ghost A: seq<nat>, ghost Z: seq<nat>,
                  r: nat, links: map<nat, Ptr>, head: Ptr, pos: HSlot, ca: Ptr, cb: Ptr, ghost st: MergeCursor)
    returns (links': map<nat, Ptr>, head': Ptr, pos': HSlot, ca': Ptr, cb': Ptr, ghost st': MergeCursor)
    requires MergeInput(next, A, Z)
    requires forall x :: x in A ==> x in hashval && hashval[x] == hash(x)
    requires forall x :: x in Z ==> x in hashval && hashval[x] == hash(x)
    requires MergeState(hash, st, A, Z, next, r)
    requires st.links == links && st.head == head && st.pos == pos
    requires ca == HeadPtr(A[st.p..]) != Null && cb == HeadPtr(Z[st.q..]) != Null
    ensures MergeState(hash, st', A, Z, next, r)
    ensures st'.links == links' && st'.head == head' && st'.pos == pos'
    ensures ca' == HeadPtr(A[st'.p..]) && cb' == HeadPtr(Z[st'.q..])
    ensures st.p + st.q < st'.p + st'.q
  {
    MergeTurn(hash, hashval, st, A, Z, next, r);
    ca', cb' := ca, cb;
    if hashval[ca.id] <= hashval[cb.id] {
      var x := ca.id;
      var nx := links[x];
      links', head' := LinkAt(links, head, pos, ca);
      pos' := NextOf(x);
      ca' := nx;
      st' := MergeTake(st, x, true);
    } else {
      var x := cb.id;
      var nx := links[x];
      links', head' := LinkAt(links, head, pos, cb);
      pos' := NextOf(x);
      cb' := nx;
      st' := MergeTake(st, x, false);
    }
  }

  /** Stores `p` at place `pos`: in the bucket (the start of the chain) or in the `next` field of an item. */
  method LinkAt(links: map<nat, Ptr>, head: Ptr, pos: HSlot, p: Ptr) returns (links': map<nat, Ptr>, head': Ptr)
    ensures links' == if pos.Entry? then links else links[pos.owner := p]
    ensures head' == if pos.Entry? then p else head
  {
    links', head' := links, head;
    if pos.Entry? {
      head' := p;
    } else {
      links' := links[pos.owner := p];
    }
  }
}

/**
 * The state of the merge loop and one turn of it. Kept apart from the loop
 * so that, there, MergeState is one fact rather than its many conjuncts.
 */
module HashMergeStep {
  import opened Links
  import opened HashSpec
  import opened HashRelink
  import opened HashMergeParts

  /**
   * Where the merge loop stands: the `next` fields, the start of the merged
   * chain, the place its next item is linked into, how many items of each
   * chain it has taken, and (for the proof) the merged items so far.
   */
  datatype MergeCursor = MergeCursor(links: map<nat, Ptr>, head: Ptr, pos: HSlot, p: nat, q: nat, P: seq<nat>)

  /** Item x, from the first chain or from the second, is linked after the merged items. */
  function MergeTake(st: MergeCursor, x: nat, fromA: bool): MergeCursor
  {
    MergeCursor(if st.pos.Entry? then st.links else st.links[st.pos.owner := Ref(x)],
                if st.pos.Entry? then Ref(x) else st.head, NextOf(x),
                if fromA then st.p + 1 else st.p, if fromA then st.q else st.q + 1, st.P + [x])
  }

  /** Cursor `st` of the merge of chains A and Z into bucket r. */
  ghost predicate MergeState(hash: nat -> u32, st: MergeCursor, A: seq<nat>, Z: seq<nat>,
                             next0: map<nat, Ptr>, r: nat)
  {
    st.p <= |A| && st.q <= |Z| &&
    MergeEq(hash, A, Z, st.P, st.p, st.q) &&
    MergeLinks(st.links, st.head, st.P, A[st.p..], Z[st.q..], next0) &&
    st.pos == TailSlot(st.P, r) &&
    MergeFrom(st.P, A, Z, st.p, st.q)
  }

  /** Before the first turn nothing is merged and both chains are as given. */
  lemma MergeStart(hash: nat -> u32, A: seq<nat>, Z: seq<nat>, next: map<nat, Ptr>, r: nat)
    requires MergeInput(next, A, Z)
    ensures MergeState(hash, MergeCursor(next, Null, Entry(r), 0, 0, []), A, Z, next, r)
  {
    assert A[0..] == A && Z[0..] == Z;
    assert MergeEq(hash, A, Z, [], 0, 0);
  }

  /** Taking the next item of the first chain. */
  lemma MergeTakeA(hash: nat -> u32, st: MergeCursor, A: seq<nat>, Z: seq<nat>, next0: map<nat, Ptr>, r: nat)
    requires MergeState(hash, st, A, Z, next0, r) && MergeInput(next0, A, Z)
    requires st.p < |A| && st.q < |Z| && hash(A[st.p]) <= hash(Z[st.q])
    ensures MergeState(hash, MergeTake(st, A[st.p], true), A, Z, next0, r)
  {
    MergeEqStepA(hash, A, Z, st.P, st.p, st.q);
    MergeFromStepA(st.P, A, Z, st.p, st.q);
    MergeApart(st.P, A, Z, st.p, st.q, next0);
    SliceIn(Z, st.q);
    assert A[st.p] in A;
    MergeLink(st.links, next0, st.head, st.P, st.pos, r, A, st.p, Z[st.q..]);
  }

  /** Taking the next item of the second chain. */
  lemma MergeTakeZ(hash: nat -> u32, st: MergeCursor, A: seq<nat>, Z: seq<nat>, next0: map<nat, Ptr>, r: nat)
    requires MergeState(hash, st, A, Z, next0, r) && MergeInput(next0, A, Z)
    requires st.p < |A| && st.q < |Z| && hash(Z[st.q]) < hash(A[st.p])
    ensures MergeState(hash, MergeTake(st, Z[st.q], false), A, Z, next0, r)
  {
    MergeEqStepZ(hash, A, Z, st.P, st.p, st.q);
    MergeFromStepZ(st.P, A, Z, st.p, st.q);
    MergeApart(st.P, A, Z, st.p, st.q, next0);
    SliceIn(A, st.p);
    MergeLinkZ(st.links, next0, st.head, st.P, st.pos, r, A[st.p..], Z, st.q);
  }

  /**
   * A turn of the loop while both chains have items left: the next item of
   * each is where the cursor says, its hash value is the one stored, and
   * taking the one with the lower hash value (the first on a tie) keeps the
   * state.
   */
  lemma MergeTurn(hash: nat -> u32, hashval: map<nat, u32>, st: MergeCursor, A: seq<nat>, Z: seq<nat>,
                  next0: map<nat, Ptr>, r: nat)
    requires MergeState(hash, st, A, Z, next0, r) && MergeInput(next0, A, Z)
    requires forall x :: x in A ==> x in hashval && hashval[x] == hash(x)
    requires forall x :: x in Z ==> x in hashval && hashval[x] == hash(x)
    requires HeadPtr(A[st.p..]) != Null && HeadPtr(Z[st.q..]) != Null
    ensures st.p < |A| && st.q < |Z|
    ensures HeadPtr(A[st.p..]) == Ref(A[st.p]) && A[st.p] in st.links && st.links[A[st.p]] == HeadPtr(A[st.p + 1..])
    ensures HeadPtr(Z[st.q..]) == Ref(Z[st.q]) && Z[st.q] in st.links && st.links[Z[st.q]] == HeadPtr(Z[st.q + 1..])
    ensures A[st.p] in hashval && hashval[A[st.p]] == hash(A[st.p])
    ensures Z[st.q] in hashval && hashval[Z[st.q]] == hash(Z[st.q])
    ensures hash(A[st.p]) <= hash(Z[st.q]) ==> MergeState(hash, MergeTake(st, A[st.p], true), A, Z, next0, r)
    ensures !(hash(A[st.p]) <= hash(Z[st.q])) ==> MergeState(hash, MergeTake(st, Z[st.q], false), A, Z, next0, r)
  {
    LinkedDrop(st.links, A, st.p);
    LinkedDrop(st.links, Z, st.q);
    assert A[st.p] in A && Z[st.q] in Z;
    if hash(A[st.p]) <= hash(Z[st.q]) {
      MergeTakeA(hash, st, A, Z, next0, r);
    } else {
      MergeTakeZ(hash, st, A, Z, next0, r);
    }
  }

  /**
   * Once one chain is used up, storing the start of what is left of the
   * other after the last merged item (or in the bucket) completes the merge.
   */
  lemma MergeDone(hash: nat -> u32, A: seq<nat>, Z: seq<nat>, next0: map<nat, Ptr>, r: nat, st: MergeCursor)
    requires MergeState(hash, st, A, Z, next0, r) && MergeInput(next0, A, Z)
    requires st.p == |A| || st.q == |Z|
    ensures var rest := if st.p < |A| then HeadPtr(A[st.p..]) else HeadPtr(Z[st.q..]);
      var links := if st.pos.Entry? then st.links else st.links[st.pos.owner := rest];
      Linked(links, if st.pos.Entry? then rest else st.head, Merge(hash, A, Z)) &&
      links.Keys == next0.Keys &&
      (forall x {:trigger links[x]} :: x in next0 && x !in A && x !in Z ==> links[x] == next0[x])
  {
    var t := if st.p < |A| then A[st.p..] else Z[st.q..];
    var links := if st.pos.Entry? then st.links else st.links[st.pos.owner := HeadPtr(t)];
    MergeApart(st.P, A, Z, st.p, st.q, next0);
    assert Linked(links, if st.pos.Entry? then HeadPtr(t) else st.head, Merge(hash, A, Z)) by {
      MergeRest(hash, A, Z, st.p, st.q);
      MergeClose(st.links, st.head, st.P, st.pos, r, t);
      LinkedSeqEqual(links, if st.pos.Entry? then HeadPtr(t) else st.head, st.P + t, Merge(hash, A, Z));
    }
    TailSlotLast(st.P, r);
    MergeCloseFrame(st.links, links, next0, st.P, A, Z, st.p, st.q, HeadPtr(t));
  }
}

/** The parts of the merge loop's state and the facts about one relinking. */
module HashMergeParts {
  import opened Links
  import opened HashSpec
  import opened HashRelink

  /** The two input chains: each linked, neither repeating an item, and apart. */
  ghost predicate MergeInput(next: map<nat, Ptr>, A: seq<nat>, Z: seq<nat>)
  {
    Linked(next, HeadPtr(A), A) && Linked(next, HeadPtr(Z), Z) && forall x {:trigger x in A} :: x in A ==> x !in Z
  }

  /** The merged items P followed by the merge of what is left of each chain make up the whole merge. */
  ghost predicate MergeEq(hash: nat -> u32, A: seq<nat>, Z: seq<nat>, P: seq<nat>, p: nat, q: nat)
  {
    p <= |A| && q <= |Z| && Merge(hash, A, Z) == P + Merge(hash, A[p..], Z[q..])
  }

  /** Every merged item comes from the part of a chain already taken. */
  ghost predicate MergeFrom(P: seq<nat>, A: seq<nat>, Z: seq<nat>, p: nat, q: nat)
  {
    p <= |A| && q <= |Z| && forall x {:trigger x in P} :: x in P ==> x in A[..p] || x in Z[..q]
  }

  /**
   * The links during the merge: the rests `a` and `z` of the two chains are
   * still linked, the merged items P form an open chain from `head`, and only
   * the links of merged items changed.
   */
  ghost predicate MergeLinks(links: map<nat, Ptr>, head: Ptr, P: seq<nat>, a: seq<nat>, z: seq<nat>,
                             next0: map<nat, Ptr>)
  {
    Linked(links, HeadPtr(a), a) && Linked(links, HeadPtr(z), z) && Open(links, head, P) &&
    links.Keys == next0.Keys &&
    (forall x {:trigger links[x]} :: x in next0 && x !in P ==> links[x] == next0[x])
  }

  /** The items of a slice are items of the sequence. */
  lemma SliceIn(s: seq<nat>, k: nat)
    requires k <= |s|
    ensures forall y {:trigger y in s[k..]} :: y in s[k..] ==> y in s
    ensures forall y {:trigger y in s[..k]} :: y in s[..k] ==> y in s
  {
  }

  /** The merged items are on neither of the rests still to merge. */
  lemma MergeApart(P: seq<nat>, A: seq<nat>, Z: seq<nat>, p: nat, q: nat, next0: map<nat, Ptr>)
    requires MergeFrom(P, A, Z, p, q) && MergeInput(next0, A, Z)
    ensures forall x {:trigger x in P} :: x in P ==> x !in A[p..] && x !in Z[q..] && x in next0
  {
    SplitDistinct(A, p);
    SplitDistinct(Z, q);
    SliceIn(A, p);
    SliceIn(Z, q);
  }

  /** One more item of the first chain merged. */
  lemma MergeEqStepA(hash: nat -> u32, A: seq<nat>, Z: seq<nat>, P: seq<nat>, p: nat, q: nat)
    requires MergeEq(hash, A, Z, P, p, q) && p < |A| && (q >= |Z| || hash(A[p]) <= hash(Z[q]))
    ensures MergeEq(hash, A, Z, P + [A[p]], p + 1, q)
  {
    MergeUnfoldA(hash, A, p, Z, q);
  }

  /** One more item of the second chain merged. */
  lemma MergeEqStepZ(hash: nat -> u32, A: seq<nat>, Z: seq<nat>, P: seq<nat>, p: nat, q: nat)
    requires MergeEq(hash, A, Z, P, p, q) && q < |Z| && !(p < |A| && hash(A[p]) <= hash(Z[q]))
    ensures MergeEq(hash, A, Z, P + [Z[q]], p, q + 1)
  {
    MergeUnfoldZ(hash, A, p, Z, q);
  }

  /** The first chain's next item goes first when the second is used up or its next item's hash value is not lower. */
  lemma MergeUnfoldA(hash: nat -> u32, A: seq<nat>, p: nat, Z: seq<nat>, q: nat)
    requires p < |A| && q <= |Z| && (q == |Z| || hash(A[p]) <= hash(Z[q]))
    ensures Merge(hash, A[p..], Z[q..]) == [A[p]] + Merge(hash, A[p + 1..], Z[q..])
  {
    var a := A[p..];
    assert a[0] == A[p] && a[1..] == A[p + 1..];
    assert a == [a[0]] + a[1..];
  }

  /** The second chain's next item goes first when the first is used up or its next item's hash value is higher. */
  lemma MergeUnfoldZ(hash: nat -> u32, A: seq<nat>, p: nat, Z: seq<nat>, q: nat)
    requires p <= |A| && q < |Z| && !(p < |A| && hash(A[p]) <= hash(Z[q]))
    ensures Merge(hash, A[p..], Z[q..]) == [Z[q]] + Merge(hash, A[p..], Z[q + 1..])
  {
    var z := Z[q..];
    assert z[0] == Z[q] && z[1..] == Z[q + 1..];
    assert z == [z[0]] + z[1..];
  }

  /** Taking the next item of the first chain keeps the merged items among the taken ones. */
  lemma MergeFromStepA(P: seq<nat>, A: seq<nat>, Z: seq<nat>, p: nat, q: nat)
    requires MergeFrom(P, A, Z, p, q) && p < |A|
    ensures MergeFrom(P + [A[p]], A, Z, p + 1, q)
  {
    assert A[..p + 1] == A[..p] + [A[p]];
  }

  /** Taking the next item of the second chain keeps the merged items among the taken ones. */
  lemma MergeFromStepZ(P: seq<nat>, A: seq<nat>, Z: seq<nat>, p: nat, q: nat)
    requires MergeFrom(P, A, Z, p, q) && q < |Z|
    ensures MergeFrom(P + [Z[q]], A, Z, p, q + 1)
  {
    assert Z[..q + 1] == Z[..q] + [Z[q]];
  }

  /**
   * Linking x, the item at position p of chain A, into `pos`, the place
   * after the open chain P (or the bucket when P is empty), keeps the rest of
   * A and the other chain `z` linked, and changes the link of P's last item
   * only.
   */
  lemma MergeLink(next: map<nat, Ptr>, next0: map<nat, Ptr>, s: Ptr, P: seq<nat>, pos: HSlot, r: nat,
                  A: seq<nat>, p: nat, z: seq<nat>)
    requires p < |A| && MergeLinks(next, s, P, A[p..], z, next0) && pos == TailSlot(P, r)
    requires A[p] !in z
    requires forall y {:trigger y in P} :: y in P ==> y !in A[p..] && y !in z && y in next0
    ensures var x := A[p];
      MergeLinks(if pos.Entry? then next else next[pos.owner := Ref(x)],
                 if pos.Entry? then Ref(x) else s, P + [x], A[p + 1..], z, next0) &&
      NextOf(x) == TailSlot(P + [x], r)
  {
    var x := A[p];
    var next' := if pos.Entry? then next else next[pos.owner := Ref(x)];
    assert x in A[p..];
    OpenExtend(next, s, P, x);
    TailSlotLast(P, r);
    MergeLinkRests(next, next', A, p, z, P);
    MergeLinkFrame(next, next', next0, P, x);
  }

  /** The same for the item at position q of the second chain Z, the first chain's rest being `a`. */
  lemma MergeLinkZ(next: map<nat, Ptr>, next0: map<nat, Ptr>, s: Ptr, P: seq<nat>, pos: HSlot, r: nat,
                   a: seq<nat>, Z: seq<nat>, q: nat)
    requires q < |Z| && MergeLinks(next, s, P, a, Z[q..], next0) && pos == TailSlot(P, r)
    requires Z[q] !in a
    requires forall y {:trigger y in P} :: y in P ==> y !in Z[q..] && y !in a && y in next0
    ensures var x := Z[q];
      MergeLinks(if pos.Entry? then next else next[pos.owner := Ref(x)],
                 if pos.Entry? then Ref(x) else s, P + [x], a, Z[q + 1..], next0) &&
      NextOf(x) == TailSlot(P + [x], r)
  {
    var x := Z[q];
    var next' := if pos.Entry? then next else next[pos.owner := Ref(x)];
    assert x in Z[q..];
    OpenExtend(next, s, P, x);
    TailSlotLast(P, r);
    MergeLinkRests(next, next', Z, q, a, P);
    MergeLinkFrame(next, next', next0, P, x);
  }

  /** The place after a non-empty open chain is its last item's `next` field. */
  lemma TailSlotLast(P: seq<nat>, r: nat)
    ensures TailSlot(P, r).Entry? <==> P == []
    ensures P != [] ==> TailSlot(P, r).owner == P[|P| - 1] && P[|P| - 1] in P
  {
  }

  /** Relinking the last merged item changes no link off the merged items. */
  lemma MergeLinkFrame(next: map<nat, Ptr>, next': map<nat, Ptr>, next0: map<nat, Ptr>, P: seq<nat>, x: nat)
    requires next.Keys == next0.Keys && forall y {:trigger next[y]} :: y in next0 && y !in P ==> next[y] == next0[y]
    requires forall y {:trigger y in P} :: y in P ==> y in next0
    requires next' == next || (P != [] && next' == next[P[|P| - 1] := Ref(x)])
    ensures next'.Keys == next0.Keys
    ensures forall y {:trigger next'[y]} :: y in next0 && y !in P + [x] ==> next'[y] == next0[y]
  {
    if P != [] {
      assert P[|P| - 1] in P;
    }
  }

  /** Relinking the last merged item leaves the rests of both chains linked. */
  lemma MergeLinkRests(next: map<nat, Ptr>, next': map<nat, Ptr>, A: seq<nat>, p: nat, z: seq<nat>, P: seq<nat>)
    requires p < |A| && Linked(next, HeadPtr(A[p..]), A[p..]) && Linked(next, HeadPtr(z), z)
    requires forall y {:trigger y in P} :: y in P ==> y !in A[p..] && y !in z
    requires next' == next || (P != [] && next' == next[P[|P| - 1] := Ref(A[p])])
    ensures Linked(next', HeadPtr(A[p + 1..]), A[p + 1..]) && Linked(next', HeadPtr(z), z)
  {
    LinkedDrop(next, A, p);
    if P != [] {
      assert P[|P| - 1] in P;
    }
    assert forall y :: y in A[p + 1..] ==> y in A[p..] by {
      assert A[p..] == [A[p]] + A[p + 1..];
    }
    LinkedFrame(next, next', HeadPtr(A[p + 1..]), A[p + 1..]);
    LinkedFrame(next, next', HeadPtr(z), z);
  }



  /** Once one chain is used up, the merge of the rests is the rest of the other. */
  lemma MergeRest(hash: nat -> u32, A: seq<nat>, Z: seq<nat>, p: nat, q: nat)
    requires p <= |A| && q <= |Z| && (p == |A| || q == |Z|)
    ensures Merge(hash, A[p..], Z[q..]) == if p < |A| then A[p..] else Z[q..]
  {
  }

  /** Linked does not depend on how the chain's sequence is written. */
  lemma LinkedSeqEqual(next: map<nat, Ptr>, start: Ptr, s: seq<nat>, t: seq<nat>)
    requires Linked(next, start, s) && s == t
    ensures Linked(next, start, t)
  {
  }

  /** Storing the start of chain t into the place after the open chain P closes it as P + t. */
  lemma MergeClose(next: map<nat, Ptr>, s: Ptr, P: seq<nat>, pos: HSlot, r: nat, t: seq<nat>)
    requires Open(next, s, P) && pos == TailSlot(P, r)
    requires Linked(next, HeadPtr(t), t) && forall y {:trigger y in P} :: y in P ==> y !in t
    ensures Linked(if pos.Entry? then next else next[pos.owner := HeadPtr(t)],
                   if pos.Entry? then HeadPtr(t) else s, P + t)
  {
    TailSlotLast(P, r);
    if P == [] {
      assert P + t == t;
    } else {
      OpenJoin(next, s, P, t);
    }
  }

  /** Closing the merged chain changes no link off the two chains. */
  lemma MergeCloseFrame(next: map<nat, Ptr>, next': map<nat, Ptr>, next0: map<nat, Ptr>, P: seq<nat>,
                        A: seq<nat>, Z: seq<nat>, p: nat, q: nat, v: Ptr)
    requires next.Keys == next0.Keys && forall y {:trigger next[y]} :: y in next0 && y !in P ==> next[y] == next0[y]
    requires MergeFrom(P, A, Z, p, q) && forall y {:trigger y in P} :: y in P ==> y in next0
    requires next' == next || (P != [] && next' == next[P[|P| - 1] := v])
    ensures next'.Keys == next0.Keys
    ensures forall y {:trigger next'[y]} :: y in next0 && y !in A && y !in Z ==> next'[y] == next0[y]
  {
    SliceIn(A, p);
    SliceIn(Z, q);
    if P != [] {
      assert P[|P| - 1] in P;
    }
  }
}
