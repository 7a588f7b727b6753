/**
 * The skip list of lib/typesafe.h and lib/typesafe.c (TYPEDSKIP_MAKEFUNCS).
 *
 * Every item embeds a `sskip_item`: four pointer fields. Levels 0 to 2 always
 * live in the first three. The fourth holds the level-3 pointer, unless its
 * tag bit is set, in which case it points to a separately allocated overflow
 * block that holds levels 3 and up. The head embeds one such item whose
 * fourth field always points, tagged, to the head's own 13-slot overflow
 * array, so the head reaches all 16 levels.
 *
 * As in the other containers, items are arena ids and the embedded fields of
 * all items are a map from id to `Node`. The ghost `Levels[l]` is the chain
 * visiting level l, read through `LevelMap(nodes, l)` with the `Links` chain
 * predicate.
 */
module TypedSkip {
  import opened Links

  /** SKIPLIST_MAXDEPTH */
  const MaxDepth: nat := 16
  /** SKIPLIST_EMBED */
  const Embed: nat := 4
  /** SKIPLIST_OVERFLOW: the index of the field that may hold the tagged overflow pointer. */
  const Overflow: nat := 3

  /** The three always-embedded level pointers. */
  type Low = s: seq<Ptr> | |s| == 3 witness [Null, Null, Null]

  /** The fourth field: an item pointer, or the tagged pointer to an overflow block. */
  datatype Word = Plain(p: Ptr) | Tagged(block: seq<Ptr>)

  /** An item's embedded `sskip_item`. */
  datatype Node = Node(low: Low, top: Word)

  /** What `memset(item, 0, sizeof(*item))` leaves. */
  const Zero: Node := Node([Null, Null, Null], Plain(Null))

  /** The number of levels a node has room for. */
  function Height(n: Node): nat
  {
    match n.top
    case Plain(_) => Embed
    case Tagged(b) => Overflow + |b|
  }

  /** A node's level pointers as one array: the three embedded ones, then the fourth field or the overflow block. */
  function Levels(n: Node): (s: seq<Ptr>)
    ensures |s| == Height(n)
  {
    n.low + match n.top
      case Plain(p) => [p]
      case Tagged(b) => b
  }

  /** `sl_level_get`: the level pointer, looked up in the overflow block when the tag is set. */
  function LevelGet(n: Node, level: nat): (r: Ptr)
    requires level < Height(n)
    ensures r == Levels(n)[level]
  {
    if level < Overflow then n.low[level]
    else match n.top
      case Plain(p) => p
      case Tagged(b) => b[level - Overflow]
  }

  /** `sl_level_set`: store one level pointer; the node's shape does not change. */
  function LevelSet(n: Node, level: nat, v: Ptr): (r: Node)
    requires level < Height(n)
    ensures Height(r) == Height(n) && r.top.Tagged? == n.top.Tagged?
    ensures LevelGet(r, level) == v
    ensures Levels(r) == Levels(n)[level := v]
  {
    if level < Overflow then n.(low := n.low[level := v])
    else match n.top
      case Plain(_) => n.(top := Plain(v))
      case Tagged(b) => n.(top := Tagged(b[level - Overflow := v]))
  }

  /** Storing one level leaves every other level as it was. */
  lemma LevelSetOther(n: Node, level: nat, v: Ptr, l: nat)
    requires level < Height(n) && l < Height(n) && l != level
    ensures LevelGet(LevelSet(n, level, v), l) == LevelGet(n, l)
  {
  }

  /** `newlevel = __builtin_ctz(random()) + 1`, capped at SKIPLIST_MAXDEPTH; `ctz` is the drawn count. */
  function NewLevel(ctz: nat): (h: nat)
    ensures 1 <= h <= MaxDepth
    ensures ctz < MaxDepth ==> h == ctz + 1
  {
    if ctz + 1 > MaxDepth then MaxDepth else ctz + 1
  }

  /**
   * The item as `typesafe_skiplist_add` prepares it: zeroed, and when it
   * needs more than SKIPLIST_EMBED levels, with a tagged overflow block of
   * `newlevel - SKIPLIST_OVERFLOW` slots.
   */
  function Fresh(newlevel: nat): (n: Node)
    requires 1 <= newlevel <= MaxDepth
    ensures n.top.Tagged? <==> newlevel > Embed
    ensures Height(n) == if newlevel > Embed then newlevel else Embed
    ensures forall l :: 0 <= l < Height(n) ==> LevelGet(n, l) == Null
  {
    if newlevel > Embed then Node([Null, Null, Null], Tagged(seq(newlevel - Overflow, _ => Null)))
    else Zero
  }

  /** The head's embedded item: tagged, pointing at its 13-slot `overflow` array. */
  ghost predicate HeadOk(head: Node)
  {
    head.top.Tagged? && Height(head) == MaxDepth
  }

  /** The level-l pointers of all items that have a level l. */
  ghost function LevelMap(nodes: map<nat, Node>, l: nat): map<nat, Ptr>
  {
    map y | y in nodes && l < Height(nodes[y]) :: LevelGet(nodes[y], l)
  }

  /** Every level is the chain that starts at the head's pointer for that level. */
  ghost predicate ChainsOk(nodes: map<nat, Node>, head: Node, L: seq<seq<nat>>)
  {
    var ok := |L| == MaxDepth && HeadOk(head) &&
      forall l {:trigger L[l]} :: 0 <= l < MaxDepth ==> Linked(LevelMap(nodes, l), LevelGet(head, l), L[l]);
    ok
  }

  /**
   * The comparison function. `cmpfn(a, b)` is negative when `a` sorts before
   * `b`: by key, and with `tiebreak` by item identity among equal keys.
   */
  datatype Order = Order(key: nat -> int, tiebreak: bool)

  predicate Below(o: Order, a: nat, b: nat)
  {
    o.key(a) < o.key(b) || (o.tiebreak && o.key(a) == o.key(b) && a < b)
  }

  /** `cmpfn(a, b)`: its sign says which of the two sorts first; zero when neither does. */
  function Cmp(o: Order, a: nat, b: nat): (c: int)
    ensures c < 0 <==> Below(o, a, b)
    ensures c > 0 <==> Below(o, b, a)
  {
    if Below(o, a, b) then -1 else if Below(o, b, a) then 1 else 0
  }

  /** No item of `s` sorts before an earlier one. */
  ghost predicate Sorted(o: Order, s: seq<nat>)
  {
    forall i, j :: 0 <= i < j < |s| ==> !Below(o, s[j], s[i])
  }

  ghost predicate OrderedOk(o: Order, L: seq<seq<nat>>)
  {
    forall l :: 0 <= l < |L| ==> Sorted(o, L[l])
  }

  /** Every item linked at a level is linked at the level below. */
  ghost predicate NestedOk(L: seq<seq<nat>>)
  {
    forall l, y {:trigger y in L[l]} :: 0 < l < |L| && y in L[l] ==> y in L[l - 1]
  }

  /** The number of leading items of `s` that sort before `x`. */
  function Rank(o: Order, s: seq<nat>, x: nat): (k: nat)
    ensures k <= |s|
    ensures forall j :: 0 <= j < k ==> Below(o, s[j], x)
    ensures k < |s| ==> !Below(o, s[k], x)
  {
    if s == [] || !Below(o, s[0], x) then 0
    else
      var k := 1 + Rank(o, s[1..], x);
      assert forall j :: 1 <= j < k ==> s[j] == s[1..][j - 1];
      k
  }

  /** One level after `add`: `x` goes in before the first item that does not sort before it. */
  function Inserted(o: Order, s: seq<nat>, x: nat): (r: seq<nat>)
    ensures multiset(r) == multiset(s) + multiset{x}
    ensures r[Rank(o, s, x)] == x
  {
    var k := Rank(o, s, x);
    assert s == s[..k] + s[k..];
    s[..k] + [x] + s[k..]
  }

  /**
   * One level after `del` as written: `x` is unlinked only when it is the
   * first item that does not sort before it.
   */
  function Unlinked(o: Order, s: seq<nat>, x: nat): (r: seq<nat>)
    ensures x !in s ==> r == s
    ensures multiset(r) + multiset{x} == multiset(s) || r == s
  {
    var k := Rank(o, s, x);
    if k < |s| && s[k] == x then
      assert s == s[..k] + [s[k]] + s[k + 1..];
      s[..k] + s[k + 1..]
    else s
  }

  /** All levels after `add`: `x` inserted at the levels in [lo, hi). */
  ghost function Added(o: Order, L: seq<seq<nat>>, x: nat, lo: nat, hi: nat): (r: seq<seq<nat>>)
    ensures |r| == |L|
  {
    seq(|L|, l requires 0 <= l < |L| => if lo <= l < hi then Inserted(o, L[l], x) else L[l])
  }

  /** All levels after `del`: `x` unlinked at the levels from lo up. */
  ghost function Deleted(o: Order, L: seq<seq<nat>>, x: nat, lo: nat): (r: seq<seq<nat>>)
    ensures |r| == |L|
  {
    seq(|L|, l requires 0 <= l < |L| => if lo <= l then Unlinked(o, L[l], x) else L[l])
  }

  /** A position in a level: the head, or an item. */
  datatype Place = HeadItem | Item(id: nat)

  /** Where the chain after place `p` continues in level `s`. */
  function PosOf(s: seq<nat>, p: Place): (k: nat)
    requires p.Item? ==> p.id in s
    ensures k <= |s|
  {
    match p
    case HeadItem => 0
    case Item(i) => IndexOf(s, i) + 1
  }

  /** The walk's `prev`: the head, or an item of the level that sorts before `x`. */
  ghost predicate Settled(o: Order, s: seq<nat>, p: Place, x: nat)
  {
    p.Item? ==> p.id in s && Below(o, p.id, x)
  }

  /** `p` is settled before `x` on `s` and `next` is the first item after `p` there, one not before `x`. */
  ghost predicate Stopped(o: Order, s: seq<nat>, p: Place, x: nat, next: Ptr)
  {
    var ok := Settled(o, s, p, x) && next == HeadPtr(s[PosOf(s, p)..]) && (next == Null || !Below(o, next.id, x));
    ok
  }

  /** How much of level `level - 1` lies beyond place `p`: what the walks of `add`, `find` and `del` use up. */
  ghost function Remaining(L: seq<seq<nat>>, level: nat, p: Place): nat
  {
    if 0 < level <= |L| && (p.Item? ==> p.id in L[level - 1]) then |L[level - 1]| - PosOf(L[level - 1], p) else 0
  }

  /** `sl_level_get(prev, l)` for a place. */
  function Read(nodes: map<nat, Node>, head: Node, p: Place, l: nat): Ptr
    requires l < Height(head)
    requires p.Item? ==> p.id in nodes && l < Height(nodes[p.id])
  {
    match p
    case HeadItem => LevelGet(head, l)
    case Item(i) => LevelGet(nodes[i], l)
  }

  /** Storing one level pointer of item `y` changes that level's map at `y` alone, and no other level's map. */
  lemma LevelMapSet(nodes: map<nat, Node>, y: nat, lv: nat, v: Ptr, l: nat)
    requires y in nodes && lv < Height(nodes[y])
    ensures LevelMap(nodes[y := LevelSet(nodes[y], lv, v)], l)
            == if l == lv then LevelMap(nodes, l)[y := v] else LevelMap(nodes, l)
  {
    if l != lv && l < Height(nodes[y]) {
      LevelSetOther(nodes[y], lv, v, l);
    }
  }

  /** Reading level l after a place of that level yields the rest of the level. */
  lemma Successor(nodes: map<nat, Node>, head: Node, L: seq<seq<nat>>, l: nat, p: Place)
    requires ChainsOk(nodes, head, L) && l < MaxDepth
    requires p.Item? ==> p.id in L[l]
    ensures p.Item? ==> p.id in nodes && l < Height(nodes[p.id])
    ensures Read(nodes, head, p, l) == HeadPtr(L[l][PosOf(L[l], p)..])
  {
    var s := L[l];
    assert Linked(LevelMap(nodes, l), LevelGet(head, l), s);
    if p.Item? {
      LinkedSuccessor(LevelMap(nodes, l), LevelGet(head, l), s, p.id);
    } else {
      assert s[0..] == s;
    }
  }

  /** What one step of a walk at level `l` from place `p` draws from the invariants of the levels. */
  lemma StepFacts(o: Order, nodes: map<nat, Node>, head: Node, C: seq<seq<nat>>, L: seq<seq<nat>>, l: nat, p: Place, x: nat)
    requires ChainsOk(nodes, head, C) && OrderedOk(o, L) && NestedOk(L)
    requires l < MaxDepth && l < |L| && C[l] == L[l] && Settled(o, L[l], p, x)
    ensures l < Height(head) && (p.Item? ==> p.id in nodes && l < Height(nodes[p.id]))
    ensures Sorted(o, L[l]) && Distinct(L[l])
    ensures 0 < l && p.Item? ==> p.id in L[l - 1]
    ensures Read(nodes, head, p, l) == if PosOf(L[l], p) < |L[l]| then Ref(L[l][PosOf(L[l], p)]) else Null
  {
    assert Linked(LevelMap(nodes, l), LevelGet(head, l), C[l]);
    Successor(nodes, head, C, l, p);
    SliceStep(L[l], PosOf(L[l], p));
  }

  /** Everything of a sorted level up to a settled place sorts before `x`. */
  lemma SettledBefore(o: Order, s: seq<nat>, p: Place, x: nat)
    requires Sorted(o, s) && Distinct(s) && Settled(o, s, p, x)
    ensures forall j :: 0 <= j < PosOf(s, p) ==> Below(o, s[j], x)
  {
    var k := PosOf(s, p);
    forall j | 0 <= j < k
      ensures Below(o, s[j], x)
    {
      if j < k - 1 {
        assert !Below(o, s[k - 1], s[j]);
      }
    }
  }

  /** A walk that stops at a settled place, before an item that does not sort before `x`, stops at `x`'s rank. */
  lemma StopRank(o: Order, s: seq<nat>, p: Place, x: nat)
    requires Sorted(o, s) && Distinct(s) && Settled(o, s, p, x)
    requires PosOf(s, p) < |s| ==> !Below(o, s[PosOf(s, p)], x)
    ensures Rank(o, s, x) == PosOf(s, p)
  {
    SettledBefore(o, s, p, x);
  }

  /** A walk that stops before an item sorting after `x` has passed every item that compares equal to it. */
  lemma NoneEqual(o: Order, s: seq<nat>, p: Place, x: nat)
    requires Sorted(o, s) && Distinct(s) && Settled(o, s, p, x)
    requires PosOf(s, p) < |s| ==> Below(o, x, s[PosOf(s, p)])
    ensures forall y :: y in s ==> Cmp(o, y, x) != 0
  {
    SettledBefore(o, s, p, x);
    var k := PosOf(s, p);
    forall y | y in s
      ensures Cmp(o, y, x) != 0
    {
      var j :| 0 <= j < |s| && s[j] == y;
      if j > k {
        assert !Below(o, s[j], s[k]);
      }
    }
  }

  /** Linking `x` in after place `p` at level l, as `add` does with its two stores. */
  lemma LinkChains(nodes: map<nat, Node>, head: Node, L: seq<seq<nat>>, p: Place, x: nat, l: nat)
    requires ChainsOk(nodes, head, L) && l < MaxDepth
    requires x in nodes && l < Height(nodes[x]) && x !in L[l]
    requires p.Item? ==> p.id in L[l]
    ensures p.Item? ==> p.id in nodes && p.id != x && l < Height(nodes[p.id])
    ensures var k := PosOf(L[l], p);
            var n1 := nodes[x := LevelSet(nodes[x], l, HeadPtr(L[l][k..]))];
            ChainsOk(if p.Item? then n1[p.id := LevelSet(n1[p.id], l, Ref(x))] else n1,
                     if p.Item? then head else LevelSet(head, l, Ref(x)),
                     L[l := L[l][..k] + [x] + L[l][k..]])
  {
    var s := L[l];
    var k := PosOf(s, p);
    Successor(nodes, head, L, l, p);
    var v := HeadPtr(s[k..]);
    var n1 := nodes[x := LevelSet(nodes[x], l, v)];
    var n2 := if p.Item? then n1[p.id := LevelSet(n1[p.id], l, Ref(x))] else n1;
    var h2 := if p.Item? then head else LevelSet(head, l, Ref(x));
    var L2 := L[l := s[..k] + [x] + s[k..]];
    forall l' | 0 <= l' < MaxDepth
      ensures Linked(LevelMap(n2, l'), LevelGet(h2, l'), L2[l'])
    {
      LevelMapSet(nodes, x, l, v, l');
      if p.Item? {
        LevelMapSet(n1, p.id, l, Ref(x), l');
      }
      if l' == l {
        LinkedInsert(LevelMap(nodes, l), LevelGet(head, l), s, k, x);
      } else {
        assert Linked(LevelMap(nodes, l'), LevelGet(head, l'), L[l']);
        if !p.Item? {
          LevelSetOther(head, l, Ref(x), l');
        }
      }
    }
  }

  /** Unlinking the item after place `p` at level l, as `del` does: `p` takes over that item's pointer. */
  lemma UnlinkChains(nodes: map<nat, Node>, head: Node, L: seq<seq<nat>>, p: Place, x: nat, l: nat)
    requires ChainsOk(nodes, head, L) && l < MaxDepth
    requires p.Item? ==> p.id in L[l]
    requires PosOf(L[l], p) < |L[l]| && L[l][PosOf(L[l], p)] == x
    ensures HeadOk(head) && |L| == MaxDepth && Distinct(L[l])
    ensures x in nodes && l < Height(nodes[x])
    ensures p.Item? ==> p.id in nodes && l < Height(nodes[p.id])
    ensures var k := PosOf(L[l], p);
            var v := LevelGet(nodes[x], l);
            ChainsOk(if p.Item? then nodes[p.id := LevelSet(nodes[p.id], l, v)] else nodes,
                     if p.Item? then head else LevelSet(head, l, v),
                     L[l := L[l][..k] + L[l][k + 1..]])
  {
    var s := L[l];
    var k := PosOf(s, p);
    var m := LevelMap(nodes, l);
    Successor(nodes, head, L, l, p);
    LinkedAt(m, LevelGet(head, l), s, k);
    var v := LevelGet(nodes[x], l);
    assert v == After(s, k);
    var n2 := if p.Item? then nodes[p.id := LevelSet(nodes[p.id], l, v)] else nodes;
    var h2 := if p.Item? then head else LevelSet(head, l, v);
    var L2 := L[l := s[..k] + s[k + 1..]];
    forall l' | 0 <= l' < MaxDepth
      ensures Linked(LevelMap(n2, l'), LevelGet(h2, l'), L2[l'])
    {
      if p.Item? {
        LevelMapSet(nodes, p.id, l, v, l');
      }
      if l' == l {
        LinkedRemove(m, LevelGet(head, l), s, k);
      } else {
        assert Linked(LevelMap(nodes, l'), LevelGet(head, l'), L[l']);
        if !p.Item? {
          LevelSetOther(head, l, v, l');
        }
      }
    }
  }

  /** Rewriting the node of `x` leaves alone every level that does not visit `x`. */
  lemma DetachChains(nodes: map<nat, Node>, head: Node, L: seq<seq<nat>>, x: nat, n: Node)
    requires ChainsOk(nodes, head, L)
    ensures forall l :: 0 <= l < MaxDepth && x !in L[l] ==> Linked(LevelMap(nodes[x := n], l), LevelGet(head, l), L[l])
    ensures (forall l :: 0 <= l < MaxDepth ==> x !in L[l]) ==> ChainsOk(nodes[x := n], head, L)
  {
    forall l | 0 <= l < MaxDepth && x !in L[l]
      ensures Linked(LevelMap(nodes[x := n], l), LevelGet(head, l), L[l])
    {
      assert Linked(LevelMap(nodes, l), LevelGet(head, l), L[l]);
      LinkedFrame(LevelMap(nodes, l), LevelMap(nodes[x := n], l), LevelGet(head, l), L[l]);
    }
  }

  /** An item linked at some level is linked at level 0. */
  lemma {:induction false} NestedDown(L: seq<seq<nat>>, l: nat, y: nat)
    requires NestedOk(L) && l < |L| && y in L[l]
    ensures y in L[0]
  {
    if l > 0 {
      NestedDown(L, l - 1, y);
    }
  }

  /** An item missing from level 0 is on no level. */
  lemma NotLinked(L: seq<seq<nat>>, x: nat)
    requires NestedOk(L) && |L| > 0 && x !in L[0]
    ensures forall l :: 0 <= l < |L| ==> x !in L[l]
  {
    forall l | 0 <= l < |L|
      ensures x !in L[l]
    {
      if x in L[l] {
        NestedDown(L, l, x);
      }
    }
  }

  lemma InsertedMembers(o: Order, s: seq<nat>, x: nat)
    ensures forall y :: y in Inserted(o, s, x) <==> y in s || y == x
  {
    var k := Rank(o, s, x);
    assert s == s[..k] + s[k..];
  }

  lemma SortedPair(o: Order, s: seq<nat>, i: nat, j: nat)
    requires Sorted(o, s) && i <= j < |s|
    ensures !Below(o, s[j], s[i])
  {
  }

  /** Inserting at the rank keeps a level sorted. */
  lemma InsertedSorted(o: Order, s: seq<nat>, x: nat)
    requires Sorted(o, s)
    ensures Sorted(o, Inserted(o, s, x))
  {
    var k := Rank(o, s, x);
    var t := Inserted(o, s, x);
    assert forall j {:trigger t[j]} :: 0 <= j < |t| ==> t[j] == if j < k then s[j] else if j == k then x else s[j - 1];
    forall i, j | 0 <= i < j < |t|
      ensures !Below(o, t[j], t[i])
    {
      if i == k && j - 1 > k {
        assert !Below(o, s[j - 1], s[k]);
      }
    }
  }

  lemma UnlinkedMembers(o: Order, s: seq<nat>, x: nat)
    ensures forall y :: y in Unlinked(o, s, x) ==> y in s
    ensures forall y :: y in s && y != x ==> y in Unlinked(o, s, x)
  {
    var k := Rank(o, s, x);
    if k < |s| && s[k] == x {
      assert s == s[..k] + [x] + s[k + 1..];
    }
  }

  /** Unlinking keeps a level sorted. */
  lemma UnlinkedSorted(o: Order, s: seq<nat>, x: nat)
    requires Sorted(o, s)
    ensures Sorted(o, Unlinked(o, s, x))
  {
    var k := Rank(o, s, x);
    if k < |s| && s[k] == x {
      var t := s[..k] + s[k + 1..];
      assert forall j {:trigger t[j]} :: 0 <= j < |t| ==> t[j] == if j < k then s[j] else s[j + 1];
    }
  }

  /** The first item of a sorted level is always the one unlinked when it is the one deleted. */
  lemma UnlinkedFirst(o: Order, s: seq<nat>)
    requires s != []
    ensures Unlinked(o, s, s[0]) == s[1..]
  {
    assert Rank(o, s, s[0]) == 0;
  }

  /** With ties broken by identity, the rank of an item of a sorted level is its position. */
  lemma RankAt(o: Order, s: seq<nat>, x: nat)
    requires o.tiebreak && Sorted(o, s) && x in s
    ensures Rank(o, s, x) < |s| && s[Rank(o, s, x)] == x
  {
    var k := Rank(o, s, x);
    var p := IndexOf(s, x);
    assert !Below(o, s[p], x);
    SortedPair(o, s, k, p);
  }

  /**
   * When the comparison orders distinct items strictly (ties broken by
   * identity), `del` unlinks `x` from a level exactly when it is there.
   */
  lemma UnlinkedStrict(o: Order, s: seq<nat>, x: nat)
    requires o.tiebreak && Sorted(o, s) && Distinct(s)
    ensures Unlinked(o, s, x) == Remove(s, x)
    ensures x !in Unlinked(o, s, x)
  {
    var k := Rank(o, s, x);
    if x in s {
      RankAt(o, s, x);
      RemoveAt(s, k);
      var t := s[..k] + s[k + 1..];
      assert forall j {:trigger t[j]} :: 0 <= j < |t| ==> t[j] == if j < k then s[j] else s[j + 1];
    } else {
      assert k < |s| ==> s[k] in s;
    }
  }

  /** With a comparison that lets two items compare equal, `del` can miss the one it was given. */
  lemma UnlinkedMissesDuplicate()
    ensures var o := Order(_ => 0, false);
            Distinct([1, 2]) && Sorted(o, [1, 2]) && Unlinked(o, [1, 2], 2) == [1, 2]
  {
    var o := Order(_ => 0, false);
    assert Rank(o, [1, 2], 2) == 0;
  }

  lemma AddedNone(o: Order, L: seq<seq<nat>>, x: nat, hi: nat)
    ensures Added(o, L, x, hi, hi) == L
  {
  }

  lemma AddedStep(o: Order, L: seq<seq<nat>>, x: nat, l: nat, hi: nat)
    requires l < hi && l < |L|
    ensures Added(o, L, x, l + 1, hi)[l := Inserted(o, L[l], x)] == Added(o, L, x, l, hi)
  {
  }

  lemma DeletedNone(o: Order, L: seq<seq<nat>>, x: nat)
    ensures Deleted(o, L, x, |L|) == L
  {
  }

  lemma DeletedBelow(o: Order, L: seq<seq<nat>>, x: nat, lo: nat, l: nat)
    requires l < lo && l < |L|
    ensures Deleted(o, L, x, lo)[l] == L[l]
  {
  }

  lemma DeletedStep(o: Order, L: seq<seq<nat>>, x: nat, l: nat)
    requires l < |L|
    ensures Deleted(o, L, x, l + 1)[l := Unlinked(o, L[l], x)] == Deleted(o, L, x, l)
  {
  }

  /** After `add`, every level is still sorted and nested, and `x` is on exactly the levels below `hi`. */
  lemma AddedOk(o: Order, L: seq<seq<nat>>, x: nat, hi: nat)
    requires OrderedOk(o, L) && NestedOk(L) && hi <= |L|
    requires forall l :: 0 <= l < |L| ==> x !in L[l]
    ensures OrderedOk(o, Added(o, L, x, 0, hi)) && NestedOk(Added(o, L, x, 0, hi))
    ensures forall l :: 0 <= l < |L| ==> (x in Added(o, L, x, 0, hi)[l] <==> l < hi)
  {
    var A := Added(o, L, x, 0, hi);
    forall l | 0 <= l < |L|
      ensures Sorted(o, A[l]) && forall y :: y in A[l] <==> y in L[l] || (y == x && l < hi)
    {
      if l < hi {
        InsertedSorted(o, L[l], x);
        InsertedMembers(o, L[l], x);
      }
    }
  }

  /** After `del`, every level is still sorted; it is still nested once `x` has left every level. */
  lemma DeletedOk(o: Order, L: seq<seq<nat>>, x: nat)
    requires OrderedOk(o, L) && NestedOk(L)
    ensures OrderedOk(o, Deleted(o, L, x, 0))
    ensures (forall l :: 0 <= l < |L| ==> x !in Deleted(o, L, x, 0)[l]) ==> NestedOk(Deleted(o, L, x, 0))
  {
    var D := Deleted(o, L, x, 0);
    forall l | 0 <= l < |L|
      ensures Sorted(o, D[l])
      ensures forall y :: y in D[l] ==> y in L[l]
      ensures forall y :: y in L[l] && y != x ==> y in D[l]
    {
      UnlinkedSorted(o, L[l], x);
      UnlinkedMembers(o, L[l], x);
    }
  }

  /** With a strict comparison, `del` takes `x` off every level. */
  lemma DeletedStrict(o: Order, L: seq<seq<nat>>, x: nat)
    requires o.tiebreak && OrderedOk(o, L)
    requires forall l :: 0 <= l < |L| ==> Distinct(L[l])
    ensures forall l :: 0 <= l < |L| ==> Deleted(o, L, x, 0)[l] == Remove(L[l], x) && x !in Deleted(o, L, x, 0)[l]
  {
    forall l | 0 <= l < |L|
      ensures Deleted(o, L, x, 0)[l] == Remove(L[l], x) && x !in Deleted(o, L, x, 0)[l]
    {
      UnlinkedStrict(o, L[l], x);
    }
  }

  class SkipList {
    /** `hitem`, whose fourth field points, tagged, at the head's own `overflow` array. */
    var head: Node
    /** The embedded `sskip_item` of every item of the arena. */
    var nodes: map<nat, Node>
    /** `count`: neither `add` nor `del` updates it. */
    var count: nat
    const order: Order
    ghost var Levels: seq<seq<nat>>

    ghost predicate Valid()
      reads this
    {
      ChainsOk(nodes, head, Levels) && OrderedOk(order, Levels) && NestedOk(Levels)
    }

    /** `_init`: all zero, except that the head's fourth field points, tagged, at its `overflow` array. */
    constructor Init(order: Order)
      ensures Valid() && this.order == order && count == 0
      ensures forall l :: 0 <= l < MaxDepth ==> Levels[l] == []
    {
      head := Node([Null, Null, Null], Tagged(seq(MaxDepth - Overflow, _ => Null)));
      nodes := map[];
      count := 0;
      this.order := order;
      Levels := seq(MaxDepth, _ => []);
    }

    /** `sl_level_set` on the head or on an item. */
    method Store(p: Place, l: nat, v: Ptr)
      requires HeadOk(head) && l < MaxDepth
      requires p.Item? ==> p.id in nodes && l < Height(nodes[p.id])
      modifies this
      ensures p == HeadItem ==> head == LevelSet(old(head), l, v) && nodes == old(nodes)
      ensures p.Item? ==> head == old(head) && nodes == old(nodes)[p.id := LevelSet(old(nodes)[p.id], l, v)]
      ensures Levels == old(Levels) && count == old(count)
    {
      match p
      case HeadItem => head := LevelSet(head, l, v);
      case Item(i) => nodes := nodes[i := LevelSet(nodes[i], l, v)];
    }

    /**
     * `_add`: `item` is linked in at levels 0 to NewLevel(ctz) - 1, on each
     * before the first item that does not sort before it. Items that compare
     * equal are not rejected.
     */
    method Add(item: nat, ctz: nat)
      requires Valid() && item !in Levels[0]
      modifies this
      ensures Valid()
      ensures Levels == Added(order, old(Levels), item, 0, NewLevel(ctz))
      ensures forall l :: 0 <= l < MaxDepth ==> (item in Levels[l] <==> l < NewLevel(ctz))
      ensures item in nodes && (nodes[item].top.Tagged? <==> NewLevel(ctz) > Embed)
      ensures Height(nodes[item]) == Height(Fresh(NewLevel(ctz)))
      ensures count == old(count)
    {
      var newlevel := ctz + 1;
      if newlevel > MaxDepth {
        newlevel := MaxDepth;
      }
      ghost var L := Levels;
      NotLinked(L, item);
      Prepare(item, newlevel);
      var prev, next := Descend(item, newlevel);
      LinkAll(prev, item, newlevel, next);
      AddedOk(order, L, item, newlevel);
    }

    /** The linking part of `_add`: link `item` after `prev` at level `newlevel - 1`, then at every level below. */
    method LinkAll(prev: Place, item: nat, newlevel: nat, next: Ptr)
      requires ChainsOk(nodes, head, Levels) && OrderedOk(order, Levels) && NestedOk(Levels)
      requires 1 <= newlevel <= MaxDepth && forall l :: 0 <= l < MaxDepth ==> item !in Levels[l]
      requires item in nodes && nodes[item] == Fresh(newlevel)
      requires Settled(order, Levels[newlevel - 1], prev, item)
      requires next == HeadPtr(Levels[newlevel - 1][PosOf(Levels[newlevel - 1], prev)..])
      requires next == Null || !Below(order, next.id, item)
      modifies this
      ensures ChainsOk(nodes, head, Levels) && Levels == Added(order, old(Levels), item, 0, newlevel)
      ensures item in nodes && (nodes[item].top.Tagged? <==> newlevel > Embed)
      ensures Height(nodes[item]) == Height(Fresh(newlevel))
      ensures count == old(count)
    {
      ghost var L := Levels;
      var level := newlevel - 1;
      LinkTop(prev, item, newlevel, next);
      // The loop only hands these on between the turns.
      hide ChainsOk, OrderedOk, NestedOk, Added;
      var p := prev;
      while level > 0
        invariant 0 <= level < newlevel
        invariant ChainsOk(nodes, head, Levels)
        invariant Levels == Added(order, L, item, level, newlevel)
        invariant Settled(order, L[level], p, item)
        invariant item in nodes && (nodes[item].top.Tagged? <==> newlevel > Embed)
        invariant Height(nodes[item]) == Height(Fresh(newlevel))
        invariant count == old(count)
        decreases level
      {
        p := LinkBelow(p, item, level, L, newlevel);
        level := level - 1;
      }
    }

    /** The first loop's end in `_add`: link `item` after `prev` at level `newlevel - 1`. */
    method LinkTop(prev: Place, item: nat, newlevel: nat, next: Ptr)
      requires ChainsOk(nodes, head, Levels) && OrderedOk(order, Levels) && NestedOk(Levels)
      requires 1 <= newlevel <= MaxDepth && forall l :: 0 <= l < MaxDepth ==> item !in Levels[l]
      requires item in nodes && nodes[item] == Fresh(newlevel)
      requires Settled(order, Levels[newlevel - 1], prev, item)
      requires next == HeadPtr(Levels[newlevel - 1][PosOf(Levels[newlevel - 1], prev)..])
      requires next == Null || !Below(order, next.id, item)
      modifies this
      ensures ChainsOk(nodes, head, Levels) && Levels == Added(order, old(Levels), item, newlevel - 1, newlevel)
      ensures item in nodes && (nodes[item].top.Tagged? <==> newlevel > Embed)
      ensures Height(nodes[item]) == Height(Fresh(newlevel))
      ensures count == old(count)
    {
      ghost var L := Levels;
      AddedNone(order, L, item, newlevel);
      LinkLevel(prev, item, newlevel - 1, next);
      AddedStep(order, L, item, newlevel - 1, newlevel);
    }

    /** One turn of the second loop of `_add`: go down a level, walk it, link `item` in there. */
    method LinkBelow(prev: Place, item: nat, level: nat, ghost L: seq<seq<nat>>, ghost newlevel: nat) returns (p: Place)
      requires 0 < level < newlevel <= MaxDepth
      requires OrderedOk(order, L) && NestedOk(L) && |L| == MaxDepth && item !in L[level - 1]
      requires ChainsOk(nodes, head, Levels) && Levels == Added(order, L, item, level, newlevel)
      requires Settled(order, L[level], prev, item)
      requires item in nodes && newlevel <= Height(nodes[item])
      modifies this
      ensures ChainsOk(nodes, head, Levels) && Levels == Added(order, L, item, level - 1, newlevel)
      ensures Settled(order, L[level - 1], p, item)
      ensures item in nodes && Height(nodes[item]) == Height(old(nodes)[item])
      ensures nodes[item].top.Tagged? == old(nodes)[item].top.Tagged?
      ensures count == old(count)
    {
      var next;
      p, next := Walk(prev, item, level - 1);
      LinkLevel(p, item, level - 1, next);
      AddedStep(order, L, item, level - 1, newlevel);
    }

    /** The start of `_add`: zero the item and, above SKIPLIST_EMBED levels, give it a tagged overflow block. */
    method Prepare(item: nat, newlevel: nat)
      requires Valid() && 1 <= newlevel <= MaxDepth
      requires forall l :: 0 <= l < MaxDepth ==> item !in Levels[l]
      modifies this
      ensures Valid() && Levels == old(Levels) && count == old(count)
      ensures item in nodes && nodes[item] == Fresh(newlevel)
    {
      DetachChains(nodes, head, Levels, item, Fresh(newlevel));
      var n := Zero;
      if newlevel > Embed {
        n := n.(top := Tagged(seq(newlevel - Overflow, _ => Null)));
      }
      nodes := nodes[item := n];
    }

    /**
     * The first loop of `_add`: from the top level down to level `newlevel`,
     * move right while the next item sorts before `item`, else go down. It
     * stops at level `newlevel - 1` with `next` the item after `prev` there.
     */
    method Descend(item: nat, newlevel: nat) returns (prev: Place, next: Ptr)
      requires Valid() && 1 <= newlevel <= MaxDepth
      ensures Settled(order, Levels[newlevel - 1], prev, item)
      ensures next == HeadPtr(Levels[newlevel - 1][PosOf(Levels[newlevel - 1], prev)..])
      ensures next == Null || !Below(order, next.id, item)
    {
      var level: nat := MaxDepth;
      prev := HeadItem;
      next := Null;
      while level >= newlevel
        invariant newlevel - 1 <= level <= MaxDepth
        invariant 0 < level ==> Settled(order, Levels[level - 1], prev, item)
        invariant level < newlevel ==> Stopped(order, Levels[level], prev, item, next)
        decreases level, Remaining(Levels, level, prev)
      {
        prev, level, next := DescendTurn(prev, item, level);
      }
    }

    /** One turn of the first loop of `_add`, at level `level - 1`: go down, or move right. */
    method DescendTurn(prev: Place, item: nat, level: nat) returns (p: Place, lv: nat, next: Ptr)
      requires ChainsOk(nodes, head, Levels) && OrderedOk(order, Levels) && NestedOk(Levels)
      requires 0 < level <= MaxDepth && |Levels| == MaxDepth && Settled(order, Levels[level - 1], prev, item)
      ensures lv == level - 1 || (lv == level && Remaining(Levels, lv, p) < Remaining(Levels, level, prev))
      ensures 0 < lv ==> Settled(order, Levels[lv - 1], p, item)
      ensures lv < level ==> Stopped(order, Levels[lv], p, item, next)
    {
      // The turn needs only what StepFacts draws from the invariants.
      hide ChainsOk, OrderedOk, NestedOk;
      ghost var s := Levels[level - 1];
      StepFacts(order, nodes, head, Levels, Levels, level - 1, prev, item);
      ghost var k := PosOf(s, prev);
      p, lv := prev, level - 1;
      next := Read(nodes, head, prev, level - 1);
      if next != Null {
        var cmpval := Cmp(order, next.id, item);
        if cmpval < 0 {
          IndexOfAt(s, k);
          p, lv := Item(next.id), level;
        }
      }
    }

    /** The inner loop of `_add`: follow level `l` from `prev` while the next item sorts before `item`. */
    method Walk(prev: Place, item: nat, l: nat) returns (p: Place, next: Ptr)
      requires ChainsOk(nodes, head, Levels) && l < MaxDepth
      requires Settled(order, Levels[l], prev, item)
      ensures Settled(order, Levels[l], p, item)
      ensures next == HeadPtr(Levels[l][PosOf(Levels[l], p)..])
      ensures next == Null || !Below(order, next.id, item)
    {
      ghost var s := Levels[l];
      assert Linked(LevelMap(nodes, l), LevelGet(head, l), s);
      p := prev;
      Successor(nodes, head, Levels, l, p);
      next := Read(nodes, head, p, l);
      while next != Null && Cmp(order, next.id, item) < 0
        invariant Settled(order, s, p, item)
        invariant next == HeadPtr(s[PosOf(s, p)..])
        decreases |s| - PosOf(s, p)
      {
        ghost var k := PosOf(s, p);
        SliceStep(s, k);
        IndexOfAt(s, k);
        p := Item(next.id);
        Successor(nodes, head, Levels, l, p);
        next := Read(nodes, head, p, l);
      }
    }

    /** The two `sl_level_set` calls of `_add` at level `l`: `item` takes `next`, then `prev` takes `item`. */
    method LinkLevel(prev: Place, item: nat, l: nat, next: Ptr)
      requires ChainsOk(nodes, head, Levels) && l < MaxDepth && Sorted(order, Levels[l])
      requires item in nodes && l < Height(nodes[item]) && item !in Levels[l]
      requires Settled(order, Levels[l], prev, item)
      requires next == HeadPtr(Levels[l][PosOf(Levels[l], prev)..])
      requires next == Null || !Below(order, next.id, item)
      modifies this
      ensures ChainsOk(nodes, head, Levels)
      ensures Levels == old(Levels)[l := Inserted(order, old(Levels)[l], item)]
      ensures item in nodes && Height(nodes[item]) == Height(old(nodes)[item])
      ensures nodes[item].top.Tagged? == old(nodes)[item].top.Tagged?
      ensures count == old(count)
    {
      ghost var s := Levels[l];
      ghost var k := PosOf(s, prev);
      assert Linked(LevelMap(nodes, l), LevelGet(head, l), s);
      SliceStep(s, k);
      StopRank(order, s, prev, item);
      LinkChains(nodes, head, Levels, prev, item, l);
      Store(Item(item), l, next);
      Store(prev, l, Ref(item));
      Levels := Levels[l := s[..k] + [item] + s[k..]];
    }

    /** `_find`: an item that compares equal to `x`, or null when there is none. */
    method Find(x: nat) returns (r: Ptr)
      requires Valid()
      ensures r.Ref? ==> r.id in Levels[0] && Cmp(order, r.id, x) == 0
      ensures r == Null <==> forall y :: y in Levels[0] ==> Cmp(order, y, x) != 0
    {
      var level: nat := MaxDepth;
      var prev := HeadItem;
      while level > 0
        invariant level <= MaxDepth
        invariant 0 < level ==> Settled(order, Levels[level - 1], prev, x)
        invariant level == 0 ==> Settled(order, Levels[0], prev, x)
        invariant level == 0 ==> PosOf(Levels[0], prev) < |Levels[0]| ==> Below(order, x, Levels[0][PosOf(Levels[0], prev)])
        decreases level, Remaining(Levels, level, prev)
      {
        var found;
        prev, level, found := FindTurn(prev, x, level);
        if found.Ref? {
          return found;
        }
      }
      assert Linked(LevelMap(nodes, 0), LevelGet(head, 0), Levels[0]);
      NoneEqual(order, Levels[0], prev, x);
      return Null;
    }

    /** One turn of the loop of `_find`, at level `level - 1`: go down, return the next item when it compares equal to `x`, or move right. */
    method FindTurn(prev: Place, x: nat, level: nat) returns (p: Place, lv: nat, found: Ptr)
      requires ChainsOk(nodes, head, Levels) && OrderedOk(order, Levels) && NestedOk(Levels)
      requires 0 < level <= MaxDepth && |Levels| == MaxDepth && Settled(order, Levels[level - 1], prev, x)
      ensures found.Ref? ==> found.id in Levels[0] && Cmp(order, found.id, x) == 0
      ensures found == Null ==> lv == level - 1 || (lv == level && Remaining(Levels, lv, p) < Remaining(Levels, level, prev))
      ensures found == Null && 0 < lv ==> Settled(order, Levels[lv - 1], p, x)
      ensures found == Null && lv == 0 ==> Settled(order, Levels[0], p, x)
      ensures found == Null && lv == 0 ==> PosOf(Levels[0], p) < |Levels[0]| ==> Below(order, x, Levels[0][PosOf(Levels[0], p)])
    {
      // The turn needs only what StepFacts draws from the invariants.
      hide ChainsOk, OrderedOk, NestedOk;
      ghost var s := Levels[level - 1];
      StepFacts(order, nodes, head, Levels, Levels, level - 1, prev, x);
      ghost var k := PosOf(s, prev);
      p, lv, found := prev, level - 1, Null;
      var next := Read(nodes, head, prev, level - 1);
      if next != Null {
        var cmpval := Cmp(order, next.id, x);
        if cmpval < 0 {
          IndexOfAt(s, k);
          p, lv := Item(next.id), level;
        } else if cmpval == 0 {
          NestedDown(Levels, level - 1, next.id);
          found := next;
        }
      }
    }

    /**
     * `_del`: walk down from the top level, unlinking `item` wherever it is
     * the next item, then zero it, releasing its overflow block when the tag
     * bit is set. Levels from which the walk did not unlink `item` still
     * visit it afterwards.
     */
    method Del(item: nat)
      requires Valid() && item in nodes
      modifies this
      ensures Levels == Deleted(order, old(Levels), item, 0)
      ensures item in nodes && nodes[item] == Zero && count == old(count)
      ensures HeadOk(head) && |Levels| == MaxDepth && OrderedOk(order, Levels)
      ensures forall l :: 0 <= l < MaxDepth && item !in Levels[l] ==> Linked(LevelMap(nodes, l), LevelGet(head, l), Levels[l])
      ensures (forall l :: 0 <= l < MaxDepth ==> item !in Levels[l]) ==> Valid()
      ensures order.tiebreak ==> Valid() && forall l :: 0 <= l < MaxDepth ==> Levels[l] == Remove(old(Levels)[l], item)
    {
      ghost var L := Levels;
      UnlinkAll(item);
      DetachChains(nodes, head, Levels, item, Zero);
      nodes := nodes[item := Zero];
      DeletedOk(order, L, item);
      if order.tiebreak {
        forall l | 0 <= l < MaxDepth
          ensures Distinct(L[l])
        {
          assert Linked(LevelMap(old(nodes), l), LevelGet(old(head), l), L[l]);
        }
        DeletedStrict(order, L, item);
      }
    }

    /** The loop of `_del`. */
    method UnlinkAll(item: nat)
      requires Valid()
      modifies this
      ensures ChainsOk(nodes, head, Levels) && Levels == Deleted(order, old(Levels), item, 0)
      ensures nodes.Keys == old(nodes).Keys && count == old(count)
    {
      ghost var L := Levels;
      var level: nat := MaxDepth;
      var prev := HeadItem;
      DeletedNone(order, L, item);
      while level > 0
        invariant level <= MaxDepth
        invariant ChainsOk(nodes, head, Levels) && Levels == Deleted(order, L, item, level)
        invariant 0 < level ==> Settled(order, L[level - 1], prev, item)
        invariant nodes.Keys == old(nodes).Keys && count == old(count)
        decreases level, Remaining(L, level, prev)
      {
        prev, level := UnlinkTurn(prev, item, level, L);
      }
    }

    /** One turn of the loop of `_del`, at level `level - 1`: go down, unlink `item` and go down, or move right. */
    method UnlinkTurn(prev: Place, item: nat, level: nat, ghost L: seq<seq<nat>>) returns (p: Place, lv: nat)
      requires 0 < level <= MaxDepth && |L| == MaxDepth && OrderedOk(order, L) && NestedOk(L)
      requires ChainsOk(nodes, head, Levels) && Levels == Deleted(order, L, item, level)
      requires Settled(order, L[level - 1], prev, item)
      modifies this
      ensures lv == level - 1 || (lv == level && Remaining(L, lv, p) < Remaining(L, level, prev))
      ensures ChainsOk(nodes, head, Levels) && Levels == Deleted(order, L, item, lv)
      ensures 0 < lv ==> Settled(order, L[lv - 1], p, item)
      ensures nodes.Keys == old(nodes).Keys && count == old(count)
    {
      // The turn needs only what StepFacts and DeletedBelow draw from the invariants.
      hide ChainsOk, OrderedOk, NestedOk, Deleted;
      ghost var s := L[level - 1];
      DeletedBelow(order, L, item, level, level - 1);
      StepFacts(order, nodes, head, Levels, L, level - 1, prev, item);
      ghost var k := PosOf(s, prev);
      p, lv := prev, level - 1;
      var next := Read(nodes, head, prev, level - 1);
      if next == Null {
        StopRank(order, s, prev, item);
        DeletedStep(order, L, item, level - 1);
      } else if next == Ref(item) {
        UnlinkAt(prev, item, level - 1);
        DeletedStep(order, L, item, level - 1);
      } else {
        var cmpval := Cmp(order, next.id, item);
        if cmpval < 0 {
          IndexOfAt(s, k);
          p, lv := Item(next.id), level;
        } else {
          StopRank(order, s, prev, item);
          DeletedStep(order, L, item, level - 1);
        }
      }
    }

    /** `sl_level_set(prev, l, sl_level_get(item, l))`: `item`, the item after `prev`, leaves level `l`. */
    method UnlinkAt(prev: Place, item: nat, l: nat)
      requires ChainsOk(nodes, head, Levels) && l < MaxDepth && Sorted(order, Levels[l])
      requires Settled(order, Levels[l], prev, item)
      requires PosOf(Levels[l], prev) < |Levels[l]| && Levels[l][PosOf(Levels[l], prev)] == item
      modifies this
      ensures ChainsOk(nodes, head, Levels)
      ensures Levels == old(Levels)[l := Unlinked(order, old(Levels)[l], item)]
      ensures nodes.Keys == old(nodes).Keys && count == old(count)
    {
      // UnlinkChains states all that the unlinking needs of the chains.
      hide ChainsOk;
      UnlinkChains(nodes, head, Levels, prev, item, l);
      ghost var s := Levels[l];
      ghost var k := PosOf(s, prev);
      StopRank(order, s, prev, item);
      var after := LevelGet(nodes[item], l);
      Store(prev, l, after);
      Levels := Levels[l := s[..k] + s[k + 1..]];
    }

    /** `_pop`: unlink and return the first item, or null on an empty list. */
    method Pop() returns (r: Ptr)
      requires Valid()
      modifies this
      ensures r == HeadPtr(old(Levels)[0])
      ensures r == Null ==> Valid() && Levels == old(Levels)
      ensures r.Ref? ==> Levels == Deleted(order, old(Levels), r.id, 0) && Levels[0] == old(Levels)[0][1..]
      ensures r.Ref? ==> forall y :: y in old(Levels)[0] ==> !Below(order, y, r.id)
      ensures order.tiebreak ==> Valid()
      ensures count == old(count)
    {
      assert Linked(LevelMap(nodes, 0), LevelGet(head, 0), Levels[0]);
      r := head.low[0];
      if r == Null {
        return;
      }
      assert Levels[0][0] in LevelMap(nodes, 0);
      UnlinkedFirst(order, Levels[0]);
      forall y | y in Levels[0]
        ensures !Below(order, y, r.id)
      {
        var j :| 0 <= j < |Levels[0]| && Levels[0][j] == y;
      }
      Del(r.id);
    }

    /** `_first`: the first item, one that no item sorts before, or null. */
    method First() returns (r: Ptr)
      requires Valid()
      ensures r == HeadPtr(Levels[0])
      ensures r.Ref? ==> forall y :: y in Levels[0] ==> !Below(order, y, r.id)
    {
      assert Linked(LevelMap(nodes, 0), LevelGet(head, 0), Levels[0]);
      r := head.low[0];
      if r.Ref? {
        forall y | y in Levels[0]
          ensures !Below(order, y, r.id)
        {
          var j :| 0 <= j < |Levels[0]| && Levels[0][j] == y;
        }
      }
    }

    /** `_next`: the item after `item` on level 0, or null. */
    method Next(item: nat) returns (r: Ptr)
      requires Valid() && item in Levels[0]
      ensures r == HeadPtr(Levels[0][IndexOf(Levels[0], item) + 1..])
      ensures r.Ref? ==> !Below(order, r.id, item)
    {
      Successor(nodes, head, Levels, 0, Item(item));
      r := nodes[item].low[0];
      if r.Ref? {
        var k := IndexOf(Levels[0], item);
        assert r.id == Levels[0][k + 1];
      }
    }

    /** `_next_safe`: like `_next`, but a null item has a null successor. */
    method NextSafe(item: Ptr) returns (r: Ptr)
      requires Valid() && (item.Ref? ==> item.id in Levels[0])
      ensures item == Null ==> r == Null
      ensures item.Ref? ==> r == HeadPtr(Levels[0][IndexOf(Levels[0], item.id) + 1..])
    {
      if item == Null {
        return Null;
      }
      Successor(nodes, head, Levels, 0, Item(item.id));
      r := nodes[item.id].low[0];
    }

    /** `_count`: the `count` field, which stays as `_init` left it. */
    method Count() returns (n: nat)
      ensures n == count
    {
      n := count;
    }

    /** The number of items, counted along level 0: what `_count` is meant to return. */
    method CountItems() returns (n: nat)
      requires Valid()
      ensures n == |Levels[0]|
    {
      ghost var s := Levels[0];
      assert Linked(LevelMap(nodes, 0), LevelGet(head, 0), s);
      n := 0;
      var p := head.low[0];
      assert s[0..] == s;
      while p != Null
        invariant n <= |s| && p == HeadPtr(s[n..])
        decreases |s| - n
      {
        LinkedAt(LevelMap(nodes, 0), LevelGet(head, 0), s, n);
        p := nodes[p.id].low[0];
        n := n + 1;
      }
    }
  }

  /** `_count` as written: after one `_add` to a fresh list it still answers 0. */
  method CountAfterAdd() returns (n: nat, first: Ptr)
    ensures n == 0 && first == Ref(7)
  {
    var list := new SkipList.Init(Order(k => k, false));
    list.Add(7, 0);
    n := list.Count();
    first := list.First();
  }
}
