/**
 * Value-level description of the typed hash table of lib/typesafe.h and
 * lib/typesafe.c: a table is a sequence of bucket chains, each chain the
 * sequence of items it links.
 *
 * The bucket of a hash value is `hashval & (tabsize - 1)`; table sizes are
 * powers of two, where that equals `hashval % tabsize`, which is what is
 * written here.
 */
module HashSpec {
  import opened Links

  type u32 = x: int | 0 <= x < 0x1_0000_0000

  ghost predicate IsPow2(n: nat)
  {
    n == 1 || (n > 1 && n % 2 == 0 && IsPow2(n / 2))
  }

  /**
   * The smallest power of two strictly above `n`: what setting every bit
   * below the highest set bit and adding one computes.
   */
  function Pow2Above(n: nat): (p: nat)
    ensures p > n && IsPow2(p)
    ensures n > 0 ==> p <= 2 * n
  {
    if n == 0 then 1 else 2 * Pow2Above(n / 2)
  }

  lemma {:induction false} Pow2AboveLeast(n: nat, q: nat)
    requires IsPow2(q) && q > n
    ensures Pow2Above(n) <= q
  {
    if n > 0 {
      assert q > 1;
      Pow2AboveLeast(n / 2, q / 2);
    }
  }

  lemma {:induction false} Pow2AboveOfPow2(t: nat)
    requires IsPow2(t)
    ensures Pow2Above(t) == 2 * t
  {
    if t > 1 {
      Pow2AboveOfPow2(t / 2);
    }
  }

  lemma {:induction false} Pow2AboveBelowHalf(t: nat)
    requires IsPow2(t) && t >= 4
    ensures Pow2Above(t / 2 - 1) == t / 2
  {
    assert IsPow2(t / 2);
    Pow2AboveLeast(t / 2 - 1, t / 2);
  }

  /** The load band every reachable table is in: grow and shrink keep it. */
  ghost predicate LoadBand(tabsize: nat, count: nat)
  {
    if tabsize == 0 then count == 0
    else IsPow2(tabsize) && tabsize < 0x1_0000_0000 && (tabsize - 1) / 2 < count < tabsize
  }

  /**
   * `HASH_GROW_THRESHOLD`: in the load band only a table without buckets is
   * at it.
   */
  predicate GrowThreshold(tabsize: nat, count: nat)
    ensures LoadBand(tabsize, count) ==> (GrowThreshold(tabsize, count) <==> tabsize == 0)
  {
    count >= tabsize
  }

  /**
   * `HASH_SHRINK_THRESHOLD` (the subtraction is on an unsigned 32-bit value):
   * a table with buckets is at it when less than half full; without buckets
   * `tabsize - 1` wraps and every count below 2^31 is at it.
   */
  predicate ShrinkThreshold(tabsize: nat, count: nat)
    ensures 0 < tabsize < 0x1_0000_0000 ==> (ShrinkThreshold(tabsize, count) <==> 2 * count < tabsize)
    ensures tabsize == 0 ==> (ShrinkThreshold(tabsize, count) <==> count < 0x8000_0000)
  {
    count <= ((tabsize - 1) % 0x1_0000_0000) / 2
  }

  /** The size `typesafe_hash_grow` picks, capped at a non-zero `maxsize`. */
  function GrowSize(count: nat, maxsize: nat): (n: nat)
    ensures maxsize == 0 ==> n > count && IsPow2(n)
    ensures maxsize != 0 ==> n <= maxsize
    ensures n == maxsize || (n > count && IsPow2(n))
  {
    var n := Pow2Above(count);
    if maxsize != 0 && n > maxsize then maxsize else n
  }

  /** The size `typesafe_hash_shrink` picks for a non-empty table, raised to a non-zero `minsize`. */
  function ShrinkSize(count: nat, minsize: nat): (n: nat)
    ensures n > count && n >= minsize
    ensures minsize == 0 ==> IsPow2(n) && (count > 0 ==> n <= 2 * count)
    ensures n == minsize || (IsPow2(n) && (count > 0 ==> n <= 2 * count))
  {
    var n := Pow2Above(count);
    if minsize != 0 && n < minsize then minsize else n
  }

  /** Adding an item to a table in the band: the grown table is in the band again. */
  lemma GrowKeepsBand(tabsize: nat, count: nat)
    requires LoadBand(tabsize, count) && count + 1 < 0x8000_0000
    ensures var c := count + 1;
      if tabsize == 0 || GrowThreshold(tabsize, c) then
        GrowSize(c, 0) == (if tabsize == 0 then 2 else 2 * tabsize) && LoadBand(GrowSize(c, 0), c)
      else LoadBand(tabsize, c)
  {
    if tabsize == 0 {
      assert Pow2Above(1) == 2 * Pow2Above(0);
    } else if count + 1 >= tabsize {
      Pow2AboveOfPow2(tabsize);
    }
  }

  /** Removing an item from a table in the band: the shrunk table is in the band again. */
  lemma ShrinkKeepsBand(tabsize: nat, count: nat)
    requires LoadBand(tabsize, count) && count > 0
    ensures var c := count - 1;
      if ShrinkThreshold(tabsize, c) then
        (c == 0 ==> tabsize <= 2) &&
        (c > 0 ==> tabsize >= 4 && ShrinkSize(c, 0) == tabsize / 2 && LoadBand(tabsize / 2, c))
      else LoadBand(tabsize, c)
  {
    var c := count - 1;
    assert (tabsize - 1) % 0x1_0000_0000 == tabsize - 1;
    if ShrinkThreshold(tabsize, c) && c > 0 {
      ShrinkHalves(tabsize, c);
    }
  }

  /** A table of t holding (t - 1) / 2 items after a removal: the shrunk table of t / 2 is in the band. */
  lemma ShrinkHalves(t: nat, c: nat)
    requires IsPow2(t) && t < 0x1_0000_0000 && c > 0 && c == (t - 1) / 2
    ensures t >= 4 && ShrinkSize(c, 0) == t / 2 && LoadBand(t / 2, c)
  {
    assert t >= 4 && c == t / 2 - 1;
    Pow2AboveBelowHalf(t);
    assert IsPow2(t / 2);
  }

  /** All chains, one after the other: the table's iteration order. */
  function Flatten(B: seq<seq<nat>>): seq<nat>
  {
    if B == [] then [] else B[0] + Flatten(B[1..])
  }

  lemma {:induction false} FlattenAppend(A: seq<seq<nat>>, B: seq<seq<nat>>)
    ensures Flatten(A + B) == Flatten(A) + Flatten(B)
  {
    if A != [] {
      assert (A + B)[0] == A[0];
      assert (A + B)[1..] == A[1..] + B;
      FlattenAppend(A[1..], B);
    } else {
      assert A + B == B;
    }
  }

  lemma {:induction false} FlattenMember(B: seq<seq<nat>>, x: nat)
    ensures x in Flatten(B) <==> exists i :: 0 <= i < |B| && x in B[i]
  {
    if B != [] {
      FlattenMember(B[1..], x);
      if x in Flatten(B[1..]) {
        var i :| 0 <= i < |B[1..]| && x in B[1..][i];
        assert x in B[i + 1];
      }
      if exists i :: 0 <= i < |B| && x in B[i] {
        var i :| 0 <= i < |B| && x in B[i];
        if i > 0 {
          assert x in B[1..][i - 1];
        }
      }
    }
  }

  /** The chains at positions `i` and before, split around bucket `b`. */
  lemma {:induction false} FlattenSplit(B: seq<seq<nat>>, b: nat)
    requires b < |B|
    ensures Flatten(B) == Flatten(B[..b]) + B[b] + Flatten(B[b + 1..])
  {
    if b == 0 {
      assert B[..0] == [];
    } else {
      var T := B[1..];
      FlattenSplit(T, b - 1);
      assert B[..b][0] == B[0] && B[..b][1..] == T[..b - 1];
      assert T[b..] == B[b + 1..] && T[b - 1] == B[b];
      calc {
        Flatten(B);
        B[0] + Flatten(T);
        B[0] + (Flatten(T[..b - 1]) + T[b - 1] + Flatten(T[b..]));
        (B[0] + Flatten(T[..b - 1])) + B[b] + Flatten(B[b + 1..]);
        Flatten(B[..b]) + B[b] + Flatten(B[b + 1..]);
      }
    }
  }

  /** Leading empty chains contribute nothing. */
  lemma FlattenSkipEmpty(B: seq<seq<nat>>, i: nat)
    requires i <= |B| && forall j :: 0 <= j < i ==> B[j] == []
    ensures Flatten(B) == Flatten(B[i..])
  {
    assert B == B[..i] + B[i..];
    FlattenAppend(B[..i], B[i..]);
    FlattenEmpty(B[..i]);
  }

  lemma {:induction false} FlattenEmpty(B: seq<seq<nat>>)
    requires forall j :: 0 <= j < |B| ==> B[j] == []
    ensures Flatten(B) == []
  {
    if B != [] {
      FlattenEmpty(B[1..]);
    }
  }

  /** The total number of items of the chains. */
  function TotalLen(B: seq<seq<nat>>): nat
  {
    |Flatten(B)|
  }

  /** No item is on two chains. */
  ghost predicate Disjoint(B: seq<seq<nat>>)
  {
    forall i, j, x :: 0 <= i < |B| && 0 <= j < |B| && i != j && x in B[i] ==> x !in B[j]
  }

  /** Keys of `c` never decrease. */
  ghost predicate SortedBy(hash: nat -> u32, c: seq<nat>)
  {
    forall j, k :: 0 <= j < k < |c| ==> hash(c[j]) <= hash(c[k])
  }

  /**
   * The table invariant that lookups rely on: every item is in the bucket
   * of its hash value, and every chain is ordered by hash value.
   */
  ghost predicate Placed(hash: nat -> u32, B: seq<seq<nat>>)
  {
    (forall i, x :: 0 <= i < |B| && x in B[i] ==> hash(x) % |B| == i) &&
    (forall i :: 0 <= i < |B| ==> SortedBy(hash, B[i]))
  }

  /** Placement alone keeps the chains apart. */
  lemma PlacedDisjoint(hash: nat -> u32, B: seq<seq<nat>>)
    requires Placed(hash, B)
    ensures Disjoint(B)
  {
    forall i, j, x | 0 <= i < |B| && 0 <= j < |B| && i != j && x in B[i]
      ensures x !in B[j]
    {
      assert hash(x) % |B| == i;
    }
  }

  /** No chain visits an item twice. */
  ghost predicate ChainsDistinct(B: seq<seq<nat>>)
  {
    forall i :: 0 <= i < |B| ==> Distinct(B[i])
  }

  /** Chains that are apart and repeat nothing make an iteration order that repeats nothing. */
  lemma {:induction false} FlattenDistinct(B: seq<seq<nat>>)
    requires Disjoint(B) && ChainsDistinct(B)
    ensures Distinct(Flatten(B))
  {
    if B != [] {
      var T := B[1..];
      assert forall i {:trigger T[i]} :: 0 <= i < |T| ==> T[i] == B[i + 1];
      FlattenDistinct(T);
      var F := Flatten(T);
      var c := B[0];
      forall x | x in c
        ensures x !in F
      {
        FlattenMember(T, x);
      }
      var s := c + F;
      forall j, k | 0 <= j < k < |s|
        ensures s[j] != s[k]
      {
        if k < |c| {
          assert s[j] == c[j] && s[k] == c[k];
        } else if j < |c| {
          assert s[j] == c[j] && c[j] in c && s[k] == F[k - |c|];
        } else {
          assert s[j] == F[j - |c|] && s[k] == F[k - |c|];
        }
      }
    }
  }

  /** The items of a table, with multiplicity. */
  ghost function Elems(B: seq<seq<nat>>): multiset<nat>
  {
    multiset(Flatten(B))
  }

  /** Tables whose chains hold the same items, position by position, hold the same items. */
  lemma {:induction false} ElemsPointwise(A: seq<seq<nat>>, C: seq<seq<nat>>, D: seq<seq<nat>>)
    requires |A| == |C| == |D|
    requires forall i :: 0 <= i < |A| ==> multiset(A[i]) == multiset(C[i]) + multiset(D[i])
    ensures Elems(A) == Elems(C) + Elems(D)
  {
    if A != [] {
      assert multiset(A[0]) == multiset(C[0]) + multiset(D[0]);
      ElemsPointwise(A[1..], C[1..], D[1..]);
    }
  }

  /** Replacing one chain replaces its items and no others. */
  lemma ElemsUpdate(B: seq<seq<nat>>, b: nat, c: seq<nat>)
    requires b < |B|
    ensures Elems(B[b := c]) + multiset(B[b]) == Elems(B) + multiset(c)
  {
    var B' := B[b := c];
    FlattenSplit(B, b);
    FlattenSplit(B', b);
    assert B'[..b] == B[..b] && B'[b + 1..] == B[b + 1..];
  }

  /** `c` with `x` linked in before the first entry whose hash value is not below `x`'s. */
  function InsertByHash(hash: nat -> u32, c: seq<nat>, x: nat): (d: seq<nat>)
    ensures |d| == |c| + 1 && multiset(d) == multiset(c) + multiset{x}
  {
    if c == [] || hash(c[0]) >= hash(x) then [x] + c
    else
      assert c == [c[0]] + c[1..];
      [c[0]] + InsertByHash(hash, c[1..], x)
  }

  /** Inserting into a chain ordered by hash value keeps it ordered. */
  lemma {:induction false} InsertByHashSorted(hash: nat -> u32, c: seq<nat>, x: nat)
    requires SortedBy(hash, c)
    ensures SortedBy(hash, InsertByHash(hash, c, x))
  {
    if c != [] && hash(c[0]) < hash(x) {
      InsertByHashSorted(hash, c[1..], x);
      var t := InsertByHash(hash, c[1..], x);
      var d := [c[0]] + t;
      assert InsertByHash(hash, c, x) == d;
      forall j, k | 0 <= j < k < |d|
        ensures hash(d[j]) <= hash(d[k])
      {
        var y := t[k - 1];
        assert d[k] == y;
        if j == 0 {
          InsertByHashAbove(hash, c, x);
          assert y in t;
        } else {
          assert d[j] == t[j - 1];
        }
      }
    }
  }

  /** Past a head whose hash value is below `x`'s, every item of the inserted tail hashes no lower than that head. */
  lemma InsertByHashAbove(hash: nat -> u32, c: seq<nat>, x: nat)
    requires SortedBy(hash, c) && c != [] && hash(c[0]) < hash(x)
    ensures forall y :: y in InsertByHash(hash, c[1..], x) ==> hash(c[0]) <= hash(y)
  {
    var t := InsertByHash(hash, c[1..], x);
    forall y | y in t
      ensures hash(c[0]) <= hash(y)
    {
      assert y in multiset(t);
      if y != x {
        var m :| 0 <= m < |c[1..]| && c[1..][m] == y;
        assert c[m + 1] == y;
      }
    }
  }

  /** The insertion point is the first index whose hash value is not below `x`'s. */
  lemma {:induction false} InsertByHashAt(hash: nat -> u32, c: seq<nat>, x: nat, k: nat)
    requires k <= |c|
    requires forall j :: 0 <= j < k ==> hash(c[j]) < hash(x)
    requires k == |c| || hash(c[k]) >= hash(x)
    ensures InsertByHash(hash, c, x) == c[..k] + [x] + c[k..]
  {
    if k > 0 {
      var t := c[1..];
      assert hash(c[0]) < hash(x);
      assert forall j :: 0 <= j < k - 1 ==> hash(t[j]) < hash(x) by {
        forall j | 0 <= j < k - 1 ensures hash(t[j]) < hash(x) {
          assert t[j] == c[j + 1];
        }
      }
      InsertByHashAt(hash, t, x, k - 1);
      assert InsertByHash(hash, c, x) == [c[0]] + InsertByHash(hash, t, x);
      SplitCons(c, x, k);
    } else {
      assert c[..k] + [x] + c[k..] == [x] + c;
    }
  }

  lemma SplitCons(c: seq<nat>, x: nat, k: nat)
    requires 0 < k <= |c|
    ensures c[..k] + [x] + c[k..] == [c[0]] + (c[1..][..k - 1] + [x] + c[1..][k - 1..])
  {
    var t := c[1..];
    assert t[..k - 1] == c[1..k] && t[k - 1..] == c[k..];
    assert c[..k] == [c[0]] + c[1..k];
  }

  /** Inserting an item into the chain of its own bucket keeps the table placed. */
  lemma PlacedInsert(hash: nat -> u32, B: seq<seq<nat>>, x: nat)
    requires |B| > 0 && Placed(hash, B)
    ensures var b := hash(x) % |B|;
      Placed(hash, B[b := InsertByHash(hash, B[b], x)])
  {
    var b := hash(x) % |B|;
    var c := InsertByHash(hash, B[b], x);
    var B' := B[b := c];
    InsertByHashSorted(hash, B[b], x);
    forall i, y | 0 <= i < |B'| && y in B'[i]
      ensures hash(y) % |B'| == i
    {
      if i == b {
        assert y in multiset(c);
        assert y in multiset(B[b]) || y == x;
      } else {
        assert y in B[i];
      }
    }
    forall i | 0 <= i < |B'|
      ensures SortedBy(hash, B'[i])
    {
      if i != b {
        assert B'[i] == B[i];
      }
    }
  }

  /** Unlinking the entry at position `k` of a chain keeps the table placed. */
  lemma PlacedRemove(hash: nat -> u32, B: seq<seq<nat>>, b: nat, k: nat)
    requires b < |B| && k < |B[b]| && Placed(hash, B)
    ensures Placed(hash, B[b := B[b][..k] + B[b][k + 1..]])
  {
    var c := B[b];
    var d := c[..k] + c[k + 1..];
    assert forall j {:trigger d[j]} :: 0 <= j < |d| ==> d[j] == if j < k then c[j] else c[j + 1];
  }

  /**
   * Where the iteration order goes after the entry at position `m` of
   * chain `b`: the rest of that chain, then the later chains.
   */
  lemma FlattenAfter(B: seq<seq<nat>>, b: nat, m: nat)
    requires b < |B| && m < |B[b]| && Distinct(Flatten(B))
    ensures B[b][m] in Flatten(B)
    ensures var F := Flatten(B);
      F[IndexOf(F, B[b][m]) + 1..] == B[b][m + 1..] + Flatten(B[b + 1..])
  {
    var F := Flatten(B);
    var L := Flatten(B[..b]);
    FlattenSplit(B, b);
    var p := |L| + m;
    assert F[p] == B[b][m];
    var k := IndexOf(F, B[b][m]);
    assert k == p;
    assert F[p + 1..] == B[b][m + 1..] + Flatten(B[b + 1..]);
  }

  /**
   * The lookup of `_find` along one chain: skip the entries of smaller hash
   * value, then among those of equal hash value return the first one the
   * comparison function calls equal.
   */
  function FindChain(hash: nat -> u32, key: nat -> int, c: seq<nat>, h: u32, k: int): (r: Ptr)
    ensures r.Ref? ==> r.id in c && hash(r.id) == h && key(r.id) == k
  {
    if c == [] then Null
    else if hash(c[0]) < h then FindChain(hash, key, c[1..], h, k)
    else ScanEqual(hash, key, c, h, k)
  }

  /** The second loop of `_find`: walk the entries whose hash value is `h`. */
  function ScanEqual(hash: nat -> u32, key: nat -> int, c: seq<nat>, h: u32, k: int): (r: Ptr)
    ensures r.Ref? ==> r.id in c && hash(r.id) == h && key(r.id) == k
  {
    if c == [] || hash(c[0]) != h then Null
    else if key(c[0]) == k then Ref(c[0])
    else ScanEqual(hash, key, c[1..], h, k)
  }

  /** On a chain ordered by hash value the lookup finds every matching entry. */
  lemma {:induction false} FindChainComplete(hash: nat -> u32, key: nat -> int, c: seq<nat>, y: nat)
    requires SortedBy(hash, c) && y in c
    ensures FindChain(hash, key, c, hash(y), key(y)).Ref?
  {
    if hash(c[0]) < hash(y) {
      assert y != c[0];
      assert y in c[1..];
      FindChainComplete(hash, key, c[1..], y);
    } else {
      ScanEqualComplete(hash, key, c, y);
    }
  }

  lemma {:induction false} ScanEqualComplete(hash: nat -> u32, key: nat -> int, c: seq<nat>, y: nat)
    requires SortedBy(hash, c) && y in c && hash(c[0]) >= hash(y)
    ensures ScanEqual(hash, key, c, hash(y), key(y)).Ref?
  {
    var j :| 0 <= j < |c| && c[j] == y;
    assert hash(c[0]) <= hash(c[j]);
    if key(c[0]) != key(y) {
      assert j > 0;
      assert y in c[1..];
      assert c[1..][0] == c[1] && hash(c[1]) <= hash(y);
      ScanEqualComplete(hash, key, c[1..], y);
    }
  }

  /** The lookup returns the first entry of the chain with hash value `h` and key `k`: none before it matches. */
  lemma {:induction false} FindChainFirst(hash: nat -> u32, key: nat -> int, c: seq<nat>, h: u32, k: int)
    ensures var r := FindChain(hash, key, c, h, k);
      r.Ref? ==> forall j :: 0 <= j < IndexOf(c, r.id) ==> hash(c[j]) != h || key(c[j]) != k
    decreases |c|
  {
    var r := FindChain(hash, key, c, h, k);
    if r.Ref? {
      if hash(c[0]) < h {
        FindChainFirst(hash, key, c[1..], h, k);
        FirstAfterHead(hash, key, c, r.id, h, k);
      } else {
        ScanEqualFirst(hash, key, c, h, k);
      }
    }
  }

  lemma {:induction false} ScanEqualFirst(hash: nat -> u32, key: nat -> int, c: seq<nat>, h: u32, k: int)
    ensures var r := ScanEqual(hash, key, c, h, k);
      r.Ref? ==> forall j :: 0 <= j < IndexOf(c, r.id) ==> hash(c[j]) != h || key(c[j]) != k
    decreases |c|
  {
    var r := ScanEqual(hash, key, c, h, k);
    if r.Ref? && key(c[0]) != k {
      ScanEqualFirst(hash, key, c[1..], h, k);
      FirstAfterHead(hash, key, c, r.id, h, k);
    }
  }

  /** A first match in the tail, behind a head that does not match, is a first match in the chain. */
  lemma FirstAfterHead(hash: nat -> u32, key: nat -> int, c: seq<nat>, x: nat, h: u32, k: int)
    requires c != [] && x in c[1..] && hash(x) == h && key(x) == k && (hash(c[0]) != h || key(c[0]) != k)
    requires forall j :: 0 <= j < IndexOf(c[1..], x) ==> hash(c[1..][j]) != h || key(c[1..][j]) != k
    ensures forall j :: 0 <= j < IndexOf(c, x) ==> hash(c[j]) != h || key(c[j]) != k
  {
    assert c[0] != x;
    assert IndexOf(c, x) == 1 + IndexOf(c[1..], x);
    forall j | 1 <= j < IndexOf(c, x)
      ensures hash(c[j]) != h || key(c[j]) != k
    {
      assert c[j] == c[1..][j - 1];
    }
  }

  /** On a placed table the lookup in the item's own bucket finds every matching item. */
  lemma FindComplete(hash: nat -> u32, key: nat -> int, B: seq<seq<nat>>, y: nat, i: nat)
    requires Placed(hash, B) && i < |B| && y in B[i]
    ensures FindChain(hash, key, B[hash(y) % |B|], hash(y), key(y)).Ref?
  {
    FindChainComplete(hash, key, B[i], y);
  }

  // ---------------------------------------------------------------------
  // Growing: each bucket i of a table of size n splits into buckets i and
  // i + n of the table of size 2n.

  /** The index of the first item of `c` whose new bucket is `j` or above. */
  function CutIndex(hash: nat -> u32, c: seq<nat>, newsize: nat, j: nat): (k: nat)
    requires newsize > 0
    ensures k <= |c|
  {
    if c == [] || hash(c[0]) % newsize >= j then 0
    else 1 + CutIndex(hash, c[1..], newsize, j)
  }

  /** The cut falls before the first item whose bucket in the new table is j or above. */
  lemma {:induction false} CutIndexFirst(hash: nat -> u32, c: seq<nat>, newsize: nat, j: nat)
    requires newsize > 0
    ensures var k := CutIndex(hash, c, newsize, j);
      (forall m :: 0 <= m < k ==> hash(c[m]) % newsize < j) &&
      (k < |c| ==> hash(c[k]) % newsize >= j)
    decreases |c|
  {
    if c != [] && hash(c[0]) % newsize < j {
      CutIndexFirst(hash, c[1..], newsize, j);
      assert forall m :: 1 <= m < |c| ==> c[m] == c[1..][m - 1];
    }
  }

  /**
   * `typesafe_hash_grow` as written, for a table that doubles: bucket i
   * keeps the items before the first one that belongs to bucket i + n, and
   * bucket i + n receives that item and every item after it.
   */
  function GrowAsWrittenSpec(hash: nat -> u32, B: seq<seq<nat>>): (G: seq<seq<nat>>)
    ensures |G| == 2 * |B|
  {
    var n := |B|;
    seq(n, i requires 0 <= i < n => B[i][..CutIndex(hash, B[i], 2 * n, i + n)]) +
    seq(n, i requires 0 <= i < n => B[i][CutIndex(hash, B[i], 2 * n, i + n)..])
  }

  /**
   * Bucket i of the grown table keeps the items of old bucket i before the
   * cut, and bucket i + n receives the cut item and all after it.
   */
  lemma GrowAsWrittenBuckets(hash: nat -> u32, B: seq<seq<nat>>, i: nat)
    requires i < |B|
    ensures var k := CutIndex(hash, B[i], 2 * |B|, i + |B|);
      var G := GrowAsWrittenSpec(hash, B);
      G[i] == B[i][..k] && G[i + |B|] == B[i][k..]
  {
  }

  /** The items of `c` whose bucket in a table of `size` is `r`, in chain order. */
  function Keep(hash: nat -> u32, c: seq<nat>, size: nat, r: nat): (d: seq<nat>)
    requires size > 0
    ensures |d| <= |c|
    ensures forall x {:trigger x in d} :: x in d <==> x in c && hash(x) % size == r
  {
    if c == [] then []
    else
      var rest := Keep(hash, c[1..], size, r);
      assert forall x :: x in c <==> x == c[0] || x in c[1..];
      if hash(c[0]) % size == r then [c[0]] + rest else rest
  }

  lemma {:induction false} KeepSorted(hash: nat -> u32, c: seq<nat>, size: nat, r: nat)
    requires size > 0 && SortedBy(hash, c)
    ensures SortedBy(hash, Keep(hash, c, size, r))
  {
    if c != [] {
      SortedHeadLeast(hash, c);
      KeepSorted(hash, c[1..], size, r);
      if hash(c[0]) % size == r {
        SortedCons(hash, c[0], Keep(hash, c[1..], size, r));
      }
    }
  }

  /** The head of a chain ordered by hash value has the least hash value; the rest is ordered too. */
  lemma SortedHeadLeast(hash: nat -> u32, c: seq<nat>)
    requires SortedBy(hash, c) && c != []
    ensures SortedBy(hash, c[1..])
    ensures forall y :: y in c[1..] ==> hash(c[0]) <= hash(y)
  {
    forall y | y in c[1..]
      ensures hash(c[0]) <= hash(y)
    {
      var m :| 0 <= m < |c[1..]| && c[1..][m] == y;
      assert c[m + 1] == y;
    }
  }

  /** An item whose hash value is at most every hash value of an ordered chain can go in front of it. */
  lemma SortedCons(hash: nat -> u32, x: nat, s: seq<nat>)
    requires SortedBy(hash, s) && forall y :: y in s ==> hash(x) <= hash(y)
    ensures SortedBy(hash, [x] + s)
  {
    forall j, k | 0 <= j < k < |[x] + s|
      ensures hash(([x] + s)[j]) <= hash(([x] + s)[k])
    {
      assert ([x] + s)[k] == s[k - 1];
      if j > 0 {
        assert ([x] + s)[j] == s[j - 1];
      }
    }
  }

  /** Splitting a chain whose items all belong to bucket `r1` or `r2` loses and gains nothing. */
  lemma {:induction false} KeepSplit(hash: nat -> u32, c: seq<nat>, size: nat, r1: nat, r2: nat)
    requires size > 0 && r1 != r2
    requires forall x :: x in c ==> hash(x) % size == r1 || hash(x) % size == r2
    ensures multiset(Keep(hash, c, size, r1)) + multiset(Keep(hash, c, size, r2)) == multiset(c)
  {
    // KeepCons states the one unfolding of Keep this needs.
    hide Keep;
    if c != [] {
      var t := c[1..];
      assert forall x {:trigger x in t} :: x in t ==> x in c;
      KeepSplit(hash, t, size, r1, r2);
      assert c == [c[0]] + t;
      assert multiset(c) == multiset{c[0]} + multiset(t);
      var h1 := if hash(c[0]) % size == r1 then [c[0]] else [];
      var h2 := if hash(c[0]) % size == r2 then [c[0]] else [];
      assert multiset(h1) + multiset(h2) == multiset{c[0]} by {
        assert c[0] in c;
      }
      KeepCons(hash, c, size, r1);
      KeepCons(hash, c, size, r2);
      assert multiset(Keep(hash, c, size, r1)) == multiset(h1) + multiset(Keep(hash, t, size, r1));
      assert multiset(Keep(hash, c, size, r2)) == multiset(h2) + multiset(Keep(hash, t, size, r2));
    }
  }

  lemma KeepCons(hash: nat -> u32, c: seq<nat>, size: nat, r: nat)
    requires size > 0 && c != []
    ensures Keep(hash, c, size, r) ==
      (if hash(c[0]) % size == r then [c[0]] else []) + Keep(hash, c[1..], size, r)
  {
  }

  /** Keeping the items of `s + [x]` keeps those of `s`, then `x` if it is in bucket r. */
  lemma {:induction false} KeepSnoc(hash: nat -> u32, s: seq<nat>, size: nat, r: nat, x: nat)
    requires size > 0
    ensures Keep(hash, s + [x], size, r) == Keep(hash, s, size, r) + (if hash(x) % size == r then [x] else [])
  {
    if s == [] {
      assert [] + [x] == [x] && [x][1..] == [];
    } else {
      assert (s + [x])[0] == s[0] && (s + [x])[1..] == s[1..] + [x];
      KeepSnoc(hash, s[1..], size, r, x);
    }
  }

  /** Keep on the first k items of `c`, from Keep on the first k - 1. */
  lemma KeepStep(hash: nat -> u32, c: seq<nat>, m: nat, r: nat, k: nat)
    requires m > 0 && 0 < k <= |c|
    ensures Keep(hash, c[..k], m, r) ==
      Keep(hash, c[..k - 1], m, r) + (if hash(c[k - 1]) % m == r then [c[k - 1]] else [])
  {
    assert c[..k] == c[..k - 1] + [c[k - 1]];
    KeepSnoc(hash, c[..k - 1], m, r, c[k - 1]);
  }

  lemma ModDouble(h: nat, n: nat)
    requires n > 0
    ensures h % (2 * n) == h % n || h % (2 * n) == h % n + n
  {
    var m := n + n;
    var q, r := h / m, h % m;
    DivMod(h, m);
    ModDoubleFrom(h, n, m, q, r);
  }

  lemma DivMod(h: nat, m: nat)
    requires m > 0
    ensures h == m * (h / m) + h % m && h % m < m
  {
  }

  lemma ModDoubleFrom(h: nat, n: nat, m: nat, q: nat, r: nat)
    requires n > 0 && m == n + n && r < m && h == m * q + r
    ensures h % n == if r < n then r else r - n
  {
    var k := q + q;
    assert m * q == (n + n) * q == n * q + n * q;
    assert n * k == n * q + n * q;
    if r < n {
      ModUnique(h, n, k, r);
    } else {
      assert n * (k + 1) == n * k + n;
      ModUnique(h, n, k + 1, r - n);
    }
  }

  lemma MulAtLeast(n: nat, a: nat)
    requires a >= 1
    ensures n * a >= n
  {
  }

  lemma {:induction false} ModUnique(h: nat, n: nat, q: nat, r: nat)
    requires n > 0 && r < n && h == n * q + r
    ensures h % n == r
  {
    var d, m := h / n, h % n;
    assert n * q + r == n * d + m;
    if q > d {
      MulAtLeast(n, q - d);
    } else if q < d {
      MulAtLeast(n, d - q);
    }
  }

  /**
   * Growing done right: old bucket i splits into buckets i and i + n of the
   * doubled table, each keeping the items whose hash value selects it, in
   * chain order.
   */
  function GrowSpec(hash: nat -> u32, B: seq<seq<nat>>): (G: seq<seq<nat>>)
    requires |B| > 0
    ensures |G| == 2 * |B|
    ensures forall i {:trigger G[i]} :: 0 <= i < |B| ==> G[i] == Keep(hash, B[i], 2 * |B|, i)
    ensures forall i {:trigger G[i]} :: |B| <= i < 2 * |B| ==> G[i] == Keep(hash, B[i - |B|], 2 * |B|, i)
  {
    var n := |B|;
    var low := seq(n, i requires 0 <= i < n => Keep(hash, B[i], 2 * n, i));
    var high := seq(n, i requires 0 <= i < n => Keep(hash, B[i], 2 * n, i + n));
    low + high
  }

  /** The grown table is placed again. */
  lemma GrowSpecPlaced(hash: nat -> u32, B: seq<seq<nat>>)
    requires |B| > 0 && Placed(hash, B)
    ensures Placed(hash, GrowSpec(hash, B))
  {
    var G := GrowSpec(hash, B);
    var n := |B|;
    forall j | 0 <= j < |G|
      ensures SortedBy(hash, G[j])
    {
      if j < n {
        KeepSorted(hash, B[j], 2 * n, j);
      } else {
        assert G[(j - n) + n] == Keep(hash, B[j - n], 2 * n, j);
        KeepSorted(hash, B[j - n], 2 * n, j);
      }
    }
  }

  /** A chain of bucket i of a table of n splits into buckets i and i + n of a table of 2n. */
  lemma KeepBucket(hash: nat -> u32, c: seq<nat>, n: nat, i: nat)
    requires i < n && forall x :: x in c ==> hash(x) % n == i
    ensures multiset(Keep(hash, c, 2 * n, i)) + multiset(Keep(hash, c, 2 * n, i + n)) == multiset(c)
  {
    forall x | x in c
      ensures hash(x) % (2 * n) == i || hash(x) % (2 * n) == i + n
    {
      ModDouble(hash(x), n);
    }
    KeepSplit(hash, c, 2 * n, i, i + n);
  }

  /** Growing loses and gains no item. */
  lemma GrowSpecElems(hash: nat -> u32, B: seq<seq<nat>>)
    requires |B| > 0 && Placed(hash, B)
    ensures Elems(GrowSpec(hash, B)) == Elems(B)
  {
    var n := |B|;
    var G := GrowSpec(hash, B);
    var G1, G2 := G[..n], G[n..];
    assert G == G1 + G2;
    FlattenAppend(G1, G2);
    assert Elems(G) == Elems(G1) + Elems(G2);
    forall i | 0 <= i < n
      ensures multiset(B[i]) == multiset(G1[i]) + multiset(G2[i])
    {
      GrowBucketElems(hash, B, i);
      assert G1[i] == G[i] && G2[i] == G[i + n];
    }
    ElemsPointwise(B, G1, G2);
  }

  /** Bucket i of a placed table splits into buckets i and i + n of the grown table. */
  lemma GrowBucketElems(hash: nat -> u32, B: seq<seq<nat>>, i: nat)
    requires i < |B| && Placed(hash, B)
    ensures multiset(B[i]) == multiset(GrowSpec(hash, B)[i]) + multiset(GrowSpec(hash, B)[i + |B|])
  {
    assert forall x :: x in B[i] ==> hash(x) % |B| == i;
    KeepBucket(hash, B[i], |B|, i);
  }

  // ---------------------------------------------------------------------
  // Shrinking: buckets i and i + n of a table of size 2n join in bucket i.

  /**
   * `typesafe_hash_shrink` as written, for a table that halves: the chain
   * of bucket i + n is appended to the chain of bucket i.
   */
  function ShrinkAsWrittenSpec(B: seq<seq<nat>>, n: nat): (S: seq<seq<nat>>)
    requires |B| == 2 * n
    ensures |S| == n
    ensures forall i {:trigger S[i]} :: 0 <= i < n ==> S[i] == B[i] + B[i + n]
  {
    seq(n, i requires 0 <= i < n => B[i] + B[i + n])
  }

  /** The stable merge of two chains ordered by hash value. */
  function Merge(hash: nat -> u32, a: seq<nat>, b: seq<nat>): (m: seq<nat>)
    ensures |m| == |a| + |b|
    decreases |a| + |b|
  {
    if a == [] then b
    else if b == [] then a
    else if hash(a[0]) <= hash(b[0]) then [a[0]] + Merge(hash, a[1..], b)
    else [b[0]] + Merge(hash, a, b[1..])
  }

  /** The merge holds the items of both chains, and no others. */
  lemma {:induction false} MergeMultiset(hash: nat -> u32, a: seq<nat>, b: seq<nat>)
    ensures multiset(Merge(hash, a, b)) == multiset(a) + multiset(b)
    decreases |a| + |b|
  {
    if a != [] && b != [] {
      if hash(a[0]) <= hash(b[0]) {
        MergeMultiset(hash, a[1..], b);
        ConsMultiset(a[0], a[1..], Merge(hash, a[1..], b));
        assert a == [a[0]] + a[1..];
      } else {
        MergeMultiset(hash, a, b[1..]);
        ConsMultiset(b[0], b[1..], Merge(hash, a, b[1..]));
        assert b == [b[0]] + b[1..];
      }
    }
  }

  lemma ConsMultiset(x: nat, s: seq<nat>, t: seq<nat>)
    ensures multiset([x] + s) == multiset{x} + multiset(s)
    ensures multiset([x] + t) == multiset{x} + multiset(t)
  {
  }

  lemma {:induction false} MergeSorted(hash: nat -> u32, a: seq<nat>, b: seq<nat>)
    requires SortedBy(hash, a) && SortedBy(hash, b)
    ensures SortedBy(hash, Merge(hash, a, b))
    decreases |a| + |b|
  {
    if a != [] && b != [] {
      SortedHeadLeast(hash, a);
      SortedHeadLeast(hash, b);
      if hash(a[0]) <= hash(b[0]) {
        MergeSorted(hash, a[1..], b);
        MergeHead(hash, a[1..], b, hash(a[0]));
        SortedCons(hash, a[0], Merge(hash, a[1..], b));
      } else {
        MergeSorted(hash, a, b[1..]);
        MergeHead(hash, a, b[1..], hash(b[0]));
        SortedCons(hash, b[0], Merge(hash, a, b[1..]));
      }
    }
  }

  /** A lower bound for both chains is a lower bound for the merge. */
  lemma MergeHead(hash: nat -> u32, a: seq<nat>, b: seq<nat>, h: int)
    requires SortedBy(hash, a) && SortedBy(hash, b)
    requires a != [] ==> h <= hash(a[0])
    requires b != [] ==> h <= hash(b[0])
    ensures forall x :: x in Merge(hash, a, b) ==> h <= hash(x)
  {
    forall x | x in Merge(hash, a, b)
      ensures h <= hash(x)
    {
      MergeMultiset(hash, a, b);
      assert x in multiset(Merge(hash, a, b));
      assert x in multiset(a) || x in multiset(b);
      if x in a {
        var m :| 0 <= m < |a| && a[m] == x;
        assert hash(a[0]) <= hash(a[m]);
      } else {
        var m :| 0 <= m < |b| && b[m] == x;
        assert hash(b[0]) <= hash(b[m]);
      }
    }
  }

  /** Shrinking done right: the two chains are merged by hash value. */
  function ShrinkSpec(hash: nat -> u32, B: seq<seq<nat>>, n: nat): (S: seq<seq<nat>>)
    requires |B| == 2 * n
    ensures |S| == n
    ensures forall i {:trigger S[i]} :: 0 <= i < n ==> S[i] == Merge(hash, B[i], B[i + n])
  {
    seq(n, i requires 0 <= i < n => Merge(hash, B[i], B[i + n]))
  }

  lemma ModHalf(h: nat, n: nat, i: nat)
    requires n > 0 && i < n && (h % (2 * n) == i || h % (2 * n) == i + n)
    ensures h % n == i
  {
    ModDouble(h, n);
  }

  /** The shrunk table is placed again. */
  lemma ShrinkSpecPlaced(hash: nat -> u32, B: seq<seq<nat>>, n: nat)
    requires n > 0 && |B| == 2 * n && Placed(hash, B)
    ensures Placed(hash, ShrinkSpec(hash, B, n))
  {
    var S := ShrinkSpec(hash, B, n);
    forall i, x | 0 <= i < n && x in S[i]
      ensures hash(x) % n == i
    {
      MergeMultiset(hash, B[i], B[i + n]);
      assert x in multiset(S[i]);
      assert x in B[i] || x in B[i + n];
      ModHalf(hash(x), n, i);
    }
    forall i | 0 <= i < n
      ensures SortedBy(hash, S[i])
    {
      MergeSorted(hash, B[i], B[i + n]);
    }
  }

  /** Shrinking loses and gains no item. */
  lemma ShrinkSpecElems(hash: nat -> u32, B: seq<seq<nat>>, n: nat)
    requires |B| == 2 * n
    ensures Elems(ShrinkSpec(hash, B, n)) == Elems(B)
  {
    var B1, B2 := B[..n], B[n..];
    assert B == B1 + B2;
    FlattenAppend(B1, B2);
    forall i | 0 <= i < n
      ensures multiset(ShrinkSpec(hash, B, n)[i]) == multiset(B1[i]) + multiset(B2[i])
    {
      MergeMultiset(hash, B[i], B[i + n]);
    }
    ElemsPointwise(ShrinkSpec(hash, B, n), B1, B2);
  }

  // ---------------------------------------------------------------------
  // What the written grow and shrink do to a placed table.

  /** A hash function that is the identity on 32-bit values. */
  function Low32(x: nat): u32
  {
    x % 0x1_0000_0000
  }

  /**
   * Growing a placed table as written can leave an item outside its bucket:
   * hash values 5 and 9 share bucket 1 of a table of 4, and both end up in
   * bucket 5 of the table of 8, where a lookup of 9 (bucket 1) misses it.
   */
  lemma GrowAsWrittenMisplaces()
    ensures var B: seq<seq<nat>> := [[], [5, 9], [], []];
      var hash := Low32;
      var G := GrowAsWrittenSpec(hash, B);
      Placed(hash, B) && G[5] == [5, 9] && G[1] == [] &&
      !Placed(hash, G) && FindChain(hash, Low32, G[9 % 8], 9, 9) == Null
  {
    GrowExamplePlaced();
    assert CutIndex(Low32, [5, 9], 8, 5) == 0;
    GrowAsWrittenBuckets(Low32, [[], [5, 9], [], []], 1);
    var G := GrowAsWrittenSpec(Low32, [[], [5, 9], [], []]);
    assert G[5][1] == 9;
  }

  /** The table before the grow of the example above is placed. */
  lemma GrowExamplePlaced()
    ensures Placed(Low32, [[], [5, 9], [], []])
  {
    var B: seq<seq<nat>> := [[], [5, 9], [], []];
    assert Low32(5) == 5 && Low32(9) == 9;
    forall i, x | 0 <= i < 4 && x in B[i]
      ensures Low32(x) % 4 == i
    {
      assert i == 1 && (x == 5 || x == 9);
    }
    forall i | 0 <= i < 4
      ensures SortedBy(Low32, B[i])
    {
    }
  }

  /**
   * Shrinking a placed table as written can break the hash order of a
   * chain: hash values 8 and 4 (buckets 0 and 4 of a table of 8) are
   * joined as [8, 4] in bucket 0 of the table of 4, and a lookup of 4 stops
   * at 8 and misses it.
   */
  lemma ShrinkAsWrittenUnsorts()
    ensures var B: seq<seq<nat>> := [[8], [], [], [], [4], [], [], []];
      var hash := Low32;
      var S := ShrinkAsWrittenSpec(B, 4);
      Placed(hash, B) && S[0] == [8, 4] &&
      !Placed(hash, S) && FindChain(hash, Low32, S[4 % 4], 4, 4) == Null
  {
    ShrinkExamplePlaced();
    var S := ShrinkAsWrittenSpec([[8], [], [], [], [4], [], [], []], 4);
    assert S[0] == [8] + [4];
    assert S[0][0] == 8 && S[0][1] == 4;
    assert !SortedBy(Low32, S[0]) by {
      assert Low32(S[0][0]) > Low32(S[0][1]);
    }
    assert ScanEqual(Low32, Low32, S[0], 4, 4) == Null;
  }

  /** The table before the shrink of the example above is placed. */
  lemma ShrinkExamplePlaced()
    ensures Placed(Low32, [[8], [], [], [], [4], [], [], []])
  {
    var B: seq<seq<nat>> := [[8], [], [], [], [4], [], [], []];
    forall i, x | 0 <= i < 8 && x in B[i]
      ensures Low32(x) % 8 == i
    {
      assert (i == 0 && x == 8) || (i == 4 && x == 4);
    }
    forall i | 0 <= i < 8
      ensures SortedBy(Low32, B[i])
    {
    }
  }
}
