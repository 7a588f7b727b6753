/**
 * Northbound schema validation and configuration transactions (lib/northbound.c).
 *
 * A YANG schema node is reduced to the attributes the validators look at.
 * Configuration callbacks are code outside this model: what each one returns
 * is part of the change it runs for.
 */
module Northbound {

  type byte = x: int | 0 <= x < 256

  /** A byte of a C string before its terminating NUL. */
  type cchar = x: int | 1 <= x < 256 witness 1
  /** `uint32_t` */
  type u32 = x: int | 0 <= x < 0x1_0000_0000

  /** The libyang node types the validators distinguish. */
  datatype NodeKind =
    | Container | Choice | Leaf | LeafList | List | AnyXml | Case
    | Notification | Rpc | Input | Output | Action | AnyData

  /**
   * The parts of a schema node that `nb_operation_is_valid` reads: the
   * config-writable and config-readable flags, the user-ordered and
   * mandatory flags, whether a leaf has a default, is a list key or has the
   * `empty` type, whether a container is a presence container, and whether
   * the parent is a `case`.
   */
  datatype SchemaNode = SchemaNode(
    kind: NodeKind,
    configW: bool,
    configR: bool,
    userOrdered: bool,
    mandatory: bool,
    hasDefault: bool,
    isKey: bool,
    emptyType: bool,
    presence: bool,
    parentIsCase: bool)

  datatype Operation =
    | Create | Modify | Delete | Move | ApplyFinish
    | GetElem | GetNext | GetKeys | LookupEntry | RpcOp

  datatype Event = Prepare | Abort | Apply

  /** Northbound error codes */
  const NB_OK := 0
  const NB_ERR := 1

  /** Whether the northbound callback for `op` makes sense on node `n`. */
  function OperationIsValid(op: Operation, n: SchemaNode): (valid: bool)
    ensures op == Create ==>
      (valid <==> (n.configW &&
        ((n.kind == Leaf && n.emptyType) || (n.kind == Container && n.presence) ||
         n.kind == List || n.kind == LeafList)))
    ensures op == Modify ==>
      (valid <==> n.configW && n.kind == Leaf && !n.emptyType && !n.isKey)
    ensures op == Delete ==>
      (valid <==> (n.configW &&
        ((n.kind == Leaf && (n.parentIsCase || (!n.mandatory && !n.hasDefault && !n.isKey))) ||
         (n.kind == Container && n.presence) || n.kind == List || n.kind == LeafList)))
    ensures op == Move ==>
      (valid <==> n.configW && (n.kind == List || n.kind == LeafList) && n.userOrdered)
    ensures op == ApplyFinish ==> (valid <==> n.configW)
    ensures op == GetElem ==>
      (valid <==> n.configR && (n.kind == Leaf || (n.kind == Container && n.presence)))
    ensures op == GetNext || op == GetKeys ==> (valid <==> n.configR && n.kind == List)
    ensures op == LookupEntry ==> (valid <==> n.kind == List)
    ensures op == RpcOp ==>
      (valid <==> !n.configW && !n.configR && (n.kind == Rpc || n.kind == Action))
  {
    match op
    case Create =>
      if !n.configW then false
      else (match n.kind
            case Leaf => n.emptyType
            case Container => n.presence
            case List => true
            case LeafList => true
            case _ => false)
    case Modify =>
      if !n.configW then false
      else (match n.kind
            case Leaf => !n.emptyType && !n.isKey
            case _ => false)
    case Delete =>
      if !n.configW then false
      else (match n.kind
            case Leaf =>
              if n.parentIsCase then true
              else if n.mandatory || n.hasDefault then false
              else !n.isKey
            case Container => n.presence
            case List => true
            case LeafList => true
            case _ => false)
    case Move =>
      if !n.configW then false
      else (match n.kind
            case List => n.userOrdered
            case LeafList => n.userOrdered
            case _ => false)
    case ApplyFinish => n.configW
    case GetElem =>
      if !n.configR then false
      else (match n.kind
            case Leaf => true
            case Container => n.presence
            case _ => false)
    case GetNext => n.configR && n.kind == List
    case GetKeys => n.configR && n.kind == List
    case LookupEntry => n.kind == List
    case RpcOp =>
      if n.configW || n.configR then false
      else n.kind == Rpc || n.kind == Action
  }

  /** A leaf never accepts both a `create` and a `modify` callback. */
  lemma CreateModifyExclusive(n: SchemaNode)
    requires n.kind == Leaf
    ensures !(OperationIsValid(Create, n) && OperationIsValid(Modify, n))
  {
  }

  /** The two diagnostics `nb_option_validate_cb` can log. */
  datatype Diagnostic = UnneededCallback | MissingCallback

  /**
   * `nb_option_validate_cb`: 1 (an error) exactly when a required callback is
   * missing; an implemented callback the node does not need is only logged.
   */
  function OptionValidateCb(n: SchemaNode, op: Operation, implemented: bool, optional: bool)
    : (result: (int, seq<Diagnostic>))
    ensures result.0 == 1 <==> OperationIsValid(op, n) && !implemented && !optional
    ensures result.0 == 0 || result.0 == 1
    ensures UnneededCallback in result.1 <==> !OperationIsValid(op, n) && implemented
    ensures MissingCallback in result.1 <==> result.0 == 1
  {
    var valid := OperationIsValid(op, n);
    var log := if !valid && implemented then [UnneededCallback] else [];
    if !optional && valid && !implemented then (1, log + [MissingCallback])
    else (0, log)
  }

  /**
   * `strcmp` on C strings (the bytes before the terminating NUL), as a sign:
   * the first differing byte decides, and a proper prefix is smaller.
   */
  function Strcmp(a: seq<cchar>, b: seq<cchar>): (r: int)
    ensures -1 <= r <= 1
  {
    if a == [] && b == [] then 0
    else if a == [] then -1
    else if b == [] then 1
    else if a[0] < b[0] then -1
    else if a[0] > b[0] then 1
    else Strcmp(a[1..], b[1..])
  }

  lemma {:induction false} StrcmpAntisymmetric(a: seq<cchar>, b: seq<cchar>)
    ensures Strcmp(a, b) == -Strcmp(b, a)
    decreases |a|
  {
    if a != [] && b != [] && a[0] == b[0] {
      StrcmpAntisymmetric(a[1..], b[1..]);
    }
  }

  lemma {:induction false} StrcmpZero(a: seq<cchar>, b: seq<cchar>)
    ensures Strcmp(a, b) == 0 <==> a == b
    decreases |a|
  {
    if a != [] && b != [] && a[0] == b[0] {
      StrcmpZero(a[1..], b[1..]);
      if a[1..] == b[1..] {
        assert a == [a[0]] + a[1..] && b == [b[0]] + b[1..];
      }
    }
  }

  lemma {:induction false} StrcmpTransitive(a: seq<cchar>, b: seq<cchar>, c: seq<cchar>)
    requires Strcmp(a, b) < 0 && Strcmp(b, c) < 0
    ensures Strcmp(a, c) < 0
    decreases |a|
  {
    if a != [] && b != [] && c != [] && a[0] == b[0] && b[0] == c[0] {
      StrcmpTransitive(a[1..], b[1..], c[1..]);
    }
  }

  /** A proper prefix sorts first. */
  lemma {:induction false} StrcmpPrefix(a: seq<cchar>, b: seq<cchar>)
    requires |a| < |b| && a == b[..|a|]
    ensures Strcmp(a, b) < 0
    decreases |a|
  {
    if a != [] {
      assert a[0] == b[0];
      assert a[1..] == b[1..][..|a| - 1];
      StrcmpPrefix(a[1..], b[1..]);
    }
  }

  /**
   * A configuration change of a transaction: the operation, the priority of
   * the node's callbacks, the data node's path, what the node's callback for
   * `operation` returns, the node's `apply_finish` callback (0 for none), and
   * whether its PREPARE succeeded.
   */
  datatype Change = Change(
    operation: Operation,
    priority: u32,
    xpath: seq<cchar>,
    cbResult: int,
    applyFinish: nat,
    prepareOk: bool)

  /** `nb_config_change_compare`: by priority, then by path. */
  function ChangeCompare(a: Change, b: Change): (r: int)
    ensures -1 <= r <= 1
    ensures a.priority < b.priority ==> r < 0
    ensures a.priority > b.priority ==> r > 0
  {
    if a.priority < b.priority then -1
    else if a.priority > b.priority then 1
    else Strcmp(a.xpath, b.xpath)
  }

  lemma ChangeCompareAntisymmetric(a: Change, b: Change)
    ensures ChangeCompare(a, b) == -ChangeCompare(b, a)
  {
    StrcmpAntisymmetric(a.xpath, b.xpath);
  }

  /** Two changes compare equal exactly when priority and path agree. */
  lemma ChangeCompareZero(a: Change, b: Change)
    ensures ChangeCompare(a, b) == 0 <==> a.priority == b.priority && a.xpath == b.xpath
  {
    StrcmpZero(a.xpath, b.xpath);
  }

  lemma ChangeCompareTransitive(a: Change, b: Change, c: Change)
    requires ChangeCompare(a, b) < 0 && ChangeCompare(b, c) < 0
    ensures ChangeCompare(a, c) < 0
  {
    if a.priority == b.priority == c.priority {
      StrcmpTransitive(a.xpath, b.xpath, c.xpath);
    }
  }

  /** At equal priority a parent node (a path prefix) sorts before its descendants. */
  lemma ChangeCompareParentFirst(a: Change, b: Change)
    requires a.priority == b.priority
    requires |a.xpath| < |b.xpath| && a.xpath == b.xpath[..|a.xpath|]
    ensures ChangeCompare(a, b) < 0
  {
    StrcmpPrefix(a.xpath, b.xpath);
  }

  /** `nb_callback`: the node's callback for the four editing operations, an error otherwise. */
  function Callback(c: Change): (r: int)
    ensures c.operation !in {Create, Modify, Delete, Move} ==> r == NB_ERR
    ensures c.operation in {Create, Modify, Delete, Move} ==> r == c.cbResult
  {
    match c.operation
    case Create => c.cbResult
    case Modify => c.cbResult
    case Delete => c.cbResult
    case Move => c.cbResult
    case _ => NB_ERR
  }

  /** The index of the first change whose callback fails, or the number of changes. */
  function PrepareStop(cs: seq<Change>): (k: nat)
    ensures k <= |cs|
    ensures forall i :: 0 <= i < k ==> Callback(cs[i]) == NB_OK
    ensures k < |cs| ==> Callback(cs[k]) != NB_OK
  {
    if cs == [] || Callback(cs[0]) != NB_OK then 0
    else 1 + PrepareStop(cs[1..])
  }

  /** `cs` with the first `k` changes marked as prepared. */
  function MarkPrepared(cs: seq<Change>, k: nat): (r: seq<Change>)
    requires k <= |cs|
    ensures |r| == |cs|
    ensures forall i :: 0 <= i < |cs| ==> r[i] == if i < k then cs[i].(prepareOk := true) else cs[i]
  {
    seq(|cs|, i requires 0 <= i < |cs| => if i < k then cs[i].(prepareOk := true) else cs[i])
  }

  lemma MarkPreparedStep(cs: seq<Change>, k: nat)
    requires k < |cs|
    ensures MarkPrepared(cs, k)[k := cs[k].(prepareOk := true)] == MarkPrepared(cs, k + 1)
  {
  }

  /** What the transaction loop runs, in order. */
  datatype Call = ChangeCallback(event: Event, index: nat) | FinishCallback(cb: nat)

  /** The callbacks of the changes whose PREPARE succeeded, for an ABORT. */
  function AbortCalls(cs: seq<Change>): (calls: seq<Call>)
    ensures |calls| <= |cs|
    ensures forall c :: c in calls ==>
      (c.ChangeCallback? && c.event == Abort && c.index < |cs| && cs[c.index].prepareOk)
    ensures forall i :: 0 <= i < |cs| && cs[i].prepareOk ==> ChangeCallback(Abort, i) in calls
  {
    if cs == [] then []
    else
      var prev := AbortCalls(cs[..|cs| - 1]);
      assert forall i :: 0 <= i < |cs| - 1 ==> cs[..|cs| - 1][i] == cs[i];
      if cs[|cs| - 1].prepareOk then prev + [ChangeCallback(Abort, |cs| - 1)] else prev
  }

  /** `xs` without repetitions, each value at its first occurrence. */
  function Dedup(xs: seq<nat>): (r: seq<nat>)
    ensures forall x :: x in r <==> x in xs
    ensures forall i, j :: 0 <= i < j < |r| ==> r[i] != r[j]
  {
    if xs == [] then []
    else
      var prev := Dedup(xs[..|xs| - 1]);
      assert forall x :: x in xs <==> x in xs[..|xs| - 1] || x == xs[|xs| - 1];
      if xs[|xs| - 1] in prev then prev else prev + [xs[|xs| - 1]]
  }

  /** The non-null `apply_finish` callbacks of the changes, in change order. */
  function Finishers(cs: seq<Change>): (r: seq<nat>)
    ensures forall f :: f in r <==> f != 0 && exists i :: 0 <= i < |cs| && cs[i].applyFinish == f
  {
    if cs == [] then []
    else
      var prev := Finishers(cs[..|cs| - 1]);
      assert forall i :: 0 <= i < |cs| - 1 ==> cs[..|cs| - 1][i] == cs[i];
      if cs[|cs| - 1].applyFinish != 0 then prev + [cs[|cs| - 1].applyFinish] else prev
  }

  /** One callback per change, for `event`, in order. */
  function EachChange(event: Event, n: nat): (calls: seq<Call>)
    ensures |calls| == n
    ensures forall i :: 0 <= i < n ==> calls[i] == ChangeCallback(event, i)
  {
    if n == 0 then [] else EachChange(event, n - 1) + [ChangeCallback(event, n - 1)]
  }

  function FinishCalls(fs: seq<nat>): (calls: seq<Call>)
    ensures |calls| == |fs|
    ensures forall i :: 0 <= i < |fs| ==> calls[i] == FinishCallback(fs[i])
  {
    if fs == [] then [] else FinishCalls(fs[..|fs| - 1]) + [FinishCallback(fs[|fs| - 1])]
  }

  /** Extending the visited prefix by one change adds its ABORT callback exactly when it was prepared. */
  lemma AbortCallsStep(cs: seq<Change>, i: nat)
    requires i < |cs|
    ensures AbortCalls(cs[..i + 1]) ==
      AbortCalls(cs[..i]) + (if cs[i].prepareOk then [ChangeCallback(Abort, i)] else [])
  {
    assert cs[..i + 1][..i] == cs[..i];
  }

  /** Extending the visited prefix by one change records its `apply_finish` callback unless already seen. */
  lemma FinishListStep(cs: seq<Change>, i: nat)
    requires i < |cs|
    ensures var prev := Dedup(Finishers(cs[..i]));
            var cb := cs[i].applyFinish;
            Dedup(Finishers(cs[..i + 1])) == if cb != 0 && cb !in prev then prev + [cb] else prev
  {
    assert cs[..i + 1][..i] == cs[..i];
    var f := Finishers(cs[..i]);
    if cs[i].applyFinish != 0 {
      assert Finishers(cs[..i + 1]) == f + [cs[i].applyFinish];
      assert (f + [cs[i].applyFinish])[..|f|] == f;
    }
  }

  /** Where the transaction loop stands: the changes, the callbacks run and the `apply_finish` list collected. */
  datatype Progress = Progress(changes: seq<Change>, calls: seq<Call>, finishList: seq<nat>)

  /**
   * One turn of the transaction loop on change i: ABORT skips a change
   * that was not prepared; otherwise the change's callback runs, PREPARE
   * marks the change as prepared (the caller stops first when the callback
   * fails) and APPLY records its `apply_finish` callback unless it is null
   * or already recorded.
   */
  function ProcessNext(event: Event, p: Progress, i: nat): (q: Progress)
    requires i < |p.changes|
    ensures |q.changes| == |p.changes|
  {
    var c := p.changes[i];
    if event == Abort && !c.prepareOk then p
    else
      Progress(if event == Prepare then p.changes[i := c.(prepareOk := true)] else p.changes,
               p.calls + [ChangeCallback(event, i)],
               if event == Apply && c.applyFinish != 0 && c.applyFinish !in p.finishList
               then p.finishList + [c.applyFinish] else p.finishList)
  }

  /** The transaction loop after the first i changes of `cs`. */
  function ProcessUpTo(event: Event, cs: seq<Change>, i: nat): (p: Progress)
    requires i <= |cs|
    ensures |p.changes| == |cs|
  {
    if i == 0 then Progress(cs, [], [])
    else ProcessNext(event, ProcessUpTo(event, cs, i - 1), i - 1)
  }

  /** The loop changes no change before reaching it. */
  lemma {:induction false} ProcessUpToAhead(event: Event, cs: seq<Change>, i: nat, j: nat)
    requires i <= j < |cs|
    ensures ProcessUpTo(event, cs, i).changes[j] == cs[j]
  {
    if i > 0 {
      ProcessUpToAhead(event, cs, i - 1, j);
    }
  }

  /** After i changes PREPARE has run the callbacks of the first i changes and marked them as prepared. */
  lemma {:induction false} ProcessUpToPrepare(cs: seq<Change>, i: nat)
    requires i <= PrepareStop(cs)
    ensures ProcessUpTo(Prepare, cs, i).changes == MarkPrepared(cs, i)
    ensures ProcessUpTo(Prepare, cs, i).calls == EachChange(Prepare, i)
  {
    if i == 0 {
      assert MarkPrepared(cs, 0) == cs;
    } else {
      ProcessUpToPrepare(cs, i - 1);
      ProcessUpToAhead(Prepare, cs, i - 1, i - 1);
      MarkPreparedStep(cs, i - 1);
    }
  }

  /** After i changes ABORT has run the callbacks of the prepared changes among the first i, in order. */
  lemma {:induction false} ProcessUpToAbort(cs: seq<Change>, i: nat)
    requires i <= |cs|
    ensures ProcessUpTo(Abort, cs, i).changes == cs
    ensures ProcessUpTo(Abort, cs, i).calls == AbortCalls(cs[..i])
  {
    if i == 0 {
      assert cs[..0] == [];
    } else {
      ProcessUpToAbort(cs, i - 1);
      AbortCallsStep(cs, i - 1);
    }
  }

  /**
   * After i changes APPLY has run the callbacks of the first i changes and
   * collected their distinct non-null `apply_finish` callbacks in order.
   */
  lemma {:induction false} ProcessUpToApply(cs: seq<Change>, i: nat)
    requires i <= |cs|
    ensures ProcessUpTo(Apply, cs, i).changes == cs
    ensures ProcessUpTo(Apply, cs, i).calls == EachChange(Apply, i)
    ensures ProcessUpTo(Apply, cs, i).finishList == Dedup(Finishers(cs[..i]))
  {
    if i == 0 {
      assert cs[..0] == [];
    } else {
      ProcessUpToApply(cs, i - 1);
      FinishListStep(cs, i - 1);
    }
  }

  /** The northbound clients */
  datatype Client = Cli | ConfD | Sysrepo

  const COMMENT_SIZE := 80

  /** `strlcpy` into the transaction's comment buffer. */
  function CopyComment(comment: seq<byte>): (r: seq<byte>)
    ensures |r| < COMMENT_SIZE && |r| <= |comment|
    ensures r == comment[..|r|]
    ensures |comment| < COMMENT_SIZE ==> r == comment
  {
    if |comment| < COMMENT_SIZE then comment else comment[..COMMENT_SIZE - 1]
  }

  /** The changes in the order of the change tree: strictly ascending by `nb_config_change_compare`. */
  ghost predicate ChangesSorted(cs: seq<Change>)
  {
    forall i, j :: 0 <= i < j < |cs| ==> ChangeCompare(cs[i], cs[j]) < 0
  }

  /**
   * In the change tree's order, a change to a node comes before every change
   * to its descendants of the same priority, so its callbacks run first.
   */
  lemma ParentChangeFirst(cs: seq<Change>, i: nat, j: nat)
    requires ChangesSorted(cs) && i < |cs| && j < |cs|
    requires cs[i].priority == cs[j].priority
    requires |cs[i].xpath| < |cs[j].xpath| && cs[i].xpath == cs[j].xpath[..|cs[i].xpath|]
    ensures i < j
  {
    ChangeCompareParentFirst(cs[i], cs[j]);
    if j < i {
      ChangeCompareAntisymmetric(cs[j], cs[i]);
    }
  }

  /** Marking changes as prepared keeps their order. */
  lemma MarkPreparedSorted(cs: seq<Change>, k: nat)
    requires ChangesSorted(cs) && k <= |cs|
    ensures ChangesSorted(MarkPrepared(cs, k))
  {
    var r := MarkPrepared(cs, k);
    forall i, j | 0 <= i < j < |r|
      ensures ChangeCompare(r[i], r[j]) < 0
    {
      assert r[i].priority == cs[i].priority && r[i].xpath == cs[i].xpath;
      assert r[j].priority == cs[j].priority && r[j].xpath == cs[j].xpath;
    }
  }

  class Transaction {
    var client: Client
    var comment: seq<byte>
    /** The candidate configuration tree, an opaque handle. */
    var config: nat
    /** The change tree, in its in-order (sorted) traversal order. */
    var changes: seq<Change>

    /** The red-black tree's order: the changes ascend by `nb_config_change_compare`. */
    ghost predicate Sorted()
      reads this
    {
      ChangesSorted(changes)
    }

    constructor (client: Client, comment: seq<byte>, config: nat)
      ensures this.client == client && this.comment == comment && this.config == config
      ensures changes == [] && Sorted()
    {
      this.client := client;
      this.comment := comment;
      this.config := config;
      changes := [];
    }

    /** The closing loop of `nb_transaction_process` on APPLY: each collected `apply_finish` callback, in order. */
    static method RunFinishCallbacks(finishList: seq<nat>) returns (calls: seq<Call>)
      ensures calls == FinishCalls(finishList)
    {
      calls := [];
      var j := 0;
      while j < |finishList|
        invariant 0 <= j <= |finishList|
        invariant calls == FinishCalls(finishList[..j])
      {
        assert finishList[..j + 1][..j] == finishList[..j];
        calls := calls + [FinishCallback(finishList[j])];
        j := j + 1;
      }
      assert finishList[..j] == finishList;
    }

    /**
     * `nb_transaction_process`: run the callbacks of every change for `event`.
     *
     * PREPARE stops at the first failing callback and returns its result,
     * marking the changes before it as prepared; ABORT runs only prepared
     * changes; APPLY runs every change, then each distinct `apply_finish`
     * callback once.
     */
    method Process(event: Event) returns (ret: int, calls: seq<Call>)
      modifies this
      ensures client == old(client) && comment == old(comment) && config == old(config)
      ensures event != Prepare ==> changes == old(changes) && ret == NB_OK
      ensures event == Prepare ==>
        var k := PrepareStop(old(changes));
        changes == MarkPrepared(old(changes), k) &&
        ret == (if k < |changes| then Callback(changes[k]) else NB_OK) &&
        calls == EachChange(Prepare, if k < |changes| then k + 1 else k)
      ensures event == Abort ==> calls == AbortCalls(old(changes))
      ensures event == Apply ==>
        calls == EachChange(Apply, |changes|) + FinishCalls(Dedup(Finishers(changes)))
      ensures old(Sorted()) ==> Sorted()
    {
      var finishList: seq<nat> := [];
      calls := [];
      ret := NB_OK;
      var i := 0;
      while i < |changes|
        invariant i <= |changes| == |old(changes)| && (event == Prepare ==> i <= PrepareStop(old(changes)))
        invariant client == old(client) && comment == old(comment) && config == old(config)
        invariant Progress(changes, calls, finishList) == ProcessUpTo(event, old(changes), i)
      {
        ProcessUpToAhead(event, old(changes), i, i);
        if event == Abort && !changes[i].prepareOk {
          i := i + 1;
          continue;
        }
        var r := Callback(changes[i]);
        calls := calls + [ChangeCallback(event, i)];
        if event == Prepare && r != NB_OK {
          ret := r;
          break;
        }
        if event == Prepare {
          changes := changes[i := changes[i].(prepareOk := true)];
        }
        if event == Apply {
          var cb := changes[i].applyFinish;
          if cb != 0 && cb !in finishList {
            finishList := finishList + [cb];
          }
        }
        i := i + 1;
      }
      match event
      case Prepare =>
        ProcessUpToPrepare(old(changes), i);
        assert i == PrepareStop(old(changes)) && (ret != NB_OK <==> i < |changes|);
        if old(Sorted()) {
          MarkPreparedSorted(old(changes), i);
        }
      case Abort =>
        ProcessUpToAbort(old(changes), i);
        assert old(changes)[..i] == old(changes);
      case Apply =>
        ProcessUpToApply(old(changes), i);
        assert old(changes)[..i] == old(changes);
        var finish := RunFinishCallbacks(finishList);
        calls := calls + finish;
    }
  }

  /** The daemon-wide state of the northbound layer. */
  class Northbound {
    /** Only one configuration transaction may exist at a time. */
    var transactionInProgress: bool

    constructor ()
      ensures !transactionInProgress
    {
      transactionInProgress := false;
    }

    /** `nb_transaction_new`: null while another transaction is in progress. */
    method TransactionNew(config: nat, client: Client, comment: seq<byte>, hasComment: bool)
      returns (t: Transaction?)
      modifies this
      ensures old(transactionInProgress) ==> t == null && transactionInProgress
      ensures !old(transactionInProgress) ==>
        t != null && fresh(t) && transactionInProgress &&
        t.client == client && t.config == config && t.changes == [] &&
        t.comment == (if hasComment then CopyComment(comment) else [])
    {
      if transactionInProgress {
        return null;
      }
      transactionInProgress := true;
      t := new Transaction(client, if hasComment then CopyComment(comment) else [], config);
    }

    /** `nb_transaction_free`: drain the change tree and release the lock. */
    method TransactionFree(t: Transaction)
      modifies this, t
      ensures t.changes == [] && !transactionInProgress
    {
      while t.changes != []
        modifies t
        decreases |t.changes|
      {
        t.changes := t.changes[1..];
      }
      transactionInProgress := false;
    }
  }

  /** A second transaction cannot start until the first is freed. */
  method SingleTransaction(nb: Northbound, config: nat)
    requires !nb.transactionInProgress
    modifies nb
    ensures !nb.transactionInProgress
  {
    var t1 := nb.TransactionNew(config, Cli, [], false);
    var t2 := nb.TransactionNew(config, Cli, [], false);
    assert t1 != null && t2 == null;
    nb.TransactionFree(t1);
    var t3 := nb.TransactionNew(config, Cli, [], false);
    assert t3 != null;
    nb.TransactionFree(t3);
  }
}
