/**
 * Argument-sequence operations of DAG nodes headed by an associative
 * (AU theory) symbol (AU_Theory/AU_DagNode.cc).
 *
 * An AU node keeps its arguments in `argArray`, a flat sequence of
 * references to other DAG nodes. Those nodes belong to other theories and
 * are opaque here: a `DagRef` names one, and the few things the operations
 * ask of them (their symbol, whether they are unstackable, how two compare)
 * are passed in as functions.
 */
module AUDag {

  /** An opaque reference to a DAG node of any theory. */
  type DagRef = nat

  /** A symbol: its identity and the argument positions it keeps frozen. */
  datatype Symbol = Symbol(id: nat, frozen: set<nat>)

  /** A redex position: a node, the index of its parent on the stack, and its argument index. */
  datatype RedexPosition = RedexPosition(node: DagRef, parentIndex: int, argIndex: int)

  datatype Option<T> = None | Some(value: T)

  /** The sort index a node carries when its sort is not known. */
  const SORT_UNKNOWN: int := -1

  /**
   * The argument sequence left after replacing the matched stretch
   * `args[first..last]` (both ends included) by one `replacement`.
   */
  function Spliced(args: seq<DagRef>, first: nat, last: nat, replacement: DagRef): (r: seq<DagRef>)
    requires first <= last < |args|
    ensures |r| == |args| - (last - first)
    ensures forall i :: 0 <= i < first ==> r[i] == args[i]
    ensures r[first] == replacement
    ensures forall i :: first < i < |r| ==> r[i] == args[i + (last - first)]
  {
    args[..first] + [replacement] + args[last + 1..]
  }

  /**
   * The entries `stackArguments` pushes for `args[from..]`: one redex position
   * per argument that is not unstackable, in increasing argument order.
   */
  function StackEntries(args: seq<DagRef>, parentIndex: int, unstackable: DagRef -> bool, from: nat): seq<RedexPosition>
    requires from <= |args|
    decreases |args| - from
  {
    if from == |args| then []
    else if unstackable(args[from]) then StackEntries(args, parentIndex, unstackable, from + 1)
    else [RedexPosition(args[from], parentIndex, from)] + StackEntries(args, parentIndex, unstackable, from + 1)
  }

  /**
   * What `StackEntries` holds: every entry points at a stackable argument
   * at or after `from`, with the given parent.
   */
  lemma {:induction false} StackEntriesSound(args: seq<DagRef>, parentIndex: int, unstackable: DagRef -> bool, from: nat)
    requires from <= |args|
    ensures forall e <- StackEntries(args, parentIndex, unstackable, from) ::
              from <= e.argIndex < |args| && e.node == args[e.argIndex] &&
              e.parentIndex == parentIndex && !unstackable(e.node)
    decreases |args| - from
  {
    if from < |args| {
      StackEntriesSound(args, parentIndex, unstackable, from + 1);
    }
  }

  /** Redex positions in strictly increasing argument order. */
  predicate Ascending(e: seq<RedexPosition>)
  {
    forall k, l :: 0 <= k < l < |e| ==> e[k].argIndex < e[l].argIndex
  }

  /** The entries come in strictly increasing argument order. */
  lemma {:induction false} StackEntriesOrdered(args: seq<DagRef>, parentIndex: int, unstackable: DagRef -> bool, from: nat)
    requires from <= |args|
    ensures Ascending(StackEntries(args, parentIndex, unstackable, from))
    decreases |args| - from
  {
    if from < |args| {
      StackEntriesOrdered(args, parentIndex, unstackable, from + 1);
      StackEntriesSound(args, parentIndex, unstackable, from + 1);
      var rest := StackEntries(args, parentIndex, unstackable, from + 1);
      if !unstackable(args[from]) {
        var e := StackEntries(args, parentIndex, unstackable, from);
        assert e == [RedexPosition(args[from], parentIndex, from)] + rest;
        forall k, l | 0 <= k < l < |e|
          ensures e[k].argIndex < e[l].argIndex
        {
          assert e[l] == rest[l - 1] && e[l] in rest;
          if k > 0 {
            assert e[k] == rest[k - 1];
          } else {
            assert e[k].argIndex == from;
          }
        }
      } else {
        assert StackEntries(args, parentIndex, unstackable, from) == rest;
      }
    }
  }

  /** No stackable argument at or after `from` is missed. */
  lemma {:induction false} StackEntriesComplete(args: seq<DagRef>, parentIndex: int, unstackable: DagRef -> bool, from: nat, i: nat)
    requires from <= i < |args| && !unstackable(args[i])
    ensures RedexPosition(args[i], parentIndex, i) in StackEntries(args, parentIndex, unstackable, from)
    decreases |args| - from
  {
    if from < i {
      StackEntriesComplete(args, parentIndex, unstackable, from + 1, i);
    }
  }

  class AUDagNode {
    var symbol: Symbol
    var argArray: seq<DagRef>
    /** The flags that `copySetRewritingFlags` carries over to a clone. */
    var rewritingFlags: set<nat>
    /** All other flags; a freshly constructed node has none. */
    var otherFlags: set<nat>
    var theoryByte: int
    var sortIndex: int

    /**
     * `new AU_DagNode(symbol, size)`: a node with `size` argument slots whose
     * contents the caller fills in (zero here, uninitialised in the source).
     */
    constructor (symbol: Symbol, size: nat)
      ensures this.symbol == symbol && argArray == seq(size, _ => 0)
      ensures rewritingFlags == {} && otherFlags == {}
      ensures sortIndex == SORT_UNKNOWN
    {
      this.symbol := symbol;
      argArray := seq(size, _ => 0);
      rewritingFlags := {};
      otherFlags := {};
      theoryByte := 0;
      sortIndex := SORT_UNKNOWN;
    }

    /**
     * compareArguments for a non-deque argument: the length difference when
     * the lengths differ, otherwise the first non-zero comparison of
     * corresponding arguments, and 0 when every pair compares equal.
     */
    method CompareArguments(other: AUDagNode, compare: (DagRef, DagRef) -> int) returns (r: int)
      ensures |argArray| != |other.argArray| ==> r == |argArray| - |other.argArray|
      ensures |argArray| == |other.argArray| ==>
                (r == 0 <==> forall i :: 0 <= i < |argArray| ==> compare(argArray[i], other.argArray[i]) == 0)
      ensures |argArray| == |other.argArray| && r != 0 ==>
                exists k :: 0 <= k < |argArray| && r == compare(argArray[k], other.argArray[k]) &&
                  forall i :: 0 <= i < k ==> compare(argArray[i], other.argArray[i]) == 0
    {
      var argArray2 := other.argArray;
      r := |argArray| - |argArray2|;
      if r != 0 {
        return;
      }
      var j := 0;
      while j < |argArray|
        invariant 0 <= j <= |argArray|
        invariant forall i :: 0 <= i < j ==> compare(argArray[i], argArray2[i]) == 0
      {
        var c := compare(argArray[j], argArray2[j]);
        if c != 0 {
          return c;
        }
        j := j + 1;
      }
      return 0;
    }

    /**
     * markArguments: return the first argument headed by this node's own
     * symbol (the caller continues marking from it without recursing) and
     * call `mark()` on every other argument; `marked` lists those calls in
     * order.
     */
    method MarkArguments(symbolOf: DagRef -> Symbol) returns (r: Option<DagRef>, marked: seq<DagRef>)
      requires |argArray| > 0
      ensures r.None? <==> forall i :: 0 <= i < |argArray| ==> symbolOf(argArray[i]) != symbol
      ensures r.None? ==> marked == argArray
      ensures r.Some? ==>
                exists k :: 0 <= k < |argArray| && argArray[k] == r.value && symbolOf(r.value) == symbol &&
                  (forall i :: 0 <= i < k ==> symbolOf(argArray[i]) != symbol) &&
                  marked == argArray[..k] + argArray[k + 1..]
    {
      var s := symbol;
      r := None;
      marked := [];
      ghost var at := 0;
      var i := 0;
      while i < |argArray|
        invariant 0 <= i <= |argArray|
        invariant r.None? ==> forall j :: 0 <= j < i ==> symbolOf(argArray[j]) != s
        invariant r.None? ==> marked == argArray[..i]
        invariant r.Some? ==>
                    && 0 <= at < i && argArray[at] == r.value && symbolOf(r.value) == s
                    && (forall j :: 0 <= j < at ==> symbolOf(argArray[j]) != s)
                    && marked == argArray[..at] + argArray[at + 1..i]
      {
        var d := argArray[i];
        if r.None? && symbolOf(d) == s {
          r := Some(d);
          at := i;
        } else {
          marked := marked + [d];
        }
        i := i + 1;
      }
      assert argArray[..|argArray|] == argArray;
    }

    /**
     * overwriteWithClone: rebuild `target` (the source's `old`) in place as a copy of this node with
     * the same symbol, rewriting flags, theory byte, sort index and arguments.
     */
    method OverwriteWithClone(target: AUDagNode)
      requires target != this
      modifies target
      ensures target.symbol == symbol && target.argArray == argArray
      ensures target.rewritingFlags == rewritingFlags && target.otherFlags == {}
      ensures target.theoryByte == theoryByte && target.sortIndex == sortIndex
    {
      target.symbol := symbol;
      target.argArray := seq(|argArray|, _ => 0);
      target.rewritingFlags := {};
      target.otherFlags := {};
      target.rewritingFlags := rewritingFlags;
      target.theoryByte := theoryByte;
      target.sortIndex := sortIndex;
      target.argArray := argArray;
    }

    /** makeClone: a fresh node equal to this one in every field that matters. */
    method MakeClone() returns (d: AUDagNode)
      ensures fresh(d)
      ensures d.symbol == symbol && d.argArray == argArray
      ensures d.rewritingFlags == rewritingFlags && d.otherFlags == {}
      ensures d.theoryByte == theoryByte && d.sortIndex == sortIndex
    {
      d := new AUDagNode(symbol, |argArray|);
      d.rewritingFlags := rewritingFlags;
      d.theoryByte := theoryByte;
      d.sortIndex := sortIndex;
      d.argArray := argArray;
    }

    /**
     * copyWithReplacement(argIndex, replacement): a fresh node with the same
     * symbol and argument count whose argument at `argIndex` is `replacement`
     * and whose other arguments are this node's.
     */
    method CopyWithReplacement(argIndex: int, replacement: DagRef) returns (n: AUDagNode)
      ensures fresh(n) && n.symbol == symbol
      ensures |n.argArray| == |argArray|
      ensures forall i :: 0 <= i < |argArray| && i != argIndex ==> n.argArray[i] == argArray[i]
      ensures 0 <= argIndex < |argArray| ==> n.argArray[argIndex] == replacement
    {
      var nrArgs := |argArray|;
      n := new AUDagNode(symbol, nrArgs);
      var i := 0;
      while i < nrArgs
        invariant 0 <= i <= nrArgs && |n.argArray| == nrArgs
        invariant n.symbol == symbol
        invariant forall j :: 0 <= j < i ==> n.argArray[j] == (if j == argIndex then replacement else argArray[j])
      {
        n.argArray := n.argArray[i := if i == argIndex then replacement else argArray[i]];
        i := i + 1;
      }
    }

    /**
     * copyWithReplacement(redexStack, first, last): a fresh node in which the
     * argument at `redexStack[k].argIndex` is `redexStack[k].node` for every
     * `k` in `first..last`, all other arguments as here. The caller supplies
     * the positions in strictly increasing argument order.
     */
    method CopyWithReplacements(redexStack: seq<RedexPosition>, first: nat, last: nat) returns (n: AUDagNode)
      requires first <= last < |redexStack|
      requires forall k :: first <= k <= last ==> 0 <= redexStack[k].argIndex < |argArray|
      requires forall k, l :: first <= k < l <= last ==> redexStack[k].argIndex < redexStack[l].argIndex
      ensures fresh(n) && n.symbol == symbol && |n.argArray| == |argArray|
      ensures forall k :: first <= k <= last ==> n.argArray[redexStack[k].argIndex] == redexStack[k].node
      ensures forall i :: 0 <= i < |argArray| && (forall k :: first <= k <= last ==> redexStack[k].argIndex != i) ==>
                n.argArray[i] == argArray[i]
    {
      var nrArgs := |argArray|;
      n := new AUDagNode(symbol, nrArgs);
      var next := first;
      var nextReplacementIndex := redexStack[first].argIndex;
      var i := 0;
      while i < nrArgs
        invariant 0 <= i <= nrArgs && |n.argArray| == nrArgs && n.symbol == symbol
        invariant first <= next <= last + 1
        invariant next <= last ==> nextReplacementIndex == redexStack[next].argIndex && i <= nextReplacementIndex
        invariant next > last ==> nextReplacementIndex == -1
        invariant forall k :: first <= k < next ==> redexStack[k].argIndex < i
        invariant forall k :: first <= k < next ==> n.argArray[redexStack[k].argIndex] == redexStack[k].node
        invariant forall j :: 0 <= j < i && (forall k :: first <= k <= last ==> redexStack[k].argIndex != j) ==>
                    n.argArray[j] == argArray[j]
      {
        if i == nextReplacementIndex {
          n.argArray := n.argArray[i := redexStack[next].node];
          next := next + 1;
          nextReplacementIndex := if next <= last then redexStack[next].argIndex else -1;
        } else {
          n.argArray := n.argArray[i := argArray[i]];
        }
        i := i + 1;
      }
    }

    /**
     * stackArguments: unless frozen arguments are to be respected and the
     * symbol has some, push a redex position for every argument that is not
     * unstackable, in increasing argument order.
     */
    method StackArguments(stack: seq<RedexPosition>, parentIndex: int, respectFrozen: bool,
                          unstackable: DagRef -> bool)
      returns (stack': seq<RedexPosition>)
      ensures respectFrozen && symbol.frozen != {} ==> stack' == stack
      ensures !(respectFrozen && symbol.frozen != {}) ==>
                stack' == stack + StackEntries(argArray, parentIndex, unstackable, 0)
    {
      stack' := stack;
      if respectFrozen && symbol.frozen != {} {
        return;
      }
      var nrArgs := |argArray|;
      var i := 0;
      while i < nrArgs
        invariant 0 <= i <= nrArgs
        invariant stack' + StackEntries(argArray, parentIndex, unstackable, i) ==
                  stack + StackEntries(argArray, parentIndex, unstackable, 0)
      {
        var d := argArray[i];
        if !unstackable(d) {
          stack' := stack' + [RedexPosition(d, parentIndex, i)];
        }
        i := i + 1;
      }
    }

    /**
     * partialReplace: after a match against `argArray[first..last]`, replace
     * that stretch in place by `replacement`, shifting the tail down and
     * contracting the array, and forget the node's sort.
     */
    method PartialReplace(replacement: DagRef, first: nat, last: nat)
      requires first <= last < |argArray|
      modifies this`argArray, this`sortIndex
      ensures argArray == Spliced(old(argArray), first, last, replacement)
      ensures sortIndex == SORT_UNKNOWN
    {
      ghost var args := argArray;
      var a := argArray;
      var f := first;
      a := a[f := replacement];
      f := f + 1;
      var nrArgs := |a|;
      var l := last + 1;
      while l < nrArgs
        invariant l - f == last - first && last + 1 <= l <= nrArgs && |a| == nrArgs
        invariant forall k :: 0 <= k < f ==> a[k] == Spliced(args, first, last, replacement)[k]
        invariant forall k :: l <= k < nrArgs ==> a[k] == args[k]
      {
        a := a[f := a[l]];
        f := f + 1;
        l := l + 1;
      }
      argArray := a[..f];
      sortIndex := SORT_UNKNOWN;
    }

    /**
     * partialConstruct: the same splice as `PartialReplace`, built in a
     * fresh node of length `nrArgs + first - last`; this node is untouched.
     */
    method PartialConstruct(replacement: DagRef, first: nat, last: nat) returns (n: AUDagNode)
      requires first <= last < |argArray|
      ensures fresh(n) && n.symbol == symbol
      ensures n.argArray == Spliced(argArray, first, last, replacement)
    {
      var nrArgs := |argArray|;
      n := new AUDagNode(symbol, nrArgs + first - last);
      var a := n.argArray;
      var i := 0;
      while i < first
        invariant 0 <= i <= first && |a| == nrArgs + first - last
        invariant forall k :: 0 <= k < i ==> a[k] == argArray[k]
      {
        a := a[i := argArray[i]];
        i := i + 1;
      }
      var f := first;
      a := a[f := replacement];
      f := f + 1;
      var l := last + 1;
      while l < nrArgs
        invariant l - f == last - first && last + 1 <= l <= nrArgs && |a| == nrArgs + first - last
        invariant forall k :: 0 <= k < f ==> a[k] == Spliced(argArray, first, last, replacement)[k]
      {
        a := a[f := argArray[l]];
        f := f + 1;
        l := l + 1;
      }
      n.argArray := a;
    }
  }

  /**
   * `PartialReplace` and `PartialConstruct` conserve arguments: the splice
   * together with the matched stretch it drops holds exactly the original
   * arguments plus the replacement, so no unmatched argument is lost or
   * duplicated.
   */
  lemma SplicedConservesArguments(args: seq<DagRef>, first: nat, last: nat, replacement: DagRef)
    requires first <= last < |args|
    ensures multiset(Spliced(args, first, last, replacement)) + multiset(args[first..last + 1])
            == multiset(args) + multiset{replacement}
  {
    assert args == args[..first] + args[first..last + 1] + args[last + 1..];
  }
}

