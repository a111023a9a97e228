/**
 * The graph interchange of the compiled runtime (FullCompiler/runtimeNew.cc).
 * outputGraph writes the graph below a record as lines, one per record in
 * depth-first post-order without repeats, each the record's symbol followed
 * by the line numbers of its arguments; inputGraph reads such lines back,
 * building one unreduced nursery record per line.
 */
module GraphIo {
  import opened GcRecords
  import opened GcCycle
  import opened Runtime

  /** One line of the interchange format: a symbol and the earlier lines its arguments are. */
  datatype Line = Line(symbol: nat, refs: seq<nat>)

  /** Every argument lies in the arena and ranks below its record: the graph is acyclic. */
  ghost predicate Ranked(A: seq<Cell>, rank: Handle -> nat)
  {
    forall h :: 0 <= h < |A| ==> forall a :: a in A[h].node.args ==> a < |A| && rank(a) < rank(h)
  }

  /** The records reachable from `h`, `h` included. */
  ghost function Below(A: seq<Cell>, rank: Handle -> nat, h: Handle): (r: set<Handle>)
    requires Ranked(A, rank) && h < |A|
    ensures h in r
    ensures forall x :: x in r ==> x < |A| && rank(x) <= rank(h)
    decreases rank(h)
  {
    {h} + (set a, x | a in A[h].node.args && a < |A| && x in Below(A, rank, a) :: x)
  }

  /** Each record of `vs` occurs once, after all of its arguments. */
  ghost predicate PostOrder(A: seq<Cell>, vs: seq<Handle>)
  {
    (forall i, j :: 0 <= i < j < |vs| ==> vs[i] != vs[j]) &&
    forall i :: 0 <= i < |vs| ==> vs[i] < |A| && forall a :: a in A[vs[i]].node.args ==> a in vs[..i]
  }

  lemma BelowArg(A: seq<Cell>, rank: Handle -> nat, h: Handle, a: Handle)
    requires Ranked(A, rank) && h < |A| && a in A[h].node.args
    ensures a < |A| && forall x :: x in Below(A, rank, a) ==> x in Below(A, rank, h)
  {
    forall x | x in Below(A, rank, a)
      ensures x in Below(A, rank, h)
    {
      assert a in A[h].node.args && a < |A| && x in Below(A, rank, a);
    }
  }

  /** A record whose arguments are all listed extends a post-order. */
  lemma PostOrderAppend(A: seq<Cell>, vs: seq<Handle>, x: Handle)
    requires PostOrder(A, vs) && x < |A| && x !in vs && forall a :: a in A[x].node.args ==> a in vs
    ensures PostOrder(A, vs + [x])
  {
    var vs' := vs + [x];
    forall i | 0 <= i < |vs'|
      ensures forall a :: a in A[vs'[i]].node.args ==> a in vs'[..i]
    {
      if i < |vs| {
        assert vs'[..i] == vs[..i];
      } else {
        assert vs'[..i] == vs;
      }
    }
  }

  /** A post-order holds everything reachable from each of its records. */
  lemma {:induction false} PostOrderClosed(A: seq<Cell>, rank: Handle -> nat, vs: seq<Handle>, x: Handle)
    requires Ranked(A, rank) && PostOrder(A, vs) && x in vs
    ensures forall y :: y in Below(A, rank, x) ==> y in vs
    decreases rank(x)
  {
    var i :| 0 <= i < |vs| && vs[i] == x;
    forall a | a in A[x].node.args
      ensures forall y :: y in Below(A, rank, a) ==> y in vs
    {
      assert a in vs[..i];
      PostOrderClosed(A, rank, vs, a);
    }
  }

  /**
   * depthFirstTraversal: every argument not yet visited is traversed in
   * turn, then the record itself is inserted into `visited`.
   */
  method DepthFirstTraversal(arity: nat -> nat, A: seq<Cell>, ghost rank: Handle -> nat, node: Handle,
                             visited: seq<Handle>)
    returns (visited': seq<Handle>)
    requires WellShaped(arity, A) && Ranked(A, rank) && node < |A|
    requires PostOrder(A, visited) && node !in visited
    ensures PostOrder(A, visited') && visited <= visited' && |visited'| > 0 && visited'[|visited'| - 1] == node
    ensures forall x :: x in visited' ==> x in visited || x in Below(A, rank, node)
    decreases rank(node), 1
  {
    visited' := visited;
    var nrArgs := arity(A[node].node.symbol);
    var i := 0;
    while i < nrArgs
      invariant i <= nrArgs == |A[node].node.args|
      invariant PostOrder(A, visited') && visited <= visited' && node !in visited'
      invariant forall x :: x in visited' ==> x in visited || x in Below(A, rank, node)
      invariant forall q :: 0 <= q < i ==> A[node].node.args[q] in visited'
    {
      visited' := VisitArgument(arity, A, rank, node, i, visited, visited');
      i := i + 1;
    }
    VisitNode(A, rank, node, visited, visited');
    visited' := visited' + [node];
  }

  /** Once its arguments are visited, appending `node` keeps the post-order and the traversal's bounds. */
  lemma VisitNode(A: seq<Cell>, rank: Handle -> nat, node: Handle, visited: seq<Handle>, current: seq<Handle>)
    requires Ranked(A, rank) && node < |A|
    requires PostOrder(A, current) && visited <= current && node !in current
    requires forall x :: x in current ==> x in visited || x in Below(A, rank, node)
    requires forall q :: 0 <= q < |A[node].node.args| ==> A[node].node.args[q] in current
    ensures PostOrder(A, current + [node]) && visited <= current + [node]
    ensures forall x :: x in current + [node] ==> x in visited || x in Below(A, rank, node)
  {
    forall a | a in A[node].node.args
      ensures a in current
    {
      var q :| 0 <= q < |A[node].node.args| && A[node].node.args[q] == a;
    }
    PostOrderAppend(A, current, node);
    assert (current + [node])[..|visited|] == visited;
  }

  /** One turn of depthFirstTraversal's loop: argument `i` of `node` is traversed unless already visited. */
  method VisitArgument(arity: nat -> nat, A: seq<Cell>, ghost rank: Handle -> nat, node: Handle, i: nat,
                       ghost visited: seq<Handle>, current: seq<Handle>)
    returns (visited': seq<Handle>)
    requires WellShaped(arity, A) && Ranked(A, rank) && node < |A| && i < |A[node].node.args|
    requires PostOrder(A, current) && visited <= current && node !in current
    requires forall x :: x in current ==> x in visited || x in Below(A, rank, node)
    ensures PostOrder(A, visited') && visited <= visited' && node !in visited'
    ensures forall x :: x in visited' ==> x in visited || x in Below(A, rank, node)
    ensures forall x :: x in current ==> x in visited'
    ensures A[node].node.args[i] in visited'
    decreases rank(node), 0
  {
    visited' := current;
    var n := A[node].node.args[i];
    assert n in A[node].node.args;
    if n !in current {
      BelowArg(A, rank, node, n);
      assert rank(n) < rank(node);
      visited' := DepthFirstTraversal(arity, A, rank, n, current);
      PrefixKeeps(current, visited');
    }
  }

  lemma PrefixKeeps(vs: seq<Handle>, ws: seq<Handle>)
    requires vs <= ws
    ensures forall x :: x in vs ==> x in ws
  {
    forall x | x in vs
      ensures x in ws
    {
      var k :| 0 <= k < |vs| && vs[k] == x;
      assert ws[k] == x;
    }
  }

  /** PointerSet::pointer2Index: where `x` was inserted into `vs`. */
  function IndexOf(vs: seq<Handle>, x: Handle): (r: nat)
    requires x in vs
    ensures r < |vs| && vs[r] == x
    ensures forall j :: 0 <= j < r ==> vs[j] != x
  {
    if vs[0] == x then 0 else 1 + IndexOf(vs[1..], x)
  }

  /** Line `i` gives the symbol of `visited[i]` and the line of each of its arguments. */
  ghost predicate Describes(A: seq<Cell>, visited: seq<Handle>, lines: seq<Line>)
  {
    |lines| == |visited| && DescribesUpTo(A, visited, lines)
  }

  ghost predicate DescribesUpTo(A: seq<Cell>, visited: seq<Handle>, lines: seq<Line>)
  {
    |lines| <= |visited| &&
    forall i :: 0 <= i < |lines| ==>
      visited[i] < |A| && lines[i].symbol == A[visited[i]].node.symbol &&
      |lines[i].refs| == |A[visited[i]].node.args| &&
      forall q :: 0 <= q < |lines[i].refs| ==>
        lines[i].refs[q] < i && visited[lines[i].refs[q]] == A[visited[i]].node.args[q]
  }

  /** Lines inputGraph can read: a symbol's line holds one earlier line per argument. */
  predicate WellFormed(arity: nat -> nat, lines: seq<Line>)
  {
    forall i :: 0 <= i < |lines| ==>
      |lines[i].refs| == arity(lines[i].symbol) && forall q :: 0 <= q < |lines[i].refs| ==> lines[i].refs[q] < i
  }

  /** The line written for `visited[i]`: its symbol and, per argument, the line that argument was written on. */
  method LineOf(arity: nat -> nat, A: seq<Cell>, visited: seq<Handle>, i: nat) returns (line: Line)
    requires WellShaped(arity, A) && PostOrder(A, visited) && i < |visited|
    ensures line.symbol == A[visited[i]].node.symbol && |line.refs| == |A[visited[i]].node.args|
    ensures forall q :: 0 <= q < |line.refs| ==> line.refs[q] < i && visited[line.refs[q]] == A[visited[i]].node.args[q]
  {
    var n := A[visited[i]].node;
    var symbol := n.symbol;
    var nrArgs := arity(symbol);
    var refs: seq<nat> := [];
    var j := 0;
    while j < nrArgs
      invariant j <= nrArgs == |n.args| && |refs| == j
      invariant forall q :: 0 <= q < j ==> refs[q] < i && visited[refs[q]] == n.args[q]
    {
      assert n.args[j] in n.args && n.args[j] in visited[..i];
      var k :| 0 <= k < i && visited[k] == n.args[j];
      var r := IndexOf(visited, n.args[j]);
      refs := refs + [r];
      j := j + 1;
    }
    line := Line(symbol, refs);
  }

  /** The line for the next visited record extends what the lines describe. */
  lemma DescribesSnoc(arity: nat -> nat, A: seq<Cell>, visited: seq<Handle>, lines: seq<Line>, line: Line)
    requires WellShaped(arity, A) && DescribesUpTo(A, visited, lines) && WellFormed(arity, lines)
    requires |lines| < |visited| && visited[|lines|] < |A|
    requires line.symbol == A[visited[|lines|]].node.symbol && |line.refs| == |A[visited[|lines|]].node.args|
    requires forall q :: 0 <= q < |line.refs| ==>
               line.refs[q] < |lines| && visited[line.refs[q]] == A[visited[|lines|]].node.args[q]
    ensures DescribesUpTo(A, visited, lines + [line]) && WellFormed(arity, lines + [line])
  {
    var lines' := lines + [line];
    forall i | 0 <= i < |lines'|
      ensures |lines'[i].refs| == arity(lines'[i].symbol) && forall q :: 0 <= q < |lines'[i].refs| ==> lines'[i].refs[q] < i
    {
      if i < |lines| {
        assert lines'[i] == lines[i];
      }
    }
  }

  /**
   * outputGraph, without the header line of counts and timings: the records
   * below `node` in the order the traversal inserted them, `node` last.
   */
  method OutputGraph(arity: nat -> nat, A: seq<Cell>, ghost rank: Handle -> nat, node: Handle)
    returns (lines: seq<Line>, visited: seq<Handle>)
    requires WellShaped(arity, A) && Ranked(A, rank) && node < |A|
    ensures PostOrder(A, visited) && |visited| > 0 && visited[|visited| - 1] == node
    ensures forall x :: x in visited <==> x in Below(A, rank, node)
    ensures Describes(A, visited, lines) && WellFormed(arity, lines)
  {
    visited := DepthFirstTraversal(arity, A, rank, node, []);
    PostOrderClosed(A, rank, visited, node);
    var nrNodes := |visited|;
    lines := [];
    var i := 0;
    while i < nrNodes
      invariant i <= nrNodes == |visited| && |lines| == i
      invariant DescribesUpTo(A, visited, lines) && WellFormed(arity, lines)
    {
      var line := LineOf(arity, A, visited, i);
      DescribesSnoc(arity, A, visited, lines, line);
      lines := lines + [line];
      i := i + 1;
    }
  }

  /**
   * `built[k]` is the record read from line `k`: live, flagged UNREDUCED
   * and nothing else, with the line's symbol and, as argument `q`, the
   * record built for the line that `q` refers to.
   */
  ghost predicate Shape(A: seq<Cell>, built: seq<Handle>, lines: seq<Line>)
  {
    |built| == |lines| &&
    forall k :: 0 <= k < |built| ==>
      built[k] < |A| && A[built[k]].Live? &&
      A[built[k]].node.symbol == lines[k].symbol && A[built[k]].node.unreduced && A[built[k]].node.otherFlags == 0 &&
      |A[built[k]].node.args| == |lines[k].refs| &&
      forall q :: 0 <= q < |lines[k].refs| ==>
        lines[k].refs[q] < |built| && A[built[k]].node.args[q] == built[lines[k].refs[q]]
  }

  /** Reading back what outputGraph wrote rebuilds the graph: line by line, records and arguments correspond. */
  lemma RoundTrip(A: seq<Cell>, visited: seq<Handle>, lines: seq<Line>, A': seq<Cell>, built: seq<Handle>)
    requires PostOrder(A, visited) && Describes(A, visited, lines) && Shape(A', built, lines)
    ensures |built| == |visited|
    ensures forall i :: 0 <= i < |visited| ==>
              A'[built[i]].node.symbol == A[visited[i]].node.symbol &&
              |A'[built[i]].node.args| == |A[visited[i]].node.args|
    ensures forall i, q, j ::
              (0 <= i < |visited| && 0 <= q < |A[visited[i]].node.args| && 0 <= j < |visited| &&
               A[visited[i]].node.args[q] == visited[j]) ==> A'[built[i]].node.args[q] == built[j]
  {
    forall i, q, j | 0 <= i < |visited| && 0 <= q < |A[visited[i]].node.args| && 0 <= j < |visited| &&
                     A[visited[i]].node.args[q] == visited[j]
      ensures A'[built[i]].node.args[q] == built[j]
    {
      var r := lines[i].refs[q];
      assert visited[r] == visited[j];
      assert r == j;
    }
  }

  /**
   * A complete cycle keeps the shape of the records it relocates: the
   * records `built` now leads to are the records read, arguments relocated.
   */
  lemma ShapeRelocated(A0: seq<Cell>, A: seq<Cell>, L: set<Handle>, lo: nat, src: seq<Handle>,
                       built: seq<Handle>, built': seq<Handle>, lines: seq<Line>)
    requires Frame(A0, A, L, lo, |A0|, src) && Scanned(A0, A, lo, |A0|, src, |src|) && Closed(A0, L) && Sealed(A0, lo)
    requires forall y :: lo <= y < |A0| && A[y] != A0[y] ==> y in src
    requires Shape(A0, built, lines) && forall k :: 0 <= k < |built| ==> built[k] in L
    requires |built'| == |built|
    requires forall k :: 0 <= k < |built| ==> built'[k] == Fwd(A, lo, |A0|, built[k]) && Settled(A, lo, |A0|, built[k])
    ensures Shape(A, built', lines)
  {
    forall k | 0 <= k < |built|
      ensures built'[k] < |A| && A[built'[k]].Live? &&
              A[built'[k]].node.symbol == lines[k].symbol && A[built'[k]].node.unreduced &&
              A[built'[k]].node.otherFlags == 0 && |A[built'[k]].node.args| == |lines[k].refs| &&
              forall q :: 0 <= q < |lines[k].refs| ==>
                lines[k].refs[q] < |built'| && A[built'[k]].node.args[q] == built'[lines[k].refs[q]]
    {
      CopyMirrors(A0, A, L, lo, |A0|, src, built[k]);
    }
  }

  /** The handles of a frame whose slots are all set. */
  function Handles(slots: seq<Ref>): (r: seq<Handle>)
    requires forall q :: 0 <= q < |slots| ==> slots[q].Ptr?
    ensures |r| == |slots| && forall q :: 0 <= q < |r| ==> slots[q] == Ptr(r[q])
  {
    seq(|slots|, q requires 0 <= q < |slots| => slots[q].h)
  }

  function Refs(hs: seq<Handle>): (r: seq<Ref>)
    ensures |r| == |hs| && forall q :: 0 <= q < |r| ==> r[q] == Ptr(hs[q])
  {
    seq(|hs|, q requires 0 <= q < |hs| => Ptr(hs[q]))
  }

  /**
   * The collection inputGraph runs when the nursery is full, with the
   * records built so far held as the one stack frame, so that they survive
   * and `built'` is where they were moved to.
   */
  method CollectRooted(heap: Heap, built: seq<Handle>, ghost L: set<Handle>, ghost lines: seq<Line>)
    returns (ok: bool, built': seq<Handle>, ghost L': set<Handle>, ghost src: seq<Handle>, ghost w: Handle)
    requires heap.Valid() && heap.regs == [] && heap.frames == []
    requires Closed(heap.arena, L) && (forall k :: 0 <= k < |built| ==> built[k] in L) && Shape(heap.arena, built, lines)
    modifies heap
    ensures !ok ==> heap.CycleRanOut(old(heap.arena), L, old(heap.NextStart()), src, w) == true &&
                    heap.memNext == old(heap.memNext) && built' == built && L' == L
    ensures ok ==> heap.Valid() && heap.regs == [] && heap.frames == [] && heap.memNext == 0
    ensures ok ==> Closed(heap.arena, L') && (forall k :: 0 <= k < |built'| ==> built'[k] in L') && Shape(heap.arena, built', lines)
  {
    ghost var A0 := heap.arena;
    ghost var lo := if heap.curChunk + 1 < |heap.currentSpace| then heap.ephemeralStart else 0;
    var f;
    ok, f, src, w := CollectFrame(heap, Refs(built), L);
    if !ok {
      return ok, built, L, src, w;
    }
    L' := Survivors(L, lo, |A0|, src);
    built' := Handles(f);
    ShapeRelocated(A0, heap.arena, L, lo, src, built, built', lines);
  }

  /**
   * A collection with `roots` pushed as the one stack frame for its
   * duration: `f` is where the roots were moved to.
   */
  method CollectFrame(heap: Heap, roots: seq<Ref>, ghost L: set<Handle>)
    returns (ok: bool, f: seq<Ref>, ghost src: seq<Handle>, ghost w: Handle)
    requires heap.Valid() && heap.regs == [] && heap.frames == [] && Closed(heap.arena, L)
    requires forall q :: 0 <= q < |roots| ==> roots[q].Ptr? && roots[q].h in L
    modifies heap
    ensures !ok ==> heap.CycleRanOut(old(heap.arena), L, old(heap.NextStart()), src, w) == true &&
                    heap.memNext == old(heap.memNext)
    ensures ok ==> heap.Valid() && heap.regs == [] && heap.frames == [] && heap.memNext == 0
    ensures ok ==> var lo := if old(heap.curChunk + 1 < |heap.currentSpace|) then old(heap.ephemeralStart) else 0;
                   var A0 := old(heap.arena);
                   Frame(A0, heap.arena, L, lo, |A0|, src) && Scanned(A0, heap.arena, lo, |A0|, src, |src|) &&
                   Closed(heap.arena, Survivors(L, lo, |A0|, src)) && Sealed(A0, lo) &&
                   (forall y :: lo <= y < |A0| && heap.arena[y] != A0[y] ==> y in src) &&
                   RelocatedRoots(heap.arena, lo, |A0|, roots, f, |roots|) &&
                   forall q :: 0 <= q < |f| ==> f[q].Ptr? && f[q].h in Survivors(L, lo, |A0|, src)
  {
    f := roots;
    heap.frames := [roots];
    ok, src, w := heap.CollectGarbage(L);
    if ok {
      f := heap.frames[0];
      heap.frames := [];
    }
  }

  /** The arguments of the record for a line: the records built for the lines it refers to. */
  method Arguments(built: seq<Handle>, refs: seq<nat>) returns (args: seq<Handle>)
    requires forall q :: 0 <= q < |refs| ==> refs[q] < |built|
    ensures |args| == |refs| && forall q :: 0 <= q < |refs| ==> args[q] == built[refs[q]]
  {
    args := [];
    var q := 0;
    while q < |refs|
      invariant q <= |refs| && |args| == q
      invariant forall p :: 0 <= p < q ==> args[p] == built[refs[p]]
    {
      args := args + [built[refs[q]]];
      q := q + 1;
    }
  }

  /** The record read from line `i` extends the shape by one line. */
  lemma ShapeAppend(A: seq<Cell>, built: seq<Handle>, lines: seq<Line>, i: nat, n: Node)
    requires i < |lines| && Shape(A, built, lines[..i]) && RefersBack(lines, i)
    requires n.symbol == lines[i].symbol && n.unreduced && n.otherFlags == 0
    requires |n.args| == |lines[i].refs| && forall q :: 0 <= q < |n.args| ==> n.args[q] == built[lines[i].refs[q]]
    ensures Shape(A + [Live(n)], built + [|A|], lines[..i + 1])
  {
    var A' := A + [Live(n)];
    var built' := built + [|A|];
    var lines' := lines[..i + 1];
    forall k | 0 <= k < |built'|
      ensures built'[k] < |A'| && A'[built'[k]].Live? &&
              A'[built'[k]].node.symbol == lines'[k].symbol && A'[built'[k]].node.unreduced &&
              A'[built'[k]].node.otherFlags == 0 && |A'[built'[k]].node.args| == |lines'[k].refs| &&
              forall q :: 0 <= q < |lines'[k].refs| ==>
                lines'[k].refs[q] < |built'| && A'[built'[k]].node.args[q] == built'[lines'[k].refs[q]]
    {
      if k < i {
        assert lines'[k] == lines[..i][k];
        assert A'[built[k]] == A[built[k]];
      }
    }
  }

  /** The references of line `i` are to earlier lines. */
  predicate RefersBack(lines: seq<Line>, i: nat)
    requires i < |lines|
  {
    forall q :: 0 <= q < |lines[i].refs| ==> lines[i].refs[q] < i
  }

  /**
   * The collection inputGraph runs as written: the records built so far
   * are held only in a local vector, not in the registers or a stack frame,
   * so nothing roots them. The collector may then keep nothing: it
   * evacuates no record, no record of the nursery survives, and the
   * nursery's bytes are handed out again, while the lines still to be read
   * refer to the records built before.
   */
  method CollectAsWritten(heap: Heap) returns (ghost kept: set<Handle>)
    requires heap.Valid() && heap.regs == [] && heap.frames == []
    modifies heap
    ensures heap.Valid() && heap.memNext == 0 && heap.ephemeralStart == |heap.arena|
    ensures kept == {} && Closed(heap.arena, kept)
    ensures old(heap.curChunk + 1 < |heap.currentSpace|) ==>
              heap.arena == old(heap.arena) &&
              forall x :: old(heap.ephemeralStart) <= x < old(|heap.arena|) ==> x !in kept
  {
    ghost var A0 := heap.arena;
    ghost var lo := if heap.curChunk + 1 < |heap.currentSpace| then heap.ephemeralStart else 0;
    var ok;
    ghost var src, w;
    ok, src, w := heap.CollectGarbage({});
    if !ok {
      // A cycle runs out of room only on a live record it must keep.
      assert false;
    }
    kept := Survivors({}, lo, |A0|, src);
    if |src| > 0 {
      SourceIn(A0, heap.arena, {}, lo, |A0|, src, 0);
      assert false;
    }
    assert kept == {} by {
      assert Interval(|A0|, |A0|) == {};
    }
  }

  /**
   * One round of inputGraph: room is made in the nursery for the record of
   * line `i` (collecting first when it would overflow), and the record is
   * built from the records of the lines it refers to.
   */
  method ReadLine(heap: Heap, bs: seq<Handle>, ghost L: set<Handle>, lines: seq<Line>, i: nat)
    returns (ok: bool, bs': seq<Handle>, ghost L': set<Handle>, ghost src: seq<Handle>, ghost w: Handle)
    requires i < |lines| && WellFormed(heap.arity, lines)
    requires NODE_BYTES + PTR_BYTES * (heap.arity(lines[i].symbol) + 1) <= E_SIZE
    requires heap.Valid() && heap.regs == [] && heap.frames == []
    requires Closed(heap.arena, L) && (forall k :: 0 <= k < |bs| ==> bs[k] in L) && Shape(heap.arena, bs, lines[..i])
    modifies heap
    ensures !ok ==> old(heap.memNext) + NODE_BYTES + PTR_BYTES * (heap.arity(lines[i].symbol) + 1) > E_SIZE &&
                    heap.memNext == old(heap.memNext) && bs' == bs && L' == L &&
                    heap.CycleRanOut(old(heap.arena), L, old(heap.NextStart()), src, w) == true
    ensures ok ==> heap.Valid() && heap.regs == [] && heap.frames == []
    ensures ok ==> Closed(heap.arena, L') && (forall k :: 0 <= k < |bs'| ==> bs'[k] in L') && Shape(heap.arena, bs', lines[..i + 1])
    ensures ok ==> var nrBytes := NODE_BYTES + PTR_BYTES * (heap.arity(lines[i].symbol) + 1);
                   if old(heap.memNext) + nrBytes <= E_SIZE then
                     heap.memNext == old(heap.memNext) + nrBytes && |heap.arena| == old(|heap.arena|) + 1 &&
                     bs' == bs + [old(|heap.arena|)]
                   else heap.memNext == nrBytes
  {
    ok, bs', L', src, w := true, bs, L, [], 0;
    var symbol := lines[i].symbol;
    var nrArgs := heap.arity(symbol);
    var nrBytes := NODE_BYTES + PTR_BYTES * (nrArgs + 1);
    if heap.memNext + nrBytes > E_SIZE {
      ok, bs', L', src, w := CollectRooted(heap, bs, L, lines[..i]);
      if !ok {
        return;
      }
    }
    bs', L' := AllocateLine(heap, bs', L', lines, i, nrBytes);
  }

  /** The record of line `i`, allocated in a nursery that has room for it. */
  method AllocateLine(heap: Heap, bs: seq<Handle>, ghost L: set<Handle>, lines: seq<Line>, i: nat, nrBytes: nat)
    returns (bs': seq<Handle>, ghost L': set<Handle>)
    requires i < |lines| && WellFormed(heap.arity, lines)
    requires nrBytes == NODE_BYTES + PTR_BYTES * (heap.arity(lines[i].symbol) + 1) && heap.memNext + nrBytes <= E_SIZE
    requires heap.Valid() && heap.regs == [] && heap.frames == []
    requires Closed(heap.arena, L) && (forall k :: 0 <= k < |bs| ==> bs[k] in L) && Shape(heap.arena, bs, lines[..i])
    modifies heap
    ensures heap.Valid() && heap.regs == [] && heap.frames == []
    ensures Closed(heap.arena, L') && (forall k :: 0 <= k < |bs'| ==> bs'[k] in L') && Shape(heap.arena, bs', lines[..i + 1])
    ensures heap.memNext == old(heap.memNext) + nrBytes && |heap.arena| == old(|heap.arena|) + 1
    ensures bs' == bs + [old(|heap.arena|)]
  {
    var args := Arguments(bs, lines[i].refs);
    var n := Node(lines[i].symbol, true, 0, 0, args, 0);
    ShapeAppend(heap.arena, bs, lines, i, n);
    var r := heap.Allocate(n, nrBytes);
    L' := L + {r};
    bs' := bs + [r];
  }

  /**
   * inputGraph over lines already read: one nursery record per line,
   * flagged UNREDUCED and sized for its arguments and the extra slot; the
   * result is the record of the last line.
   */
  method InputGraph(heap: Heap, lines: seq<Line>)
    returns (ok: bool, root: Handle, ghost built: seq<Handle>, ghost L: set<Handle>,
             ghost A0: seq<Cell>, ghost st: Start, ghost src: seq<Handle>, ghost w: Handle)
    requires heap.Valid() && heap.regs == [] && heap.frames == []
    requires |lines| > 0 && WellFormed(heap.arity, lines)
    requires forall i :: 0 <= i < |lines| ==> NODE_BYTES + PTR_BYTES * (heap.arity(lines[i].symbol) + 1) <= E_SIZE
    modifies heap
    ensures !ok ==> |built| < |lines| && Shape(A0, built, lines[..|built|]) &&
                    Closed(A0, L) && (forall k :: 0 <= k < |built| ==> built[k] in L) &&
                    heap.memNext + NODE_BYTES + PTR_BYTES * (heap.arity(lines[|built|].symbol) + 1) > E_SIZE &&
                    heap.CycleRanOut(A0, L, st, src, w) == true
    ensures ok ==> heap.Valid() && heap.regs == [] && heap.frames == []
    ensures ok ==> Shape(heap.arena, built, lines) && root == built[|built| - 1]
    ensures ok ==> Closed(heap.arena, L) && forall k :: 0 <= k < |built| ==> built[k] in L
  {
    var bs: seq<Handle> := [];
    L := {};
    var i := 0;
    while i < |lines|
      invariant i <= |lines| && heap.Valid() && heap.regs == [] && heap.frames == []
      invariant Closed(heap.arena, L) && (forall k :: 0 <= k < |bs| ==> bs[k] in L) && Shape(heap.arena, bs, lines[..i])
    {
      A0, st := heap.arena, heap.NextStart();
      ok, bs, L, src, w := ReadLine(heap, bs, L, lines, i);
      if !ok {
        return ok, 0, bs, L, A0, st, src, w;
      }
      i := i + 1;
    }
    assert lines[..i] == lines;
    ok, root, built := true, bs[|bs| - 1], bs;
    A0, st, src, w := heap.arena, heap.NextStart(), [], 0;
  }
}
