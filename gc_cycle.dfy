/**
 * The invariants of one collection cycle of the copying collector
 * (FullCompiler/runtimeNew.cc), stated over arena values.
 *
 * A cycle copies out of a from-space, the handle range [lo, ee): the
 * nursery for an ephemeral collection, everything for a full one. `A0` is
 * the arena when the cycle starts (`ee == |A0|`), `A` the arena now, and
 * `src` lists, in copying order, the records evacuated so far: the copy of
 * `src[t]` is the record at handle `ee + t`.
 */
module GcCycle {
  import opened GcRecords

  /** Where a pointer leads once the cycle is over: the copy of an evacuated from-space record, else itself. */
  function Fwd(A: seq<Cell>, lo: nat, ee: nat, x: Handle): Handle
  {
    if lo <= x < ee && x < |A| && A[x].Forwarded? then A[x].to else x
  }

  function FwdRef(A: seq<Cell>, lo: nat, ee: nat, r: Ref): Ref
  {
    if r.Null? then Null else Ptr(Fwd(A, lo, ee, r.h))
  }

  /** `x` either lies outside the from-space or has been evacuated. */
  ghost predicate Settled(A: seq<Cell>, lo: nat, ee: nat, x: Handle)
  {
    lo <= x < ee ==> x < |A| && A[x].Forwarded?
  }

  /**
   * `n` is `n0` with the same header and extra slot, its first `j` argument
   * pointers relocated (their targets settled) and the others untouched.
   */
  ghost predicate RelocatedUpTo(A: seq<Cell>, lo: nat, ee: nat, n0: Node, n: Node, j: nat)
  {
    n.(args := n0.args) == n0 && |n.args| == |n0.args| && j <= |n0.args| &&
    (forall q :: 0 <= q < j ==> n.args[q] == Fwd(A, lo, ee, n0.args[q]) && Settled(A, lo, ee, n0.args[q])) &&
    (forall q :: j <= q < |n.args| ==> n.args[q] == n0.args[q])
  }

  /** A closed set of live records: each is live and its arguments are in the set. */
  ghost predicate Closed(A: seq<Cell>, L: set<Handle>)
  {
    forall h :: h in L ==> h < |A| && A[h].Live? && forall a :: a in A[h].node.args ==> a in L
  }

  /** No record below `lo` points at or above `lo`: the old heap never points into the nursery. */
  ghost predicate Sealed(A: seq<Cell>, lo: nat)
  {
    forall h :: 0 <= h < lo && h < |A| ==> forall a :: a in A[h].node.args ==> a < lo
  }

  /**
   * What the cycle has done to the cells below `ee`: each is unchanged, or
   * was a live from-space record of `L` and is now forwarded to its copy;
   * and `src` lists exactly the records forwarded, each to `ee + t`.
   */
  ghost predicate Frame(A0: seq<Cell>, A: seq<Cell>, L: set<Handle>, lo: nat, ee: nat, src: seq<Handle>)
  {
    |A0| == ee && |A| == ee + |src| &&
    (forall h :: 0 <= h < ee ==>
       A[h] == A0[h] ||
       (lo <= h && A0[h].Live? && A[h].Forwarded? && A[h] == Forwarded(A0[h].node, A[h].to) &&
        ee <= A[h].to < |A|)) &&
    (forall t :: 0 <= t < |src| ==>
       lo <= src[t] < ee && src[t] in L && A0[src[t]].Live? && A[src[t]] == Forwarded(A0[src[t]].node, ee + t))
  }

  /** The copies from position `p` on are still verbatim copies of their originals. */
  ghost predicate Pending(A0: seq<Cell>, A: seq<Cell>, ee: nat, src: seq<Handle>, p: nat)
  {
    forall t :: p <= t < |src| && ee + t < |A| ==> src[t] < |A0| && A[ee + t] == A0[src[t]]
  }

  /** The first `s` copies have been scanned: every argument pointer relocated. */
  ghost predicate Scanned(A0: seq<Cell>, A: seq<Cell>, lo: nat, ee: nat, src: seq<Handle>, s: nat)
  {
    forall t :: 0 <= t < s && t < |src| && ee + t < |A| ==>
      src[t] < |A0| && A[ee + t].Live? &&
      RelocatedUpTo(A, lo, ee, A0[src[t]].node, A[ee + t].node, |A0[src[t]].node.args|)
  }

  /** The slots of the copies, in copying order: what the chunks hold from the copy start on. */
  ghost function LaidSlots(arity: nat -> nat, A0: seq<Cell>, ee: nat, src: seq<Handle>): seq<Slot>
  {
    seq(|src|, t requires 0 <= t < |src| =>
      Slot(ee + t, if src[t] < |A0| then RecordBytes(arity, A0[src[t]].node) else 0))
  }

  /** The number of live cells in [lo, hi). */
  function CountLive(A: seq<Cell>, lo: nat, hi: nat): nat
    decreases hi
  {
    if hi <= lo then 0
    else CountLive(A, lo, hi - 1) + (if hi - 1 < |A| && A[hi - 1].Live? then 1 else 0)
  }

  /** The records a cycle leaves live: survivors outside the from-space, and the copies. */
  ghost function Survivors(L: set<Handle>, lo: nat, ee: nat, src: seq<Handle>): set<Handle>
  {
    (set x | x in L && !(lo <= x < ee)) + Interval(ee, ee + |src|)
  }

  /** The handles in [a, b). */
  ghost function Interval(a: nat, b: nat): (r: set<Handle>)
    ensures forall x :: x in r <==> a <= x < b
    decreases b
  {
    if b <= a then {} else Interval(a, b - 1) + {b - 1}
  }

  /** The arena after evacuating the live cell `h` to a fresh copy at the end. */
  function Evacuated(A: seq<Cell>, h: Handle): seq<Cell>
    requires h < |A|
  {
    A[h := Forwarded(A[h].node, |A|)] + [A[h]]
  }

  lemma CountAppend(A: seq<Cell>, x: Cell, lo: nat, hi: nat)
    requires hi <= |A|
    ensures CountLive(A + [x], lo, hi) == CountLive(A, lo, hi)
    decreases hi
  {
    if hi > lo {
      CountAppend(A, x, lo, hi - 1);
    }
  }

  lemma {:induction false} CountForward(A: seq<Cell>, h: Handle, c: Cell, lo: nat, hi: nat)
    requires lo <= h < hi <= |A| && A[h].Live? && !c.Live?
    ensures CountLive(A[h := c], lo, hi) == CountLive(A, lo, hi) - 1
    decreases hi
  {
    if hi - 1 == h {
      CountSame(A, A[h := c], lo, h);
    } else {
      CountForward(A, h, c, lo, hi - 1);
    }
  }

  lemma {:induction false} CountSame(A: seq<Cell>, B: seq<Cell>, lo: nat, hi: nat)
    requires hi <= |A| && hi <= |B| && forall i :: 0 <= i < hi ==> A[i] == B[i]
    ensures CountLive(A, lo, hi) == CountLive(B, lo, hi)
    decreases hi
  {
    if hi > lo {
      CountSame(A, B, lo, hi - 1);
    }
  }

  /** Evacuating one more record leaves every settled pointer where it leads. */
  lemma FwdStable(A: seq<Cell>, lo: nat, ee: nat, h: Handle, x: Handle)
    requires lo <= h < ee <= |A| && A[h].Live? && Settled(A, lo, ee, x)
    ensures Fwd(Evacuated(A, h), lo, ee, x) == Fwd(A, lo, ee, x)
    ensures Settled(Evacuated(A, h), lo, ee, x)
  {
  }

  lemma RelocatedStable(A: seq<Cell>, lo: nat, ee: nat, h: Handle, n0: Node, n: Node, j: nat)
    requires lo <= h < ee <= |A| && A[h].Live? && RelocatedUpTo(A, lo, ee, n0, n, j)
    ensures RelocatedUpTo(Evacuated(A, h), lo, ee, n0, n, j)
  {
    forall q | 0 <= q < j
      ensures n.args[q] == Fwd(Evacuated(A, h), lo, ee, n0.args[q]) && Settled(Evacuated(A, h), lo, ee, n0.args[q])
    {
      FwdStable(A, lo, ee, h, n0.args[q]);
    }
  }

  lemma FrameStep(A0: seq<Cell>, A: seq<Cell>, L: set<Handle>, lo: nat, ee: nat, src: seq<Handle>, h: Handle)
    requires Frame(A0, A, L, lo, ee, src)
    requires lo <= h < ee && h in L && A[h].Live?
    ensures A[h] == A0[h]
    ensures Frame(A0, Evacuated(A, h), L, lo, ee, src + [h])
  {
    var A' := Evacuated(A, h);
    var src' := src + [h];
    forall x | 0 <= x < ee
      ensures A'[x] == A0[x] ||
              (lo <= x && A0[x].Live? && A'[x].Forwarded? && A'[x] == Forwarded(A0[x].node, A'[x].to) &&
               ee <= A'[x].to < |A'|)
    {
      if x != h {
        assert A'[x] == A[x];
      }
    }
    forall t | 0 <= t < |src'|
      ensures lo <= src'[t] < ee && src'[t] in L && A0[src'[t]].Live? &&
              A'[src'[t]] == Forwarded(A0[src'[t]].node, ee + t)
    {
      if t < |src| {
        assert src'[t] == src[t] && src[t] != h;
      }
    }
  }

  lemma ScannedStep(A0: seq<Cell>, A: seq<Cell>, lo: nat, ee: nat, src: seq<Handle>, s: nat, h: Handle)
    requires |A| == ee + |src| && s <= |src| && Scanned(A0, A, lo, ee, src, s)
    requires lo <= h < ee && A[h].Live?
    ensures Scanned(A0, Evacuated(A, h), lo, ee, src + [h], s)
  {
    var A' := Evacuated(A, h);
    var src' := src + [h];
    forall t | 0 <= t < s && t < |src'| && ee + t < |A'|
      ensures src'[t] < |A0| && A'[ee + t].Live? &&
              RelocatedUpTo(A', lo, ee, A0[src'[t]].node, A'[ee + t].node, |A0[src'[t]].node.args|)
    {
      assert A'[ee + t] == A[ee + t] && src'[t] == src[t];
      RelocatedStable(A, lo, ee, h, A0[src[t]].node, A[ee + t].node, |A0[src[t]].node.args|);
    }
  }

  lemma PendingStep(A0: seq<Cell>, A: seq<Cell>, ee: nat, src: seq<Handle>, p: nat, h: Handle)
    requires |A| == ee + |src| && p <= |src| && Pending(A0, A, ee, src, p)
    requires h < ee && h < |A0| && A[h] == A0[h]
    ensures Pending(A0, Evacuated(A, h), ee, src + [h], p)
  {
    var A' := Evacuated(A, h);
    var src' := src + [h];
    forall t | p <= t < |src'| && ee + t < |A'|
      ensures src'[t] < |A0| && A'[ee + t] == A0[src'[t]]
    {
      if t < |src| {
        assert A'[ee + t] == A[ee + t] && src'[t] == src[t];
      } else {
        assert ee + t == |A| && src'[t] == h && A'[ee + t] == A[h];
      }
    }
  }

  lemma LaidStep(arity: nat -> nat, A0: seq<Cell>, ee: nat, src: seq<Handle>, h: Handle)
    requires h < |A0|
    ensures LaidSlots(arity, A0, ee, src + [h]) ==
            LaidSlots(arity, A0, ee, src) + [Slot(ee + |src|, RecordBytes(arity, A0[h].node))]
  {
  }

  /**
   * Evacuating a live from-space record of `L` extends `src` by it and keeps
   * every invariant of the cycle; the new slot is the copy's, and one fewer
   * from-space record is live.
   */
  lemma EvacuateStep(arity: nat -> nat, A0: seq<Cell>, A: seq<Cell>, L: set<Handle>, lo: nat, ee: nat,
                     src: seq<Handle>, s: nat, p: nat, h: Handle)
    requires Frame(A0, A, L, lo, ee, src) && s <= |src| && p <= |src|
    requires Scanned(A0, A, lo, ee, src, s) && Pending(A0, A, ee, src, p)
    requires lo <= h < ee && h in L && A[h].Live?
    ensures A[h] == A0[h]
    ensures Frame(A0, Evacuated(A, h), L, lo, ee, src + [h])
    ensures Scanned(A0, Evacuated(A, h), lo, ee, src + [h], s)
    ensures Pending(A0, Evacuated(A, h), ee, src + [h], p)
    ensures LaidSlots(arity, A0, ee, src + [h]) ==
            LaidSlots(arity, A0, ee, src) + [Slot(|A|, RecordBytes(arity, A[h].node))]
    ensures CountLive(Evacuated(A, h), lo, ee) == CountLive(A, lo, ee) - 1
  {
    FrameStep(A0, A, L, lo, ee, src, h);
    ScannedStep(A0, A, lo, ee, src, s, h);
    PendingStep(A0, A, ee, src, p, h);
    LaidStep(arity, A0, ee, src, h);
    CountForward(A, h, Forwarded(A[h].node, |A|), lo, ee);
    CountAppend(A[h := Forwarded(A[h].node, |A|)], A[h], lo, ee);
  }

  /**
   * Once every copy is scanned, the survivors form a closed set that lies
   * wholly outside the from-space: no surviving record points at a record
   * the cycle has retired.
   */
  lemma {:induction false} SurvivorsClosed(A0: seq<Cell>, A: seq<Cell>, L: set<Handle>, lo: nat, ee: nat, src: seq<Handle>)
    requires Frame(A0, A, L, lo, ee, src) && Scanned(A0, A, lo, ee, src, |src|)
    requires Closed(A0, L) && Sealed(A0, lo)
    ensures Closed(A, Survivors(L, lo, ee, src))
    ensures forall x :: x in Survivors(L, lo, ee, src) ==> !(lo <= x < ee)
  {
    var S := Survivors(L, lo, ee, src);
    forall x | x in S
      ensures x < |A| && A[x].Live? && forall a :: a in A[x].node.args ==> a in S
    {
      if x in L && !(lo <= x < ee) {
        assert x < lo;
        assert A[x] == A0[x];
        forall a | a in A[x].node.args
          ensures a in S
        {
          assert a in L && a < lo;
        }
      } else {
        var t := x - ee;
        var n0 := A0[src[t]].node;
        assert RelocatedUpTo(A, lo, ee, n0, A[x].node, |n0.args|);
        forall a | a in A[x].node.args
          ensures a in S
        {
          var q :| 0 <= q < |A[x].node.args| && A[x].node.args[q] == a;
          var a0 := n0.args[q];
          assert a0 in L;
          if lo <= a0 < ee {
            assert A[a0] != A0[a0];
            assert ee <= a < ee + |src|;
          } else {
            assert a == a0;
          }
        }
      }
    }
  }

  /** A root that is in `L` and settled leads, after the cycle, to a survivor. */
  lemma RootSurvives(A0: seq<Cell>, A: seq<Cell>, L: set<Handle>, lo: nat, ee: nat, src: seq<Handle>, r: Handle)
    requires Frame(A0, A, L, lo, ee, src) && Closed(A0, L) && r in L && Settled(A, lo, ee, r)
    ensures Fwd(A, lo, ee, r) in Survivors(L, lo, ee, src)
  {
    if lo <= r < ee {
      assert A[r] != A0[r];
      assert ee <= Fwd(A, lo, ee, r) < ee + |src|;
    }
  }

  /** Every record has its symbol's shape, fits in a chunk, and points only at records of the arena. */
  ghost predicate WellShaped(arity: nat -> nat, A: seq<Cell>)
  {
    forall h :: 0 <= h < |A| ==>
      |A[h].node.args| == arity(A[h].node.symbol) && RecordBytes(arity, A[h].node) <= CHUNK_SIZE &&
      forall a :: a in A[h].node.args ==> a < |A|
  }

  /** Pointers of a well-shaped arena stay within it, so nothing points past its end. */
  lemma SealedWhole(arity: nat -> nat, A: seq<Cell>)
    requires WellShaped(arity, A)
    ensures Sealed(A, |A|)
  {
  }

  /** Forwarding is permanent: whatever was settled stays settled and keeps its target. */
  ghost predicate Extends(A: seq<Cell>, B: seq<Cell>, lo: nat, ee: nat)
  {
    forall x :: Settled(A, lo, ee, x) ==> Settled(B, lo, ee, x) && Fwd(B, lo, ee, x) == Fwd(A, lo, ee, x)
  }

  lemma ExtendsEvacuated(A: seq<Cell>, lo: nat, ee: nat, h: Handle)
    requires lo <= h < ee <= |A| && A[h].Live?
    ensures Extends(A, Evacuated(A, h), lo, ee)
  {
    forall x | Settled(A, lo, ee, x)
      ensures Settled(Evacuated(A, h), lo, ee, x) && Fwd(Evacuated(A, h), lo, ee, x) == Fwd(A, lo, ee, x)
    {
      FwdStable(A, lo, ee, h, x);
    }
  }

  lemma ExtendsTrans(A: seq<Cell>, B: seq<Cell>, C: seq<Cell>, lo: nat, ee: nat)
    requires Extends(A, B, lo, ee) && Extends(B, C, lo, ee)
    ensures Extends(A, C, lo, ee)
  {
  }

  /**
   * Writing the copy at `ee + s` (the one being scanned) touches no
   * from-space cell: the cycle's frame, the other copies, the count of live
   * from-space records and every forwarding stay as they were.
   */
  lemma CopyWriteKeeps(A0: seq<Cell>, A: seq<Cell>, L: set<Handle>, lo: nat, ee: nat, src: seq<Handle>, s: nat, cell: Cell)
    requires Frame(A0, A, L, lo, ee, src) && s < |src|
    requires Scanned(A0, A, lo, ee, src, s) && Pending(A0, A, ee, src, s + 1)
    ensures Frame(A0, A[ee + s := cell], L, lo, ee, src)
    ensures Scanned(A0, A[ee + s := cell], lo, ee, src, s) && Pending(A0, A[ee + s := cell], ee, src, s + 1)
    ensures CountLive(A[ee + s := cell], lo, ee) == CountLive(A, lo, ee)
    ensures forall x :: Fwd(A[ee + s := cell], lo, ee, x) == Fwd(A, lo, ee, x)
    ensures forall x :: Settled(A[ee + s := cell], lo, ee, x) == Settled(A, lo, ee, x)
    ensures Extends(A, A[ee + s := cell], lo, ee)
  {
    var A' := A[ee + s := cell];
    forall h | 0 <= h < ee
      ensures A'[h] == A[h]
    {
    }
    assert Frame(A0, A', L, lo, ee, src);
    forall x | ee + s + 1 <= x < |A|
      ensures A'[x] == A[x]
    {
    }
    forall x ensures Fwd(A', lo, ee, x) == Fwd(A, lo, ee, x) && Settled(A', lo, ee, x) == Settled(A, lo, ee, x) {
    }
    forall t | 0 <= t < s && t < |src| && ee + t < |A'|
      ensures src[t] < |A0| && A'[ee + t].Live? &&
              RelocatedUpTo(A', lo, ee, A0[src[t]].node, A'[ee + t].node, |A0[src[t]].node.args|)
    {
      var n0 := A0[src[t]].node;
      var n := A[ee + t].node;
      assert A'[ee + t] == A[ee + t];
      assert RelocatedUpTo(A, lo, ee, n0, n, |n0.args|);
      forall q | 0 <= q < |n0.args|
        ensures n.args[q] == Fwd(A', lo, ee, n0.args[q]) && Settled(A', lo, ee, n0.args[q])
      {
      }
    }
    CountSame(A, A', lo, ee);
  }

  /** Relocating argument `j` of the copy being scanned extends its relocated prefix by one. */
  lemma RelocateArg(A: seq<Cell>, lo: nat, ee: nat, n0: Node, n: Node, j: nat, r: Handle)
    requires RelocatedUpTo(A, lo, ee, n0, n, j) && j < |n.args|
    requires r == Fwd(A, lo, ee, n0.args[j]) && Settled(A, lo, ee, n0.args[j])
    ensures RelocatedUpTo(A, lo, ee, n0, n.(args := n.args[j := r]), j + 1)
  {
  }

  /** A relocated prefix stays relocated while forwarding only grows. */
  lemma RelocatedExtend(A: seq<Cell>, B: seq<Cell>, lo: nat, ee: nat, n0: Node, n: Node, j: nat)
    requires RelocatedUpTo(A, lo, ee, n0, n, j) && Extends(A, B, lo, ee)
    ensures RelocatedUpTo(B, lo, ee, n0, n, j)
  {
    forall q | 0 <= q < j
      ensures n.args[q] == Fwd(B, lo, ee, n0.args[q]) && Settled(B, lo, ee, n0.args[q])
    {
      assert Settled(A, lo, ee, n0.args[q]);
    }
  }

  /**
   * Storing the relocated argument `j` into the copy being scanned (the
   * `s`-th, at `ee + s`): the cycle's invariants hold of the new arena and
   * one more argument of the copy is relocated.
   */
  lemma ScanArgWrite(A0: seq<Cell>, A: seq<Cell>, L: set<Handle>, lo: nat, ee: nat, src: seq<Handle>, s: nat,
                     n0: Node, n: Node, j: nat, r: Handle, X: seq<Cell>, c: Handle, cell: Cell)
    requires Frame(A0, A, L, lo, ee, src) && s < |src| && c == ee + s
    requires Scanned(A0, A, lo, ee, src, s) && Pending(A0, A, ee, src, s + 1)
    requires RelocatedUpTo(A, lo, ee, n0, n, j) && j < |n.args| && Extends(X, A, lo, ee)
    requires r == Fwd(A, lo, ee, n0.args[j]) && Settled(A, lo, ee, n0.args[j])
    requires cell == Live(n.(args := n.args[j := r]))
    ensures Frame(A0, A[c := cell], L, lo, ee, src)
    ensures Scanned(A0, A[c := cell], lo, ee, src, s) && Pending(A0, A[c := cell], ee, src, s + 1)
    ensures CountLive(A[c := cell], lo, ee) == CountLive(A, lo, ee)
    ensures RelocatedUpTo(A[c := cell], lo, ee, n0, cell.node, j + 1)
    ensures Extends(X, A[c := cell], lo, ee)
  {
    RelocateArg(A, lo, ee, n0, n, j, r);
    CopyWriteKeeps(A0, A, L, lo, ee, src, s, cell);
    RelocatedExtend(A, A[c := cell], lo, ee, n0, cell.node, j + 1);
    ExtendsTrans(X, A, A[c := cell], lo, ee);
  }

  /** Once every argument of copy `s` is relocated, the first `s + 1` copies are scanned. */
  lemma ScannedNext(A0: seq<Cell>, A: seq<Cell>, lo: nat, ee: nat, src: seq<Handle>, s: nat)
    requires Scanned(A0, A, lo, ee, src, s) && s < |src| && src[s] < |A0| && ee + s < |A| && A[ee + s].Live?
    requires RelocatedUpTo(A, lo, ee, A0[src[s]].node, A[ee + s].node, |A0[src[s]].node.args|)
    ensures Scanned(A0, A, lo, ee, src, s + 1)
  {
    forall t | 0 <= t < s + 1 && t < |src| && ee + t < |A|
      ensures src[t] < |A0| && A[ee + t].Live? &&
              RelocatedUpTo(A, lo, ee, A0[src[t]].node, A[ee + t].node, |A0[src[t]].node.args|)
    {
      if t == s {
        assert src[t] == src[s] && A[ee + t] == A[ee + s];
      }
    }
  }

  /** Stepping over the slot of copy `s` leaves the slots of the copies after it. */
  lemma RemAdvance(arity: nat -> nat, chunks: seq<seq<Slot>>, cs: seq<nat>, i: nat, k: nat, last: nat,
                   A0: seq<Cell>, ee: nat, src: seq<Handle>, s: nat)
    requires i <= last < |cs| && BlocksIn(chunks, cs) && k < |chunks[cs[i]]| && s <= |src|
    requires Rem(chunks, cs, i, k, last) == LaidSlots(arity, A0, ee, src)[s..]
    ensures s < |src| && Rem(chunks, cs, i, k + 1, last) == LaidSlots(arity, A0, ee, src)[s + 1..]
    ensures chunks[cs[i]][k] == LaidSlots(arity, A0, ee, src)[s]
  {
    RemStep(chunks, cs, i, k, last);
    var laid := LaidSlots(arity, A0, ee, src);
    assert laid[s..] == [laid[s]] + laid[s + 1..];
  }

  /**
   * The scan of a chunk has reached the end of its used part exactly when
   * it has stepped over every slot: each remaining slot is a copy's, and
   * every record takes some bytes.
   */
  lemma ScanStop(arity: nat -> nat, chunks: seq<seq<Slot>>, cs: seq<nat>, i: nat, k: nat, last: nat,
                 A0: seq<Cell>, ee: nat, src: seq<Handle>, s: nat)
    requires i <= last < |cs| && BlocksIn(chunks, cs) && k <= |chunks[cs[i]]| && s <= |src|
    requires Rem(chunks, cs, i, k, last) == LaidSlots(arity, A0, ee, src)[s..]
    requires forall t :: 0 <= t < |src| ==> src[t] < |A0|
    ensures Fill(chunks[cs[i]][..k]) == Fill(chunks[cs[i]]) <==> k == |chunks[cs[i]]|
  {
    var chunk := chunks[cs[i]];
    assert chunk[..|chunk|] == chunk;
    if k < |chunk| {
      FillPrefix(chunk, k);
      RemAdvance(arity, chunks, cs, i, k, last, A0, ee, src, s);
    }
  }

  /** A settled root after the cycle: `FwdRef` of its old value. */
  ghost predicate SettledRef(A: seq<Cell>, lo: nat, ee: nat, r: Ref)
  {
    r.Ptr? ==> Settled(A, lo, ee, r.h)
  }

  /** The first `upTo` root slots of `news` are the relocated `olds`; the rest are untouched. */
  ghost predicate RelocatedRoots(A: seq<Cell>, lo: nat, ee: nat, olds: seq<Ref>, news: seq<Ref>, upTo: nat)
  {
    |news| == |olds| && upTo <= |olds| &&
    (forall q :: 0 <= q < upTo ==> news[q] == FwdRef(A, lo, ee, olds[q]) && SettledRef(A, lo, ee, olds[q])) &&
    (forall q :: upTo <= q < |olds| ==> news[q] == olds[q])
  }

  lemma RelocatedRootsExtend(A: seq<Cell>, B: seq<Cell>, lo: nat, ee: nat, olds: seq<Ref>, news: seq<Ref>, upTo: nat)
    requires RelocatedRoots(A, lo, ee, olds, news, upTo) && Extends(A, B, lo, ee)
    ensures RelocatedRoots(B, lo, ee, olds, news, upTo)
  {
    forall q | 0 <= q < upTo
      ensures news[q] == FwdRef(B, lo, ee, olds[q]) && SettledRef(B, lo, ee, olds[q])
    {
      if olds[q].Ptr? {
        assert Settled(A, lo, ee, olds[q].h);
      }
    }
  }

  /** The first `upTo` frames of `olds` are relocated in `news`; the others are untouched. */
  ghost predicate RelocatedFrames(A: seq<Cell>, lo: nat, ee: nat, olds: seq<seq<Ref>>, news: seq<seq<Ref>>, upTo: nat)
  {
    |news| == |olds| && upTo <= |olds| &&
    (forall f :: 0 <= f < upTo ==> RelocatedRoots(A, lo, ee, olds[f], news[f], |olds[f]|)) &&
    (forall f :: upTo <= f < |olds| ==> news[f] == olds[f])
  }

  lemma RelocatedFramesExtend(A: seq<Cell>, B: seq<Cell>, lo: nat, ee: nat, olds: seq<seq<Ref>>, news: seq<seq<Ref>>,
                              upTo: nat)
    requires RelocatedFrames(A, lo, ee, olds, news, upTo) && Extends(A, B, lo, ee)
    ensures RelocatedFrames(B, lo, ee, olds, news, upTo)
  {
    forall f | 0 <= f < upTo
      ensures RelocatedRoots(B, lo, ee, olds[f], news[f], |olds[f]|)
    {
      RelocatedRootsExtend(A, B, lo, ee, olds[f], news[f], |olds[f]|);
    }
  }

  /** Relocating frame `f` extends the relocated prefix of frames by one. */
  lemma RelocatedFramesNext(A: seq<Cell>, lo: nat, ee: nat, olds: seq<seq<Ref>>, news: seq<seq<Ref>>, f: nat,
                            slots: seq<Ref>)
    requires RelocatedFrames(A, lo, ee, olds, news, f) && f < |olds|
    requires RelocatedRoots(A, lo, ee, olds[f], slots, |olds[f]|)
    ensures RelocatedFrames(A, lo, ee, olds, news[f := slots], f + 1)
  {
  }

  /** Relocating root slot `q` extends the relocated prefix by one. */
  lemma RelocatedRootsNext(A: seq<Cell>, lo: nat, ee: nat, olds: seq<Ref>, news: seq<Ref>, q: nat, r: Ref)
    requires RelocatedRoots(A, lo, ee, olds, news, q) && q < |olds|
    requires r == FwdRef(A, lo, ee, olds[q]) && SettledRef(A, lo, ee, olds[q])
    ensures RelocatedRoots(A, lo, ee, olds, news[q := r], q + 1)
  {
  }

  /** After a cycle that has scanned every copy, the arena is still well shaped. */
  lemma WellShapedAfter(arity: nat -> nat, A0: seq<Cell>, A: seq<Cell>, L: set<Handle>, lo: nat, ee: nat, src: seq<Handle>)
    requires Frame(A0, A, L, lo, ee, src) && Scanned(A0, A, lo, ee, src, |src|)
    requires WellShaped(arity, A0) && Closed(A0, L)
    ensures WellShaped(arity, A)
  {
    forall h | 0 <= h < |A|
      ensures |A[h].node.args| == arity(A[h].node.symbol) && RecordBytes(arity, A[h].node) <= CHUNK_SIZE &&
              forall a :: a in A[h].node.args ==> a < |A|
    {
      if h < ee {
        assert A[h].node == A0[h].node;
      } else {
        var t := h - ee;
        var n0 := A0[src[t]].node;
        var n := A[h].node;
        assert RelocatedUpTo(A, lo, ee, n0, n, |n0.args|);
        assert n.symbol == n0.symbol && n.unreduced == n0.unreduced;
        forall a | a in n.args
          ensures a < |A|
        {
          var q :| 0 <= q < |n.args| && n.args[q] == a;
          var a0 := n0.args[q];
          assert a0 in n0.args && a0 in L;
          if lo <= a0 < ee {
            assert A[a0] != A0[a0];
          }
        }
      }
    }
  }

  /** Relocated roots that were in `L` lead to survivors. */
  lemma RootsSurvive(A0: seq<Cell>, A: seq<Cell>, L: set<Handle>, lo: nat, ee: nat, src: seq<Handle>,
                     olds: seq<Ref>, news: seq<Ref>)
    requires Frame(A0, A, L, lo, ee, src) && Closed(A0, L)
    requires RelocatedRoots(A, lo, ee, olds, news, |olds|)
    requires forall q :: 0 <= q < |olds| && olds[q].Ptr? ==> olds[q].h in L
    ensures forall q :: 0 <= q < |news| && news[q].Ptr? ==> news[q].h in Survivors(L, lo, ee, src)
  {
    forall q | 0 <= q < |news| && news[q].Ptr?
      ensures news[q].h in Survivors(L, lo, ee, src)
    {
      RootSurvives(A0, A, L, lo, ee, src, olds[q].h);
    }
  }

  /** The cells of `[lo, hi)` a cycle has changed. */
  ghost function Moved(A0: seq<Cell>, A: seq<Cell>, lo: nat, hi: nat): set<Handle>
  {
    set h | lo <= h < hi && h < |A0| && h < |A| && A[h] != A0[h]
  }

  /** Every changed cell went from live to forwarded, so the live count drops by the number changed. */
  lemma {:induction false} CountMoved(A0: seq<Cell>, A: seq<Cell>, L: set<Handle>, lo: nat, ee: nat, src: seq<Handle>, hi: nat)
    requires Frame(A0, A, L, lo, ee, src) && hi <= ee
    ensures CountLive(A0, lo, hi) == CountLive(A, lo, hi) + |Moved(A0, A, lo, hi)|
    decreases hi
  {
    if hi <= lo {
      assert Moved(A0, A, lo, hi) == {};
    } else {
      CountMoved(A0, A, L, lo, ee, src, hi - 1);
      var h := hi - 1;
      if A[h] == A0[h] {
        assert Moved(A0, A, lo, hi) == Moved(A0, A, lo, h);
      } else {
        assert Moved(A0, A, lo, hi) == Moved(A0, A, lo, h) + {h};
      }
    }
  }

  /** A sequence without repeats has as many distinct elements as entries. */
  lemma {:induction false} DistinctCard(s: seq<Handle>)
    requires forall i, j :: 0 <= i < j < |s| ==> s[i] != s[j]
    ensures |(set t | 0 <= t < |s| :: s[t])| == |s|
  {
    if |s| > 0 {
      var s' := s[..|s| - 1];
      DistinctCard(s');
      assert (set t | 0 <= t < |s| :: s[t]) == (set t | 0 <= t < |s'| :: s'[t]) + {s[|s| - 1]};
    }
  }

  /**
   * With the live count accounted for, the forwarded cells are exactly the
   * ones listed in `src`: nothing was forwarded but by this cycle's copies.
   */
  lemma MovedAreSources(A0: seq<Cell>, A: seq<Cell>, L: set<Handle>, lo: nat, ee: nat, src: seq<Handle>)
    requires Frame(A0, A, L, lo, ee, src) && |src| + CountLive(A, lo, ee) == CountLive(A0, lo, ee)
    ensures forall x :: lo <= x < ee && A[x] != A0[x] ==> x in src
  {
    CountMoved(A0, A, L, lo, ee, src, ee);
    SourcesDistinct(A0, A, L, lo, ee, src);
    DistinctCard(src);
    var S := set t | 0 <= t < |src| :: src[t];
    var M := Moved(A0, A, lo, ee);
    SameCardSubset(S, M);
    forall x | lo <= x < ee && A[x] != A0[x]
      ensures x in src
    {
      assert x in M;
      assert x in S;
    }
  }

  /** Each source of a frame is copied to its own place, so no source occurs twice, and each has moved. */
  lemma SourcesDistinct(A0: seq<Cell>, A: seq<Cell>, L: set<Handle>, lo: nat, ee: nat, src: seq<Handle>)
    requires Frame(A0, A, L, lo, ee, src)
    ensures forall i, j :: 0 <= i < j < |src| ==> src[i] != src[j]
    ensures (set t | 0 <= t < |src| :: src[t]) <= Moved(A0, A, lo, ee)
  {
    forall i, j | 0 <= i < j < |src|
      ensures src[i] != src[j]
    {
      assert A[src[i]].to == ee + i && A[src[j]].to == ee + j;
    }
  }

  lemma SameCardSubset(S: set<Handle>, M: set<Handle>)
    requires S <= M && |S| == |M|
    ensures S == M
  {
    assert M == S + (M - S);
    assert |M - S| == 0;
  }

  /**
   * After a complete cycle a settled record of `L` leads to a live record
   * with its header and extra slot, whose arguments lead where the
   * original's did.
   */
  lemma CopyMirrors(A0: seq<Cell>, A: seq<Cell>, L: set<Handle>, lo: nat, ee: nat, src: seq<Handle>, x: Handle)
    requires Frame(A0, A, L, lo, ee, src) && Scanned(A0, A, lo, ee, src, |src|) && Closed(A0, L) && Sealed(A0, lo)
    requires forall y :: lo <= y < ee && A[y] != A0[y] ==> y in src
    requires x in L && Settled(A, lo, ee, x)
    ensures Fwd(A, lo, ee, x) < |A| && A[Fwd(A, lo, ee, x)].Live?
    ensures A[Fwd(A, lo, ee, x)].node.(args := A0[x].node.args) == A0[x].node
    ensures |A[Fwd(A, lo, ee, x)].node.args| == |A0[x].node.args|
    ensures forall q :: 0 <= q < |A0[x].node.args| ==>
              A[Fwd(A, lo, ee, x)].node.args[q] == Fwd(A, lo, ee, A0[x].node.args[q])
  {
    if lo <= x {
      assert A[x] != A0[x];
      var t :| 0 <= t < |src| && src[t] == x;
      assert A[x].to == ee + t;
    } else {
      assert A[x] == A0[x];
      forall q | 0 <= q < |A0[x].node.args|
        ensures A0[x].node.args[q] < lo
      {
        assert A0[x].node.args[q] in A0[x].node.args;
      }
    }
  }

  lemma SourceIn(A0: seq<Cell>, A: seq<Cell>, L: set<Handle>, lo: nat, ee: nat, src: seq<Handle>, t: nat)
    requires Frame(A0, A, L, lo, ee, src) && t < |src|
    ensures src[t] in L
  {
  }

  /**
   * A collection rooted in nothing may take `L` empty: then nothing is
   * evacuated and no record of the from-space survives.
   */
  lemma NothingRootedNothingKept(A0: seq<Cell>, A: seq<Cell>, L: set<Handle>, lo: nat, ee: nat, src: seq<Handle>, x: Handle)
    requires L == {} && Frame(A0, A, L, lo, ee, src) && lo <= x < ee
    ensures src == [] && x !in Survivors(L, lo, ee, src)
  {
    if |src| > 0 {
      SourceIn(A0, A, L, lo, ee, src, 0);
      assert false;
    }
    assert x !in Interval(ee, ee);
  }

  /** A new record whose arguments are already in the arena keeps it well shaped and sealed below `lo`. */
  lemma AppendKeeps(arity: nat -> nat, A: seq<Cell>, lo: nat, n: Node)
    requires WellShaped(arity, A) && Sealed(A, lo) && lo <= |A|
    requires |n.args| == arity(n.symbol) && RecordBytes(arity, n) <= CHUNK_SIZE
    requires forall a :: a in n.args ==> a < |A|
    ensures WellShaped(arity, A + [Live(n)]) && Sealed(A + [Live(n)], lo)
  {
    var A' := A + [Live(n)];
    forall h | 0 <= h < |A'|
      ensures |A'[h].node.args| == arity(A'[h].node.symbol) && RecordBytes(arity, A'[h].node) <= CHUNK_SIZE &&
              forall a :: a in A'[h].node.args ==> a < |A'|
    {
      if h < |A| {
        assert A'[h] == A[h];
      }
    }
  }
}
