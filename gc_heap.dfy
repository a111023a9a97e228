/**
 * The two-tier copying collector of the compiled runtime
 * (FullCompiler/runtimeNew.cc): a nursery (the ephemeral space) collected
 * into the current half space while it has spare chunks, and a full
 * collection that swaps the half spaces and copies everything reachable.
 *
 * Copying is breadth first: the roots (the argument registers and the slots
 * of every stack frame) are evacuated, then the copies are scanned in
 * address order and each pointer into the from-space is evacuated in turn,
 * until the scan reaches the copy cursor.
 */
module Runtime {
  import opened GcRecords
  import opened GcCycle

  /** The invariants of a cycle under way that copies `[lo, ee)` and has evacuated `src`. */
  ghost predicate Core(arity: nat -> nat, A0: seq<Cell>, L: set<Handle>, lo: nat, ee: nat, src: seq<Handle>, cn: Cursor,
                       A: seq<Cell>, chunks: seq<seq<Slot>>, cs: seq<nat>, endMarker: seq<nat>, cur: nat)
  {
    Frame(A0, A, L, lo, ee, src) && Closed(A0, L) && WellShaped(arity, A0) &&
    Layout(chunks, cs, endMarker, cur, cn) &&
    |src| + CountLive(A, lo, ee) == CountLive(A0, lo, ee)
  }

  /** The chunks from slot `k` of current chunk `i` on hold the slots of the copies from `s` on. */
  ghost predicate Laid(arity: nat -> nat, A0: seq<Cell>, ee: nat, src: seq<Handle>, s: nat, i: nat, k: nat,
                       chunks: seq<seq<Slot>>, cs: seq<nat>, cur: nat)
  {
    i <= cur < |cs| && BlocksIn(chunks, cs) && k <= |chunks[cs[i]]| && s <= |src| &&
    Rem(chunks, cs, i, k, cur) == LaidSlots(arity, A0, ee, src)[s..]
  }

  /**
   * The scan of the copies has reached current chunk `i`, the `s`-th copy,
   * having started at slot `k0` (byte `p0`) of chunk `c0`; past the
   * cursor's chunk, every copy is scanned. Contracts state it as
   * `Copying(…) == true`, so that it is carried as one fact rather than
   * checked conjunct by conjunct at every call.
   */
  ghost predicate Copying(arity: nat -> nat, A0: seq<Cell>, L: set<Handle>, lo: nat, ee: nat, src: seq<Handle>, cn: Cursor,
                          s: nat, i: nat, c0: nat, k0: nat, p0: nat,
                          A: seq<Cell>, chunks: seq<seq<Slot>>, cs: seq<nat>, endMarker: seq<nat>, cur: nat)
  {
    Core(arity, A0, L, lo, ee, src, cn, A, chunks, cs, endMarker, cur) &&
    Scanned(A0, A, lo, ee, src, s) && Pending(A0, A, ee, src, s) &&
    c0 <= i <= cur + 1 && cur < |cs| && BlocksIn(chunks, cs) &&
    (i <= cur ==> Laid(arity, A0, ee, src, s, i, if i == c0 then k0 else 0, chunks, cs, cur)) &&
    (i == c0 && i <= cur ==> k0 <= |chunks[cs[i]]| && Fill(chunks[cs[i]][..k0]) == p0) &&
    (cur < i ==> s == |src|)
  }

  /**
   * What a cycle has laid out since its copy start, slot `k0` (byte `p0`) of
   * current chunk `c0`: after the `k0` slots that were there before, the
   * slots of all its copies in copying order, in chunks each closed only
   * when the next copy did not fit.
   */
  ghost predicate Started(arity: nat -> nat, A0: seq<Cell>, ee: nat, src: seq<Handle>, c0: nat, k0: nat, p0: nat,
                          chunks: seq<seq<Slot>>, cs: seq<nat>, endMarker: seq<nat>, cur: nat)
  {
    Laid(arity, A0, ee, src, 0, c0, k0, chunks, cs, cur) && Fill(chunks[cs[c0]][..k0]) == p0 &&
    Packed(chunks, cs, endMarker, c0, cur)
  }

  /** A copy that fits at the cursor keeps what the cycle has laid out since its copy start. */
  lemma StartedAppend(arity: nat -> nat, A0: seq<Cell>, ee: nat, src: seq<Handle>, src': seq<Handle>,
                      c0: nat, k0: nat, p0: nat, x: Slot, cs: seq<nat>, ch: seq<seq<Slot>>, em: seq<nat>, cur: nat)
    requires Started(arity, A0, ee, src, c0, k0, p0, ch, cs, em, cur) && Distinct(cs)
    requires |src'| == |src| + 1 && LaidSlots(arity, A0, ee, src') == LaidSlots(arity, A0, ee, src) + [x]
    ensures Started(arity, A0, ee, src', c0, k0, p0, ch[cs[cur] := ch[cs[cur]] + [x]], cs, em, cur)
  {
    var ch' := ch[cs[cur] := ch[cs[cur]] + [x]];
    assert LaidSlots(arity, A0, ee, src')[0..] == LaidSlots(arity, A0, ee, src)[0..] + [x];
    RemAppendLast(ch, cs, c0, k0, cur, x);
    PackedAppend(ch, cs, em, c0, cur, cs[cur], x);
    PrefixTake(ch[cs[c0]], ch'[cs[c0]], k0);
  }

  /** A copy that opens the next chunk, not fitting behind the cursor, keeps what the cycle has laid out. */
  lemma StartedOpenNext(arity: nat -> nat, A0: seq<Cell>, ee: nat, src: seq<Handle>, src': seq<Handle>,
                        c0: nat, k0: nat, p0: nat, x: Slot, cs: seq<nat>, ch: seq<seq<Slot>>, em: seq<nat>, cur: nat,
                        offset: nat)
    requires Started(arity, A0, ee, src, c0, k0, p0, ch, cs, em, cur) && Distinct(cs)
    requires cur + 1 < |cs| && cur < |em| && offset + x.bytes > CHUNK_SIZE
    requires |src'| == |src| + 1 && LaidSlots(arity, A0, ee, src') == LaidSlots(arity, A0, ee, src) + [x]
    ensures Started(arity, A0, ee, src', c0, k0, p0, ch[cs[cur + 1] := [x]], cs, em[cur := offset], cur + 1)
  {
    assert LaidSlots(arity, A0, ee, src')[0..] == LaidSlots(arity, A0, ee, src)[0..] + [x];
    RemOpenNext(ch, cs, c0, k0, cur, x);
    PackedOpenNext(ch, cs, em, c0, cur, offset, x);
  }

  /**
   * One more copy keeps what the cycle has laid out since its copy start:
   * it goes at the cursor if it fits, else it opens the next chunk.
   */
  lemma StartedStep(arity: nat -> nat, A0: seq<Cell>, ee: nat, src: seq<Handle>, src': seq<Handle>,
                    c0: nat, k0: nat, p0: nat, x: Slot, cs: seq<nat>, ch: seq<seq<Slot>>, em: seq<nat>, cur: nat,
                    offset: nat, ch': seq<seq<Slot>>, em': seq<nat>, cur': nat)
    requires Started(arity, A0, ee, src, c0, k0, p0, ch, cs, em, cur) && Distinct(cs)
    requires |src'| == |src| + 1 && LaidSlots(arity, A0, ee, src') == LaidSlots(arity, A0, ee, src) + [x]
    requires if offset + x.bytes <= CHUNK_SIZE then cur' == cur && em' == em && ch' == ch[cs[cur] := ch[cs[cur]] + [x]]
             else cur' == cur + 1 < |cs| && cur < |em| && em' == em[cur := offset] && ch' == ch[cs[cur + 1] := [x]]
    ensures Started(arity, A0, ee, src', c0, k0, p0, ch', cs, em', cur')
  {
    if offset + x.bytes <= CHUNK_SIZE {
      StartedAppend(arity, A0, ee, src, src', c0, k0, p0, x, cs, ch, em, cur);
    } else {
      StartedOpenNext(arity, A0, ee, src, src', c0, k0, p0, x, cs, ch, em, cur, offset);
    }
  }

  /**
   * Evacuating a record not yet copied keeps the cycle's invariants: the
   * record joins `src`, its slot is laid after the others, the chunk the
   * layout starts in only grows, and what was settled stays settled.
   */
  lemma LiveStep(arity: nat -> nat, A0: seq<Cell>, L: set<Handle>, lo: nat, ee: nat, src: seq<Handle>,
                 s: nat, p: nat, i: nat, k: nat, h: Handle, cs: seq<nat>,
                 A: seq<Cell>, ch: seq<seq<Slot>>, em: seq<nat>, cur: nat, cn: Cursor,
                 A': seq<Cell>, ch': seq<seq<Slot>>, em': seq<nat>, cur': nat, cn': Cursor)
    requires Core(arity, A0, L, lo, ee, src, cn, A, ch, cs, em, cur)
    requires Scanned(A0, A, lo, ee, src, s) && Pending(A0, A, ee, src, p) && p <= |src|
    requires Laid(arity, A0, ee, src, s, i, k, ch, cs, cur)
    requires lo <= h < ee && h in L && A[h].Live?
    requires A' == Evacuated(A, h) && Layout(ch', cs, em', cur', cn')
    requires var slot := Slot(|A|, RecordBytes(arity, A[h].node));
             if cn.offset + slot.bytes <= CHUNK_SIZE then cur' == cur && ch' == ch[cn.block := ch[cn.block] + [slot]]
             else cur' == cur + 1 && cur' < |cs| && ch' == ch[cs[cur'] := [slot]]
    ensures Core(arity, A0, L, lo, ee, src + [h], cn', A', ch', cs, em', cur')
    ensures Scanned(A0, A', lo, ee, src + [h], s) && Pending(A0, A', ee, src + [h], p)
    ensures Laid(arity, A0, ee, src + [h], s, i, k, ch', cs, cur') && cur <= cur'
    ensures |ch[cs[i]]| <= |ch'[cs[i]]| && ch'[cs[i]][..|ch[cs[i]]|] == ch[cs[i]]
    ensures |A| == Fwd(A', lo, ee, h) && Settled(A', lo, ee, h)
    ensures Extends(A, A', lo, ee)
    ensures LaidSlots(arity, A0, ee, src + [h]) == LaidSlots(arity, A0, ee, src) + [Slot(|A|, RecordBytes(arity, A[h].node))]
  {
    EvacuateStep(arity, A0, A, L, lo, ee, src, s, p, h);
    ExtendsEvacuated(A, lo, ee, h);
    var slot := Slot(|A|, RecordBytes(arity, A[h].node));
    assert LaidSlots(arity, A0, ee, src + [h])[s..] == LaidSlots(arity, A0, ee, src)[s..] + [slot];
    if cn.offset + slot.bytes <= CHUNK_SIZE {
      RemAppendLast(ch, cs, i, k, cur, slot);
    } else {
      RemOpenNext(ch, cs, i, k, cur, slot);
    }
  }

  /** Where a cycle starts: the from-space begins at `lo`, the copies at slot `slot` (byte `offset`) of current chunk `chunk`. */
  datatype Start = Start(lo: nat, chunk: nat, slot: nat, offset: nat)

  class Heap {
    /** The compiled program's `arity[]` table, indexed by symbol. */
    const arity: nat -> nat
    /** Every record ever allocated; a handle is an index into it. */
    var arena: seq<Cell>
    /** Handles from here on are in the nursery. */
    var ephemeralStart: Handle
    /** Bytes allocated in the nursery since the last collection. */
    var memNext: nat
    /** The contents of every heap chunk, by block id. */
    var chunks: seq<seq<Slot>>
    var currentSpace: seq<nat>
    var newSpace: seq<nat>
    /** Where the used part of each current chunk ends. */
    var endMarker: seq<nat>
    var curChunk: nat
    /** The copy cursor: the next free byte of the current space. */
    var curNext: Cursor
    /** The argument registers `g.args[0 .. g.nrArgs)`. */
    var regs: seq<Ref>
    /** The slots of the stack frames, from `g.safePtr` down the chain. */
    var frames: seq<seq<Ref>>

    /**
     * The state that initMem leaves: two current chunks, the cursor at the
     * start of the first while `curChunk` already names the second, so that
     * the first collection is a full one.
     */
    ghost predicate Initial()
      reads this`currentSpace, this`curChunk, this`chunks, this`curNext
    {
      |currentSpace| == 2 && curChunk == 1 && BlocksIn(chunks, currentSpace) &&
      curNext == Cursor(currentSpace[0], 0) && chunks[currentSpace[0]] == []
    }

    ghost predicate Valid()
      reads this`arena, this`ephemeralStart, this`memNext, this`chunks, this`currentSpace, this`newSpace
      reads this`endMarker, this`curChunk, this`curNext
    {
      WellShaped(arity, arena) && ephemeralStart <= |arena| && Sealed(arena, ephemeralStart) &&
      memNext <= E_SIZE &&
      Spaces(chunks, currentSpace, newSpace, endMarker) &&
      (Layout(chunks, currentSpace, endMarker, curChunk, curNext) || Initial())
    }

    /** Every non-null root points into `L`. */
    ghost predicate RootsIn(L: set<Handle>)
      reads this`regs, this`frames
    {
      (forall q :: 0 <= q < |regs| && regs[q].Ptr? ==> regs[q].h in L) &&
      (forall f, q :: 0 <= f < |frames| && 0 <= q < |frames[f]| && frames[f][q].Ptr? ==> frames[f][q].h in L)
    }

    /** Bytes in use in the current space, counted up to the copy cursor. */
    function Used(): nat
      reads this
    {
      curChunk * CHUNK_SIZE + curNext.offset
    }

    /** The invariants of a cycle under way that copies `[lo, ee)` and has evacuated `src`. */
    ghost predicate CycleCore(A0: seq<Cell>, L: set<Handle>, lo: nat, ee: nat, src: seq<Handle>, cn: Cursor)
      reads this`arena, this`chunks, this`currentSpace, this`endMarker, this`curChunk
    {
      Core(arity, A0, L, lo, ee, src, cn, arena, chunks, currentSpace, endMarker, curChunk)
    }

    /** The chunks from slot `k` of current chunk `i` on hold the slots of the copies from `s` on. */
    ghost predicate At(A0: seq<Cell>, ee: nat, src: seq<Handle>, s: nat, i: nat, k: nat)
      reads this`chunks, this`currentSpace, this`curChunk
    {
      Laid(arity, A0, ee, src, s, i, k, chunks, currentSpace, curChunk)
    }

    /** What the cycle has laid out since its copy start, slot `k0` (byte `p0`) of current chunk `c0`. */
    ghost predicate From(A0: seq<Cell>, ee: nat, src: seq<Handle>, c0: nat, k0: nat, p0: nat)
      reads this`chunks, this`currentSpace, this`endMarker, this`curChunk
    {
      Started(arity, A0, ee, src, c0, k0, p0, chunks, currentSpace, endMarker, curChunk)
    }

    /**
     * The cycle copying `[lo, ee)` has run out of room: it stands part way
     * through, the cursor `cn` is in the last current chunk, and `w`, a live
     * from-space record of `L` not copied yet, does not fit in what is left
     * of it.
     */
    ghost predicate RanOut(A0: seq<Cell>, L: set<Handle>, lo: nat, ee: nat, src: seq<Handle>, cn: Cursor, w: Handle)
      reads this`arena, this`chunks, this`currentSpace, this`endMarker, this`curChunk
    {
      CycleCore(A0, L, lo, ee, src, cn) && curChunk + 1 == |currentSpace| &&
      lo <= w < ee && w in L && w < |arena| && arena[w].Live? && cn.offset + RecordBytes(arity, arena[w].node) > CHUNK_SIZE
    }

    /**
     * A collection can have started at `st` on these spaces: a full one at the
     * start of the current space, or an ephemeral one at the nursery's start
     * from a chunk other than the last.
     */
    ghost predicate Began(st: Start)
      reads this`ephemeralStart, this`currentSpace
    {
      st == Start(0, 0, 0, 0) || (st.lo == ephemeralStart && st.chunk + 1 < |currentSpace|)
    }

    /**
     * A collection of `A0` that started at `st` has run out of room, with its
     * cursor published: it can have started there, its copies are laid out
     * and packed from the copy start on, and the live record `w` does not fit
     * in the last chunk.
     */
    ghost predicate CycleRanOut(A0: seq<Cell>, L: set<Handle>, st: Start, src: seq<Handle>, w: Handle)
      reads this`arena, this`chunks, this`currentSpace, this`endMarker, this`curChunk, this`curNext, this`ephemeralStart
    {
      Began(st) && RanOut(A0, L, st.lo, |A0|, src, curNext, w) && From(A0, |A0|, src, st.chunk, st.slot, st.offset)
    }

    /**
     * Where the next collection starts: an ephemeral one copies the nursery
     * to the cursor, a full one everything to the start of the swapped space.
     */
    function NextStart(): Start
      reads this`curChunk, this`currentSpace, this`ephemeralStart, this`chunks, this`curNext
    {
      if curChunk + 1 < |currentSpace| && currentSpace[curChunk] < |chunks| then
        Start(ephemeralStart, curChunk, |chunks[currentSpace[curChunk]]|, curNext.offset)
      else Start(0, 0, 0, 0)
    }

    /**
     * evacuate: a forwarded record yields its forwarding pointer; otherwise
     * the record is copied to the cursor, moving to the next current chunk
     * when it does not fit, and the original is forwarded to the copy. With
     * no next chunk the source indexes past the end of currentSpace; the
     * model reports that as `ok == false` and changes nothing.
     */
    method Evacuate(h: Handle, cn: Cursor) returns (ok: bool, copy: Handle, cn': Cursor)
      requires h < |arena| && RecordBytes(arity, arena[h].node) <= CHUNK_SIZE
      requires Layout(chunks, currentSpace, endMarker, curChunk, cn)
      modifies this`arena, this`chunks, this`curChunk, this`endMarker
      ensures !ok ==> curChunk + 1 == |currentSpace|
      ensures |chunks| == old(|chunks|) && |endMarker| == old(|endMarker|)
      ensures old(arena[h]).Forwarded? ==>
                ok && copy == old(arena[h]).to && cn' == cn &&
                arena == old(arena) && chunks == old(chunks) && curChunk == old(curChunk) && endMarker == old(endMarker)
      ensures old(arena[h]).Live? ==>
                ok == (cn.offset + RecordBytes(arity, old(arena[h]).node) <= CHUNK_SIZE || old(curChunk) + 1 < |currentSpace|)
      ensures !ok ==> arena == old(arena) && chunks == old(chunks) && curChunk == old(curChunk) && endMarker == old(endMarker) &&
                      cn' == cn
      ensures ok && old(arena[h]).Live? ==>
                copy == old(|arena|) && arena == Evacuated(old(arena), h) &&
                Layout(chunks, currentSpace, endMarker, curChunk, cn')
      ensures ok && old(arena[h]).Live? && cn.offset + RecordBytes(arity, old(arena[h]).node) <= CHUNK_SIZE ==>
                curChunk == old(curChunk) && endMarker == old(endMarker) &&
                cn' == Cursor(cn.block, cn.offset + RecordBytes(arity, old(arena[h]).node)) &&
                chunks == old(chunks)[cn.block := old(chunks)[cn.block] + [Slot(copy, RecordBytes(arity, old(arena[h]).node))]]
      ensures ok && old(arena[h]).Live? && cn.offset + RecordBytes(arity, old(arena[h]).node) > CHUNK_SIZE ==>
                curChunk == old(curChunk) + 1 && endMarker == old(endMarker)[old(curChunk) := cn.offset] &&
                cn' == Cursor(currentSpace[curChunk], RecordBytes(arity, old(arena[h]).node)) &&
                chunks == old(chunks)[currentSpace[curChunk] := [Slot(copy, RecordBytes(arity, old(arena[h]).node))]]
    {
      var cell := arena[h];
      if cell.Forwarded? {
        return true, cell.to, cn;
      }
      var nrBytes := RecordBytes(arity, cell.node);
      copy := |arena|;
      if cn.offset + nrBytes > CHUNK_SIZE {
        if curChunk + 1 >= |currentSpace| {
          return false, 0, cn;
        }
        LayoutOpenNext(chunks, currentSpace, endMarker, curChunk, cn, Slot(copy, nrBytes));
        endMarker := endMarker[curChunk := cn.offset];
        curChunk := curChunk + 1;
        chunks := chunks[currentSpace[curChunk] := [Slot(copy, nrBytes)]];
        cn' := Cursor(currentSpace[curChunk], nrBytes);
      } else {
        LayoutAppend(chunks, currentSpace, endMarker, curChunk, cn, Slot(copy, nrBytes));
        chunks := chunks[cn.block := chunks[cn.block] + [Slot(copy, nrBytes)]];
        cn' := Cursor(cn.block, cn.offset + nrBytes);
      }
      arena := arena[h := Forwarded(cell.node, copy)] + [cell];
      ok := true;
    }

    /**
     * One evacuation inside a cycle, with the cycle's invariants carried
     * across it: the result is where `h` now leads, `h` is settled, and the
     * chunk slots from position (`i`, `k`) on still list the copies from `s` on.
     */
    method Step(h: Handle, cn: Cursor, ghost A0: seq<Cell>, ghost L: set<Handle>, ghost lo: nat, ghost ee: nat,
                ghost src: seq<Handle>, ghost s: nat, ghost p: nat, ghost i: nat, ghost k: nat,
                ghost c0: nat, ghost k0: nat, ghost p0: nat)
      returns (ok: bool, copy: Handle, cn': Cursor, ghost src': seq<Handle>)
      requires CycleCore(A0, L, lo, ee, src, cn) && From(A0, ee, src, c0, k0, p0) == true
      requires Scanned(A0, arena, lo, ee, src, s) && Pending(A0, arena, ee, src, p) && p <= |src|
      requires At(A0, ee, src, s, i, k)
      requires lo <= h < ee && h in L
      modifies this`arena, this`chunks, this`curChunk, this`endMarker
      ensures !ok ==> RanOut(A0, L, lo, ee, src', cn', h) == true
      ensures |chunks| == old(|chunks|) && |endMarker| == old(|endMarker|)
      ensures From(A0, ee, src', c0, k0, p0) == true
      ensures ok ==> CycleCore(A0, L, lo, ee, src', cn')
      ensures ok ==> Scanned(A0, arena, lo, ee, src', s) && Pending(A0, arena, ee, src', p)
      ensures ok ==> At(A0, ee, src', s, i, k) && old(curChunk) <= curChunk
      ensures ok ==> |src| <= |src'| && src'[..|src|] == src
      ensures ok ==> copy == Fwd(arena, lo, ee, h) && Settled(arena, lo, ee, h)
      ensures ok ==> arena == old(arena) || (old(arena[h]).Live? && arena == Evacuated(old(arena), h))
      ensures ok ==> old(|chunks[currentSpace[i]]|) <= |chunks[currentSpace[i]]| &&
                     chunks[currentSpace[i]][..old(|chunks[currentSpace[i]]|)] == old(chunks[currentSpace[i]])
      ensures ok ==> Extends(old(arena), arena, lo, ee)
    {
      if arena[h].Forwarded? {
        ok, copy, cn' := Evacuate(h, cn);
        src' := src;
        assert src'[..|src|] == src;
        return;
      }
      ok, copy, cn', src' := StepLive(h, cn, A0, L, lo, ee, src, s, p, i, k, c0, k0, p0);
    }

    /** Step for a record not yet evacuated: it is copied and joins `src`. */
    method StepLive(h: Handle, cn: Cursor, ghost A0: seq<Cell>, ghost L: set<Handle>, ghost lo: nat, ghost ee: nat,
                    ghost src: seq<Handle>, ghost s: nat, ghost p: nat, ghost i: nat, ghost k: nat,
                    ghost c0: nat, ghost k0: nat, ghost p0: nat)
      returns (ok: bool, copy: Handle, cn': Cursor, ghost src': seq<Handle>)
      requires CycleCore(A0, L, lo, ee, src, cn) && From(A0, ee, src, c0, k0, p0) == true
      requires Scanned(A0, arena, lo, ee, src, s) && Pending(A0, arena, ee, src, p) && p <= |src|
      requires At(A0, ee, src, s, i, k)
      requires lo <= h < ee && h in L && arena[h].Live?
      modifies this`arena, this`chunks, this`curChunk, this`endMarker
      ensures !ok ==> RanOut(A0, L, lo, ee, src', cn', h) == true
      ensures |chunks| == old(|chunks|) && |endMarker| == old(|endMarker|)
      ensures From(A0, ee, src', c0, k0, p0) == true
      ensures ok ==> CycleCore(A0, L, lo, ee, src', cn') == true
      ensures ok ==> Scanned(A0, arena, lo, ee, src', s) == true && Pending(A0, arena, ee, src', p) == true
      ensures ok ==> At(A0, ee, src', s, i, k) == true && old(curChunk) <= curChunk
      ensures ok ==> src' == src + [h]
      ensures ok ==> copy == Fwd(arena, lo, ee, h) && Settled(arena, lo, ee, h)
      ensures ok ==> arena == Evacuated(old(arena), h)
      ensures ok ==> old(|chunks[currentSpace[i]]|) <= |chunks[currentSpace[i]]| &&
                     chunks[currentSpace[i]][..old(|chunks[currentSpace[i]]|)] == old(chunks[currentSpace[i]])
      ensures ok ==> Extends(old(arena), arena, lo, ee)
    {
      ghost var A := arena;
      ghost var ch := chunks;
      ghost var em := endMarker;
      ghost var cur := curChunk;
      ok, copy, cn' := Evacuate(h, cn);
      if !ok {
        src' := src;
        return;
      }
      src' := src + [h];
      LiveStep(arity, A0, L, lo, ee, src, s, p, i, k, h, currentSpace, A, ch, em, cur, cn,
               arena, chunks, endMarker, curChunk, cn');
      ghost var x := Slot(|A|, RecordBytes(arity, A[h].node));
      StartedStep(arity, A0, ee, src, src', c0, k0, p0, x, currentSpace, ch, em, cur, cn.offset, chunks, endMarker, curChunk);
    }

    /**
     * The copies from position (`c0`, `k0`, byte `p0`) on list the copies of
     * `src`, none scanned yet: the state of a cycle while the roots are evacuated.
     */
    ghost predicate RootPhase(A0: seq<Cell>, L: set<Handle>, lo: nat, ee: nat, src: seq<Handle>, cn: Cursor,
                              c0: nat, k0: nat, p0: nat)
      reads this
    {
      CycleCore(A0, L, lo, ee, src, cn) && Pending(A0, arena, ee, src, 0) && At(A0, ee, src, 0, c0, k0) &&
      From(A0, ee, src, c0, k0, p0)
    }

    /**
     * Evacuates the argument registers: in an ephemeral cycle those that point
     * into the nursery, in a full cycle every one of them (all non-null).
     */
    method EvacuateRegisters(ephemeral: bool, lo: nat, ee: nat, cn: Cursor, ghost A0: seq<Cell>, ghost L: set<Handle>,
                             ghost src: seq<Handle>, ghost c0: nat, ghost k0: nat, ghost p0: nat)
      returns (ok: bool, cn': Cursor, ghost src': seq<Handle>, ghost w: Handle)
      requires RootPhase(A0, L, lo, ee, src, cn, c0, k0, p0)
      requires forall q :: 0 <= q < |regs| && regs[q].Ptr? ==> regs[q].h in L
      requires !ephemeral ==> lo == 0 && forall q :: 0 <= q < |regs| ==> regs[q].Ptr?
      modifies this`arena, this`chunks, this`curChunk, this`endMarker, this`regs
      ensures !ok ==> RanOut(A0, L, lo, ee, src', cn', w) == true
      ensures From(A0, ee, src', c0, k0, p0) == true
      ensures |chunks| == old(|chunks|) && |endMarker| == old(|endMarker|)
      ensures ok ==> RootPhase(A0, L, lo, ee, src', cn', c0, k0, p0) && old(curChunk) <= curChunk
      ensures ok ==> RelocatedRoots(arena, lo, ee, old(regs), regs, |regs|)
      ensures ok ==> chunks[currentSpace[c0]][..k0] == old(chunks[currentSpace[c0]][..k0])
      ensures ok ==> Extends(old(arena), arena, lo, ee)
    {
      ok, cn', src', w := true, cn, src, 0;
      var rs := regs;
      var nrArgs := |rs|;
      var q := 0;
      while q < nrArgs
        invariant ok && q <= nrArgs && regs == old(regs)
        invariant RootPhase(A0, L, lo, ee, src', cn', c0, k0, p0) && old(curChunk) <= curChunk
        invariant RelocatedRoots(arena, lo, ee, regs, rs, q)
        invariant chunks[currentSpace[c0]][..k0] == old(chunks[currentSpace[c0]][..k0])
        invariant Extends(old(arena), arena, lo, ee)
        invariant |chunks| == old(|chunks|) && |endMarker| == old(|endMarker|)
      {
        var t := rs[q];
        if !ephemeral || (t.Ptr? && lo <= t.h && t.h < ee) {
          ghost var A := arena;
          var r;
          ok, r, cn', src' := Step(t.h, cn', A0, L, lo, ee, src', 0, 0, c0, k0, c0, k0, p0);
          if !ok {
            w := t.h;
            return;
          }
          RelocatedRootsExtend(A, arena, lo, ee, regs, rs, q);
          ExtendsTrans(old(arena), A, arena, lo, ee);
          RelocatedRootsNext(arena, lo, ee, regs, rs, q, Ptr(r));
          rs := rs[q := Ptr(r)];
        } else {
          RelocatedRootsNext(arena, lo, ee, regs, rs, q, t);
        }
        q := q + 1;
      }
      regs := rs;
    }

    /**
     * Evacuates the non-null slots of one stack frame (in an ephemeral cycle
     * only those that point into the nursery) and returns the frame's new slots.
     */
    method EvacuateSlots(ephemeral: bool, lo: nat, ee: nat, slots: seq<Ref>, cn: Cursor, ghost A0: seq<Cell>,
                         ghost L: set<Handle>, ghost src: seq<Handle>, ghost c0: nat, ghost k0: nat, ghost p0: nat)
      returns (ok: bool, slots': seq<Ref>, cn': Cursor, ghost src': seq<Handle>, ghost w: Handle)
      requires RootPhase(A0, L, lo, ee, src, cn, c0, k0, p0)
      requires forall q :: 0 <= q < |slots| && slots[q].Ptr? ==> slots[q].h in L
      requires !ephemeral ==> lo == 0
      modifies this`arena, this`chunks, this`curChunk, this`endMarker
      ensures !ok ==> RanOut(A0, L, lo, ee, src', cn', w) == true
      ensures From(A0, ee, src', c0, k0, p0) == true
      ensures |chunks| == old(|chunks|) && |endMarker| == old(|endMarker|)
      ensures ok ==> RootPhase(A0, L, lo, ee, src', cn', c0, k0, p0) && old(curChunk) <= curChunk
      ensures ok ==> RelocatedRoots(arena, lo, ee, slots, slots', |slots|)
      ensures ok ==> chunks[currentSpace[c0]][..k0] == old(chunks[currentSpace[c0]][..k0])
      ensures ok ==> Extends(old(arena), arena, lo, ee)
    {
      ok, slots', cn', src', w := true, slots, cn, src, 0;
      var nrSlots := |slots|;
      var q := 0;
      while q < nrSlots
        invariant ok && q <= nrSlots
        invariant RootPhase(A0, L, lo, ee, src', cn', c0, k0, p0) && old(curChunk) <= curChunk
        invariant RelocatedRoots(arena, lo, ee, slots, slots', q)
        invariant chunks[currentSpace[c0]][..k0] == old(chunks[currentSpace[c0]][..k0])
        invariant Extends(old(arena), arena, lo, ee)
        invariant |chunks| == old(|chunks|) && |endMarker| == old(|endMarker|)
      {
        var t := slots'[q];
        if t.Ptr? && (!ephemeral || (lo <= t.h && t.h < ee)) {
          ghost var A := arena;
          var r;
          ok, r, cn', src' := Step(t.h, cn', A0, L, lo, ee, src', 0, 0, c0, k0, c0, k0, p0);
          if !ok {
            w := t.h;
            return;
          }
          RelocatedRootsExtend(A, arena, lo, ee, slots, slots', q);
          ExtendsTrans(old(arena), A, arena, lo, ee);
          RelocatedRootsNext(arena, lo, ee, slots, slots', q, Ptr(r));
          slots' := slots'[q := Ptr(r)];
        } else {
          RelocatedRootsNext(arena, lo, ee, slots, slots', q, t);
        }
        q := q + 1;
      }
    }

    /** Evacuates the roots held in the stack frames, frame by frame down the chain. */
    method EvacuateFrames(ephemeral: bool, lo: nat, ee: nat, cn: Cursor, ghost A0: seq<Cell>, ghost L: set<Handle>,
                          ghost src: seq<Handle>, ghost c0: nat, ghost k0: nat, ghost p0: nat)
      returns (ok: bool, cn': Cursor, ghost src': seq<Handle>, ghost w: Handle)
      requires RootPhase(A0, L, lo, ee, src, cn, c0, k0, p0)
      requires forall f, q :: 0 <= f < |frames| && 0 <= q < |frames[f]| && frames[f][q].Ptr? ==> frames[f][q].h in L
      requires !ephemeral ==> lo == 0
      modifies this`arena, this`chunks, this`curChunk, this`endMarker, this`frames
      ensures !ok ==> RanOut(A0, L, lo, ee, src', cn', w) == true
      ensures From(A0, ee, src', c0, k0, p0) == true
      ensures |chunks| == old(|chunks|) && |endMarker| == old(|endMarker|)
      ensures ok ==> RootPhase(A0, L, lo, ee, src', cn', c0, k0, p0) && old(curChunk) <= curChunk
      ensures ok ==> |frames| == old(|frames|) &&
                     forall f :: 0 <= f < |frames| ==> RelocatedRoots(arena, lo, ee, old(frames[f]), frames[f], |frames[f]|)
      ensures ok ==> chunks[currentSpace[c0]][..k0] == old(chunks[currentSpace[c0]][..k0])
      ensures ok ==> Extends(old(arena), arena, lo, ee)
    {
      ok, cn', src', w := true, cn, src, 0;
      var fs := frames;
      var f := 0;
      while f < |fs|
        invariant ok && f <= |fs| && frames == old(frames)
        invariant RootPhase(A0, L, lo, ee, src', cn', c0, k0, p0) && old(curChunk) <= curChunk
        invariant RelocatedFrames(arena, lo, ee, frames, fs, f)
        invariant chunks[currentSpace[c0]][..k0] == old(chunks[currentSpace[c0]][..k0])
        invariant Extends(old(arena), arena, lo, ee)
        invariant |chunks| == old(|chunks|) && |endMarker| == old(|endMarker|)
      {
        ghost var A := arena;
        var slots';
        ok, slots', cn', src', w := EvacuateSlots(ephemeral, lo, ee, fs[f], cn', A0, L, src', c0, k0, p0);
        if !ok {
          return;
        }
        RelocatedFramesExtend(A, arena, lo, ee, frames, fs, f);
        ExtendsTrans(old(arena), A, arena, lo, ee);
        RelocatedFramesNext(arena, lo, ee, frames, fs, f, slots');
        fs := fs[f := slots'];
        f := f + 1;
      }
      frames := fs;
    }
  
    /**
     * The scan stands at slot `k` of current chunk `i`, the `s`-th copy, with
     * the copies before it scanned. Like `Copying`, the scan loop's contracts
     * state it as one fact (`== true`).
     */
    ghost predicate ScanAt(A0: seq<Cell>, L: set<Handle>, lo: nat, ee: nat, src: seq<Handle>, cn: Cursor,
                           s: nat, i: nat, k: nat)
      reads this
    {
      CycleCore(A0, L, lo, ee, src, cn) &&
      Scanned(A0, arena, lo, ee, src, s) && Pending(A0, arena, ee, src, s) &&
      At(A0, ee, src, s, i, k)
    }

    /** Scanning the `s`-th copy, at handle `c`: its first `j` arguments are relocated. */
    ghost predicate Scanning(A0: seq<Cell>, L: set<Handle>, lo: nat, ee: nat, src: seq<Handle>, cn: Cursor,
                             s: nat, i: nat, k: nat, c: Handle, n0: Node, j: nat)
      reads this
    {
      CycleCore(A0, L, lo, ee, src, cn) &&
      Scanned(A0, arena, lo, ee, src, s) && Pending(A0, arena, ee, src, s + 1) &&
      s < |src| && c == ee + s && n0 == A0[src[s]].node &&
      At(A0, ee, src, s, i, k) && k < |chunks[currentSpace[i]]| &&
      arena[c].Live? && RelocatedUpTo(arena, lo, ee, n0, arena[c].node, j)
    }

    /** Relocates argument `j` of the copy being scanned. */
    method ScanArg(ephemeral: bool, lo: nat, ee: nat, c: Handle, j: nat, cn: Cursor, ghost A0: seq<Cell>,
                   ghost L: set<Handle>, ghost src: seq<Handle>, ghost s: nat, ghost i: nat, ghost k: nat, ghost n0: Node,
                   ghost c0: nat, ghost k0: nat, ghost p0: nat)
      returns (ok: bool, cn': Cursor, ghost src': seq<Handle>, ghost w: Handle)
      requires Scanning(A0, L, lo, ee, src, cn, s, i, k, c, n0, j) && j < |n0.args|
      requires From(A0, ee, src, c0, k0, p0) == true
      requires !ephemeral ==> lo == 0
      modifies this`arena, this`chunks, this`curChunk, this`endMarker
      ensures !ok ==> RanOut(A0, L, lo, ee, src', cn', w) == true
      ensures |chunks| == old(|chunks|) && |endMarker| == old(|endMarker|)
      ensures ok ==> Scanning(A0, L, lo, ee, src', cn', s, i, k, c, n0, j + 1) == true && old(curChunk) <= curChunk
      ensures From(A0, ee, src', c0, k0, p0) == true
      ensures ok ==> |src| <= |src'| && src'[..|src|] == src
      ensures ok ==> chunks[currentSpace[i]][..k + 1] == old(chunks[currentSpace[i]][..k + 1])
      ensures ok ==> Extends(old(arena), arena, lo, ee)
    {
      var t := arena[c].node.args[j];
      if !ephemeral || (lo <= t && t < ee) {
        ok, cn', src', w := EvacuateArg(ephemeral, lo, ee, c, j, cn, A0, L, src, s, i, k, n0, c0, k0, p0);
      } else {
        ok, cn', src', w := true, cn, src, 0;
        assert t == n0.args[j];
        assert RelocatedUpTo(arena, lo, ee, n0, arena[c].node, j + 1);
        assert src'[..|src|] == src;
      }
    }

    /** Evacuates argument `j` of the copy being scanned and writes where it now leads into the copy. */
    method EvacuateArg(ephemeral: bool, lo: nat, ee: nat, c: Handle, j: nat, cn: Cursor, ghost A0: seq<Cell>,
                       ghost L: set<Handle>, ghost src: seq<Handle>, ghost s: nat, ghost i: nat, ghost k: nat, ghost n0: Node,
                       ghost c0: nat, ghost k0: nat, ghost p0: nat)
      returns (ok: bool, cn': Cursor, ghost src': seq<Handle>, ghost w: Handle)
      requires Scanning(A0, L, lo, ee, src, cn, s, i, k, c, n0, j) && j < |n0.args|
      requires From(A0, ee, src, c0, k0, p0) == true
      requires !ephemeral ==> lo == 0
      requires !ephemeral || (lo <= arena[c].node.args[j] < ee)
      modifies this`arena, this`chunks, this`curChunk, this`endMarker
      ensures !ok ==> RanOut(A0, L, lo, ee, src', cn', w) == true
      ensures |chunks| == old(|chunks|) && |endMarker| == old(|endMarker|)
      ensures ok ==> Scanning(A0, L, lo, ee, src', cn', s, i, k, c, n0, j + 1) == true && old(curChunk) <= curChunk
      ensures From(A0, ee, src', c0, k0, p0) == true
      ensures ok ==> |src| <= |src'| && src'[..|src|] == src
      ensures ok ==> chunks[currentSpace[i]][..k + 1] == old(chunks[currentSpace[i]][..k + 1])
      ensures ok ==> Extends(old(arena), arena, lo, ee)
    {
      ok, cn', src', w := true, cn, src, 0;
      var t := arena[c].node.args[j];
      assert t == n0.args[j] && n0.args[j] in n0.args;
      assert A0[src[s]].Live? && src[s] in L;
      ghost var A := arena;
      var r;
      ok, r, cn', src' := Step(t, cn', A0, L, lo, ee, src, s, s + 1, i, k, c0, k0, p0);
      if !ok {
        w := t;
        return;
      }
      assert src'[s] == src[s] && arena[c] == A[c];
      RelocatedExtend(A, arena, lo, ee, n0, arena[c].node, j);
      ghost var B := arena;
      WriteArg(lo, ee, c, j, r, A0, L, src', cn', s, i, k, n0);
      ExtendsTrans(old(arena), B, arena, lo, ee);
      PrefixTake(old(chunks[currentSpace[i]]), chunks[currentSpace[i]], k + 1);
    }

    /** Writes the relocated `j`-th argument into the copy at `c`. */
    method WriteArg(lo: nat, ee: nat, c: Handle, j: nat, r: Handle, ghost A0: seq<Cell>, ghost L: set<Handle>,
                    ghost src: seq<Handle>, ghost cn: Cursor, ghost s: nat, ghost i: nat, ghost k: nat, ghost n0: Node)
      requires Scanning(A0, L, lo, ee, src, cn, s, i, k, c, n0, j) && j < |n0.args|
      requires r == Fwd(arena, lo, ee, n0.args[j]) && Settled(arena, lo, ee, n0.args[j])
      modifies this`arena
      ensures Scanning(A0, L, lo, ee, src, cn, s, i, k, c, n0, j + 1)
      ensures Extends(old(arena), arena, lo, ee)
      ensures arena == old(arena)[c := Live(old(arena[c]).node.(args := old(arena[c]).node.args[j := r]))]
    {
      var n := arena[c].node;
      var cell := Live(n.(args := n.args[j := r]));
      ScanArgWrite(A0, arena, L, lo, ee, src, s, n0, n, j, r, arena, c, cell);
      arena := arena[c := cell];
    }

    /**
     * Scans the copy at slot `k` of current chunk `i`, the `s`-th copy:
     * every argument that needs it (in an ephemeral cycle those into the
     * nursery, in a full cycle all) is evacuated and replaced by where it now
     * leads.
     */
    method ScanRecord(ephemeral: bool, lo: nat, ee: nat, c: Handle, cn: Cursor, ghost A0: seq<Cell>,
                      ghost L: set<Handle>, ghost src: seq<Handle>, ghost s: nat, ghost i: nat, ghost k: nat,
                      ghost c0: nat, ghost k0: nat, ghost p0: nat)
      returns (ok: bool, cn': Cursor, ghost src': seq<Handle>, ghost w: Handle)
      requires ScanAt(A0, L, lo, ee, src, cn, s, i, k) && From(A0, ee, src, c0, k0, p0) == true
      requires k < |chunks[currentSpace[i]]| && c == chunks[currentSpace[i]][k].h
      requires !ephemeral ==> lo == 0
      modifies this`arena, this`chunks, this`curChunk, this`endMarker
      ensures !ok ==> RanOut(A0, L, lo, ee, src', cn', w) == true
      ensures |chunks| == old(|chunks|) && |endMarker| == old(|endMarker|)
      ensures ok ==> ScanAt(A0, L, lo, ee, src', cn', s + 1, i, k + 1) && old(curChunk) <= curChunk
      ensures From(A0, ee, src', c0, k0, p0) == true
      ensures ok ==> chunks[currentSpace[i]][..k + 1] == old(chunks[currentSpace[i]][..k + 1])
      ensures ok ==> Extends(old(arena), arena, lo, ee)
    {
      ok, cn', src', w := true, cn, src, 0;
      RemAdvance(arity, chunks, currentSpace, i, k, curChunk, A0, ee, src, s);
      assert c == ee + s;
      ghost var n0 := A0[src[s]].node;
      ghost var prefix := chunks[currentSpace[i]][..k + 1];
      var nrArgs := arity(arena[c].node.symbol);
      var j := 0;
      while j < nrArgs
        invariant ok && j <= nrArgs == |n0.args|
        invariant Scanning(A0, L, lo, ee, src', cn', s, i, k, c, n0, j) == true && old(curChunk) <= curChunk
        invariant chunks[currentSpace[i]][..k + 1] == prefix && From(A0, ee, src', c0, k0, p0) == true
        invariant Extends(old(arena), arena, lo, ee)
        invariant |chunks| == old(|chunks|) && |endMarker| == old(|endMarker|)
      {
        ghost var A := arena;
        ok, cn', src', w := ScanArg(ephemeral, lo, ee, c, j, cn', A0, L, src', s, i, k, n0, c0, k0, p0);
        if !ok {
          return;
        }
        ExtendsTrans(old(arena), A, arena, lo, ee);
        j := j + 1;
      }
      ScannedNext(A0, arena, lo, ee, src', s);
      RemAdvance(arity, chunks, currentSpace, i, k, curChunk, A0, ee, src', s);
    }
  
    /**
     * The record at byte `p` (slot `k`) of current chunk `i`, and the byte
     * just past it: its header, its argument pointers and, for an unreduced
     * record, one more slot.
     */
    method RecordAt(i: nat, k: nat, p: nat, ghost A0: seq<Cell>, ghost ee: nat, ghost src: seq<Handle>, ghost s: nat)
      returns (c: Handle, p': nat)
      requires At(A0, ee, src, s, i, k) && k < |chunks[currentSpace[i]]| && p == Fill(chunks[currentSpace[i]][..k])
      requires |arena| == ee + |src| && Pending(A0, arena, ee, src, s)
      requires forall t :: 0 <= t < |src| ==> src[t] < |A0|
      ensures c == chunks[currentSpace[i]][k].h == ee + s && s < |src|
      ensures p' == Fill(chunks[currentSpace[i]][..k + 1])
    {
      ghost var chunk := chunks[currentSpace[i]];
      RemAdvance(arity, chunks, currentSpace, i, k, curChunk, A0, ee, src, s);
      FillStep(chunk, k);
      c := chunks[currentSpace[i]][k].h;
      assert arena[c] == A0[src[s]];
      var n := arena[c].node;
      var nrArgs := arity(n.symbol);
      p' := p + NODE_BYTES + PTR_BYTES * nrArgs;
      if n.unreduced {
        p' := p' + PTR_BYTES;
      }
    }

    /** The end of the used part of current chunk `i`, as the scan sees it. */
    function ChunkEnd(i: nat, cn: Cursor): nat
      requires i <= curChunk && curChunk <= |endMarker|
      reads this
    {
      if i == curChunk then cn.offset else endMarker[i]
    }

    /** One step of the scan: the record at byte `p` (slot `k`) of chunk `i` is scanned and stepped over. */
    method ScanStep(ephemeral: bool, lo: nat, ee: nat, i: nat, k: nat, p: nat, cn: Cursor,
                    ghost A0: seq<Cell>, ghost L: set<Handle>, ghost src: seq<Handle>, ghost s: nat,
                    ghost c0: nat, ghost k0: nat, ghost p0: nat, ghost A1: seq<Cell>)
      returns (ok: bool, p': nat, cn': Cursor, ghost src': seq<Handle>, ghost w: Handle)
      requires ScanAt(A0, L, lo, ee, src, cn, s, i, k) == true && p == Fill(chunks[currentSpace[i]][..k])
      requires From(A0, ee, src, c0, k0, p0) == true
      requires p != ChunkEnd(i, cn)
      requires !ephemeral ==> lo == 0
      requires Extends(A1, arena, lo, ee)
      modifies this`arena, this`chunks, this`curChunk, this`endMarker
      ensures !ok ==> RanOut(A0, L, lo, ee, src', cn', w) == true
      ensures From(A0, ee, src', c0, k0, p0) == true
      ensures |chunks| == old(|chunks|) && |endMarker| == old(|endMarker|)
      ensures ok ==> ScanAt(A0, L, lo, ee, src', cn', s + 1, i, k + 1) == true && p' == Fill(chunks[currentSpace[i]][..k + 1])
      ensures ok ==> Extends(A1, arena, lo, ee) && old(curChunk) <= curChunk && s + 1 <= CountLive(A0, lo, ee)
    {
      ghost var chunk := chunks[currentSpace[i]];
      ScanStop(arity, chunks, currentSpace, i, k, curChunk, A0, ee, src, s);
      var c;
      c, p' := RecordAt(i, k, p, A0, ee, src, s);
      ok, cn', src', w := ScanRecord(ephemeral, lo, ee, c, cn, A0, L, src, s, i, k, c0, k0, p0);
      if ok {
        assert chunks[currentSpace[i]][..k + 1] == chunk[..k + 1];
        ExtendsTrans(A1, old(arena), arena, lo, ee);
        ScanBound(A0, L, lo, ee, src', cn', s + 1, i, k + 1);
      }
    }

    /**
     * Scans current chunk `i` from byte `pStart` (slot `kStart`) to the end of its
     * used part: its end marker when it lies before the cursor's chunk, else
     * this cycle's copy cursor `cn'`, which moves as the scan evacuates.
     */
    method ScanChunk(ephemeral: bool, lo: nat, ee: nat, i: nat, pStart: nat, kStart: nat, cn: Cursor,
                     ghost A0: seq<Cell>, ghost L: set<Handle>, ghost src: seq<Handle>, ghost s: nat,
                     ghost c0: nat, ghost k0: nat, ghost p0: nat)
      returns (ok: bool, cn': Cursor, ghost src': seq<Handle>, ghost s': nat, ghost w: Handle)
      requires ScanAt(A0, L, lo, ee, src, cn, s, i, kStart) && pStart == Fill(chunks[currentSpace[i]][..kStart])
      requires From(A0, ee, src, c0, k0, p0) == true
      requires !ephemeral ==> lo == 0
      modifies this`arena, this`chunks, this`curChunk, this`endMarker
      ensures !ok ==> RanOut(A0, L, lo, ee, src', cn', w) == true
      ensures From(A0, ee, src', c0, k0, p0) == true
      ensures |chunks| == old(|chunks|) && |endMarker| == old(|endMarker|)
      ensures ok ==> i <= curChunk < |currentSpace| && BlocksIn(chunks, currentSpace)
      ensures ok ==> ScanAt(A0, L, lo, ee, src', cn', s', i, |chunks[currentSpace[i]]|) == true
      ensures ok ==> (i == curChunk ==> s' == |src'|)
      ensures ok ==> Extends(old(arena), arena, lo, ee) && old(curChunk) <= curChunk
    {
      ok, cn', src', s', w := true, cn, src, s, 0;
      var p: nat := pStart;
      var k: nat := kStart;
      ScanBound(A0, L, lo, ee, src', cn', s', i, k);
      while p != ChunkEnd(i, cn')
        invariant ScanAt(A0, L, lo, ee, src', cn', s', i, k) == true && p == Fill(chunks[currentSpace[i]][..k])
        invariant ok && s' <= CountLive(A0, lo, ee) && From(A0, ee, src', c0, k0, p0) == true
        invariant Extends(old(arena), arena, lo, ee) && old(curChunk) <= curChunk
        invariant |chunks| == old(|chunks|) && |endMarker| == old(|endMarker|)
        decreases CountLive(A0, lo, ee) - s'
      {
        ok, p, cn', src', w := ScanStep(ephemeral, lo, ee, i, k, p, cn', A0, L, src', s', c0, k0, p0, old(arena));
        if !ok {
          return;
        }
        k := k + 1;
        s' := s' + 1;
      }
      ScanEnd(A0, L, lo, ee, src', cn', s', i, k);
    }

    /** How far a scan can get: no further than the copies, which are at most the live records copied from. */
    lemma ScanBound(A0: seq<Cell>, L: set<Handle>, lo: nat, ee: nat, src: seq<Handle>, cn: Cursor, s: nat, i: nat, k: nat)
      requires ScanAt(A0, L, lo, ee, src, cn, s, i, k) == true
      ensures s <= |src| <= CountLive(A0, lo, ee)
    {
    }

    /**
     * A scan that has reached the end of the used part of chunk `i` has
     * stepped over all of its slots, and if that chunk is the cursor's it has
     * scanned every copy.
     */
    lemma ScanEnd(A0: seq<Cell>, L: set<Handle>, lo: nat, ee: nat, src: seq<Handle>, cn: Cursor, s: nat, i: nat, k: nat)
      requires ScanAt(A0, L, lo, ee, src, cn, s, i, k) == true && Fill(chunks[currentSpace[i]][..k]) == ChunkEnd(i, cn)
      ensures i <= curChunk < |currentSpace| && BlocksIn(chunks, currentSpace)
      ensures k == |chunks[currentSpace[i]]| && (i == curChunk ==> s == |src|)
    {
      ScanStop(arity, chunks, currentSpace, i, k, curChunk, A0, ee, src, s);
      assert chunks[currentSpace[i]][k..] == [];
    }

    /**
     * The breadth-first scan of the copies, chunk by chunk from the copy
     * start up to the cursor's chunk, which may move on as the scan evacuates.
     */
    method ScanCopies(ephemeral: bool, lo: nat, ee: nat, copyStartChunk: nat, copyStart: nat, copyStartSlot: nat,
                      cn: Cursor, ghost A0: seq<Cell>, ghost L: set<Handle>, ghost src: seq<Handle>)
      returns (ok: bool, cn': Cursor, ghost src': seq<Handle>, ghost w: Handle)
      requires RootPhase(A0, L, lo, ee, src, cn, copyStartChunk, copyStartSlot, copyStart)
      requires Fill(chunks[currentSpace[copyStartChunk]][..copyStartSlot]) == copyStart
      requires !ephemeral ==> lo == 0
      modifies this`arena, this`chunks, this`curChunk, this`endMarker
      ensures !ok ==> RanOut(A0, L, lo, ee, src', cn', w) == true
      ensures From(A0, ee, src', copyStartChunk, copyStartSlot, copyStart) == true
      ensures |chunks| == old(|chunks|) && |endMarker| == old(|endMarker|)
      ensures ok ==> CycleCore(A0, L, lo, ee, src', cn') && Scanned(A0, arena, lo, ee, src', |src'|)
      ensures ok ==> Extends(old(arena), arena, lo, ee) && old(curChunk) <= curChunk
    {
      ok, cn', src', w := true, cn, src, 0;
      ghost var s := 0;
      var i := copyStartChunk;
      StartScan(A0, L, lo, ee, src, cn, copyStartChunk, copyStartSlot, copyStart);
      while i <= curChunk
        invariant Copying(arity, A0, L, lo, ee, src', cn', s, i, copyStartChunk, copyStartSlot, copyStart,
                          arena, chunks, currentSpace, endMarker, curChunk) == true
        invariant ok && i <= curChunk + 1 && curChunk < |currentSpace|
        invariant From(A0, ee, src', copyStartChunk, copyStartSlot, copyStart) == true
        invariant Extends(old(arena), arena, lo, ee) && old(curChunk) <= curChunk
        invariant |chunks| == old(|chunks|) && |endMarker| == old(|endMarker|)
        decreases |currentSpace| - i
      {
        ghost var A := arena;
        ok, cn', src', s, w := ScanNextChunk(ephemeral, lo, ee, i, copyStartChunk, copyStartSlot, copyStart, cn', A0, L, src', s);
        if !ok {
          return;
        }
        ExtendsTrans(old(arena), A, arena, lo, ee);
        i := i + 1;
      }
      EndScan(A0, L, lo, ee, src', cn', s, i, copyStartChunk, copyStartSlot, copyStart);
    }

    /** The scan of the copies starts at the copy start, with no copy scanned. */
    lemma StartScan(A0: seq<Cell>, L: set<Handle>, lo: nat, ee: nat, src: seq<Handle>, cn: Cursor, c0: nat, k0: nat, p0: nat)
      requires RootPhase(A0, L, lo, ee, src, cn, c0, k0, p0)
      requires Fill(chunks[currentSpace[c0]][..k0]) == p0
      ensures Copying(arity, A0, L, lo, ee, src, cn, 0, c0, c0, k0, p0, arena, chunks, currentSpace, endMarker, curChunk) == true
    {
    }

    /** Past the cursor's chunk, the scan of the copies is complete. */
    lemma EndScan(A0: seq<Cell>, L: set<Handle>, lo: nat, ee: nat, src: seq<Handle>, cn: Cursor, s: nat,
                  i: nat, c0: nat, k0: nat, p0: nat)
      requires Copying(arity, A0, L, lo, ee, src, cn, s, i, c0, k0, p0, arena, chunks, currentSpace, endMarker, curChunk) == true
      requires curChunk < i
      ensures CycleCore(A0, L, lo, ee, src, cn) && Scanned(A0, arena, lo, ee, src, |src|)
    {
    }

    /** The scan of one current chunk, from where the scan of the copies stands to its end. */
    method ScanNextChunk(ephemeral: bool, lo: nat, ee: nat, i: nat, c0: nat, k0: nat, p0: nat, cn: Cursor,
                         ghost A0: seq<Cell>, ghost L: set<Handle>, ghost src: seq<Handle>, ghost s: nat)
      returns (ok: bool, cn': Cursor, ghost src': seq<Handle>, ghost s': nat, ghost w: Handle)
      requires Copying(arity, A0, L, lo, ee, src, cn, s, i, c0, k0, p0, arena, chunks, currentSpace, endMarker, curChunk) == true
      requires i <= curChunk && From(A0, ee, src, c0, k0, p0) == true
      requires !ephemeral ==> lo == 0
      modifies this`arena, this`chunks, this`curChunk, this`endMarker
      ensures !ok ==> RanOut(A0, L, lo, ee, src', cn', w) == true
      ensures From(A0, ee, src', c0, k0, p0) == true
      ensures |chunks| == old(|chunks|) && |endMarker| == old(|endMarker|)
      ensures ok ==> Copying(arity, A0, L, lo, ee, src', cn', s', i + 1, c0, k0, p0, arena, chunks, currentSpace, endMarker, curChunk) == true
      ensures ok ==> Extends(old(arena), arena, lo, ee) && old(curChunk) <= curChunk
    {
      var p := if i == c0 then p0 else 0;
      var k := if i == c0 then k0 else 0;
      assert chunks[currentSpace[i]][..0] == [];
      ok, cn', src', s', w := ScanChunk(ephemeral, lo, ee, i, p, k, cn, A0, L, src, s, c0, k0, p0);
      if ok && i < curChunk {
        ScanAtNext(A0, L, lo, ee, src', cn', s', i);
      }
    }

    /** A chunk scanned to its end that is not the cursor's: the scan goes on at the start of the next. */
    lemma ScanAtNext(A0: seq<Cell>, L: set<Handle>, lo: nat, ee: nat, src: seq<Handle>, cn: Cursor, s: nat, i: nat)
      requires i < curChunk < |currentSpace| && BlocksIn(chunks, currentSpace)
      requires ScanAt(A0, L, lo, ee, src, cn, s, i, |chunks[currentSpace[i]]|)
      ensures ScanAt(A0, L, lo, ee, src, cn, s, i + 1, 0)
    {
      RemNext(chunks, currentSpace, i, curChunk);
    }

    /**
     * What a finished cycle that copied `[lo, |A0|)` guarantees: the
     * survivors (the part of `L` outside the from-space and the copies) form
     * a closed, well-shaped heap, and every root now leads to its survivor.
     */
    ghost predicate Collected(A0: seq<Cell>, L: set<Handle>, lo: nat, src: seq<Handle>, regs0: seq<Ref>, frames0: seq<seq<Ref>>)
      reads this`arena, this`regs, this`frames
    {
      Frame(A0, arena, L, lo, |A0|, src) && Scanned(A0, arena, lo, |A0|, src, |src|) &&
      WellShaped(arity, arena) &&
      Closed(arena, Survivors(L, lo, |A0|, src)) &&
      (forall x :: x in Survivors(L, lo, |A0|, src) ==> !(lo <= x < |A0|)) &&
      (forall x :: lo <= x < |A0| && arena[x] != A0[x] ==> x in src) &&
      RelocatedRoots(arena, lo, |A0|, regs0, regs, |regs0|) &&
      |frames| == |frames0| &&
      (forall f :: 0 <= f < |frames| ==> RelocatedRoots(arena, lo, |A0|, frames0[f], frames[f], |frames0[f]|)) &&
      RootsIn(Survivors(L, lo, |A0|, src))
    }

    /** The closing argument of a cycle: the scan is complete and the roots relocated. */
    lemma FinishCycle(A0: seq<Cell>, L: set<Handle>, lo: nat, src: seq<Handle>, regs0: seq<Ref>, frames0: seq<seq<Ref>>)
      requires Frame(A0, arena, L, lo, |A0|, src) && Scanned(A0, arena, lo, |A0|, src, |src|)
      requires Closed(A0, L) && Sealed(A0, lo) && WellShaped(arity, A0)
      requires |src| + CountLive(arena, lo, |A0|) == CountLive(A0, lo, |A0|)
      requires forall q :: 0 <= q < |regs0| && regs0[q].Ptr? ==> regs0[q].h in L
      requires forall f, q :: 0 <= f < |frames0| && 0 <= q < |frames0[f]| && frames0[f][q].Ptr? ==> frames0[f][q].h in L
      requires RelocatedRoots(arena, lo, |A0|, regs0, regs, |regs0|) && |frames| == |frames0|
      requires forall f :: 0 <= f < |frames| ==> RelocatedRoots(arena, lo, |A0|, frames0[f], frames[f], |frames0[f]|)
      ensures Collected(A0, L, lo, src, regs0, frames0)
    {
      var ee := |A0|;
      SurvivorsClosed(A0, arena, L, lo, ee, src);
      MovedAreSources(A0, arena, L, lo, ee, src);
      WellShapedAfter(arity, A0, arena, L, lo, ee, src);
      RootsSurvive(A0, arena, L, lo, ee, src, regs0, regs);
      forall f | 0 <= f < |frames|
        ensures forall q :: 0 <= q < |frames[f]| && frames[f][q].Ptr? ==> frames[f][q].h in Survivors(L, lo, ee, src)
      {
        RootsSurvive(A0, arena, L, lo, ee, src, frames0[f], frames[f]);
      }
    }

    /** The empty cycle before any root is evacuated, with the copies to start at slot `k0` of chunk `c0`. */
    lemma StartCycle(L: set<Handle>, lo: nat, cn: Cursor, c0: nat, k0: nat)
      requires WellShaped(arity, arena) && Closed(arena, L)
      requires Layout(chunks, currentSpace, endMarker, curChunk, cn) && c0 == curChunk
      requires k0 == |chunks[currentSpace[c0]]|
      ensures RootPhase(arena, L, lo, |arena|, [], cn, c0, k0, cn.offset)
      ensures Fill(chunks[currentSpace[c0]][..k0]) == cn.offset
    {
      assert Rem(chunks, currentSpace, c0, k0, curChunk) == [];
      assert LaidSlots(arity, arena, |arena|, [])[0..] == [];
      assert chunks[currentSpace[c0]][..k0] == chunks[currentSpace[c0]];
    }

    /**
     * The copying shared by both collections: the argument registers, then
     * the stack frames, then the breadth-first scan of the copies, which
     * start at slot `k0` of current chunk `c0` (byte `p0`); finally the
     * copy cursor is published.
     */
    method Copy(ephemeral: bool, lo: nat, c0: nat, k0: nat, p0: nat, ghost L: set<Handle>)
      returns (ok: bool, ghost src: seq<Handle>, ghost w: Handle)
      requires WellShaped(arity, arena) && Closed(arena, L) && RootsIn(L) && Sealed(arena, lo)
      requires Layout(chunks, currentSpace, endMarker, curChunk, curNext) && c0 == curChunk
      requires k0 == |chunks[currentSpace[c0]]| && p0 == curNext.offset
      requires !ephemeral ==> lo == 0 && forall q :: 0 <= q < |regs| ==> regs[q].Ptr?
      modifies this`arena, this`chunks, this`curChunk, this`endMarker, this`curNext, this`regs, this`frames
      ensures !ok ==> RanOut(old(arena), L, lo, old(|arena|), src, curNext, w) == true &&
                      From(old(arena), old(|arena|), src, c0, k0, p0) == true
      ensures |chunks| == old(|chunks|) && |endMarker| == old(|endMarker|)
      ensures ok ==> Collected(old(arena), L, lo, src, old(regs), old(frames)) == true
      ensures ok ==> Layout(chunks, currentSpace, endMarker, curChunk, curNext) && old(curChunk) <= curChunk
    {
      var ee := |arena|;
      var cn := curNext;
      ghost var A0 := arena;
      StartCycle(L, lo, cn, c0, k0);
      ghost var A1;
      ok, cn, src, A1, w := EvacuateRoots(ephemeral, lo, ee, cn, A0, L, c0, k0, p0);
      if !ok {
        curNext := cn;
        return;
      }
      ok, cn, src, w := ScanCopies(ephemeral, lo, ee, c0, p0, k0, cn, A0, L, src);
      if !ok {
        curNext := cn;
        return;
      }
      RelocatedRootsExtend(A1, arena, lo, ee, old(regs), regs, |regs|);
      FinishCycle(A0, L, lo, src, old(regs), old(frames));
      curNext := cn;
    }

    /**
     * The roots of a cycle: the argument registers, then the stack frames.
     * `A1` is the arena once the registers are done, against which they are
     * relocated.
     */
    method EvacuateRoots(ephemeral: bool, lo: nat, ee: nat, cn: Cursor, ghost A0: seq<Cell>, ghost L: set<Handle>,
                         ghost c0: nat, ghost k0: nat, ghost p0: nat)
      returns (ok: bool, cn': Cursor, ghost src: seq<Handle>, ghost A1: seq<Cell>, ghost w: Handle)
      requires RootPhase(A0, L, lo, ee, [], cn, c0, k0, p0) && RootsIn(L)
      requires !ephemeral ==> lo == 0 && forall q :: 0 <= q < |regs| ==> regs[q].Ptr?
      modifies this`arena, this`chunks, this`curChunk, this`endMarker, this`regs, this`frames
      ensures !ok ==> RanOut(A0, L, lo, ee, src, cn', w) == true
      ensures From(A0, ee, src, c0, k0, p0) == true
      ensures |chunks| == old(|chunks|) && |endMarker| == old(|endMarker|)
      ensures ok ==> RootPhase(A0, L, lo, ee, src, cn', c0, k0, p0) && old(curChunk) <= curChunk
      ensures ok ==> RelocatedRoots(A1, lo, ee, old(regs), regs, |regs|) && Extends(A1, arena, lo, ee)
      ensures ok ==> |frames| == old(|frames|) &&
                     forall f :: 0 <= f < |frames| ==> RelocatedRoots(arena, lo, ee, old(frames[f]), frames[f], |frames[f]|)
      ensures ok ==> chunks[currentSpace[c0]][..k0] == old(chunks[currentSpace[c0]][..k0])
      ensures ok ==> Extends(old(arena), arena, lo, ee)
    {
      ok, cn', src, w := EvacuateRegisters(ephemeral, lo, ee, cn, A0, L, [], c0, k0, p0);
      A1 := arena;
      if !ok {
        return;
      }
      ok, cn', src, w := EvacuateFrames(ephemeral, lo, ee, cn', A0, L, src, c0, k0, p0);
      if ok {
        ExtendsTrans(old(arena), A1, arena, lo, ee);
      }
    }

    /**
     * ephemeralGC: copies what the roots reach in the nursery
     * `[ephemeralStart, |arena|)` to the copy cursor in the current space,
     * leaving the older records in place; the copies start in the chunk the
     * cursor is in.
     */
    method EphemeralGC(ghost L: set<Handle>) returns (ok: bool, ghost src: seq<Handle>, ghost w: Handle)
      requires Valid() && curChunk + 1 < |currentSpace| && Closed(arena, L) && RootsIn(L)
      modifies this`arena, this`chunks, this`curChunk, this`endMarker, this`curNext, this`regs, this`frames
      ensures !ok ==> CycleRanOut(old(arena), L, old(NextStart()), src, w) == true
      ensures |chunks| == old(|chunks|) && |endMarker| == old(|endMarker|)
      ensures ok ==> Collected(old(arena), L, old(ephemeralStart), src, old(regs), old(frames)) == true
      ensures ok ==> Layout(chunks, currentSpace, endMarker, curChunk, curNext) && old(curChunk) <= curChunk
      ensures ok ==> forall h :: 0 <= h < old(ephemeralStart) ==> arena[h] == old(arena[h])
    {
      var copyStartChunk := curChunk;
      var copyStart := curNext.offset;
      var copyStartSlot := |chunks[currentSpace[curChunk]]|;
      ok, src, w := Copy(true, ephemeralStart, copyStartChunk, copyStartSlot, copyStart, L);
    }

    /**
     * A record placed in the nursery: its bytes come out of the nursery's
     * budget and it follows every record already in the arena.
     */
    method Allocate(n: Node, nrBytes: nat) returns (r: Handle)
      requires Valid() && memNext + nrBytes <= E_SIZE
      requires |n.args| == arity(n.symbol) && RecordBytes(arity, n) <= CHUNK_SIZE && nrBytes == RecordBytes(arity, n)
      requires forall a :: a in n.args ==> a < |arena|
      modifies this`memNext, this`arena
      ensures Valid() && memNext == old(memNext) + nrBytes
      ensures arena == old(arena) + [Live(n)] && r == old(|arena|)
    {
      AppendKeeps(arity, arena, ephemeralStart, n);
      r := |arena|;
      memNext := memNext + nrBytes;
      arena := arena + [Live(n)];
    }

    /** The growth step of fullGC, on the heap's own spaces. */
    method Grow()
      requires Growing(chunks, currentSpace, newSpace, endMarker, curChunk, curNext)
      modifies this`chunks, this`currentSpace, this`newSpace, this`endMarker
      ensures Spaces(chunks, currentSpace, newSpace, endMarker)
      ensures Layout(chunks, currentSpace, endMarker, curChunk, curNext)
      ensures FACTOR * Used() <= |currentSpace| * CHUNK_SIZE
      ensures old(|newSpace|) <= |currentSpace|
      ensures |currentSpace| == old(|newSpace|) || (|currentSpace| - 1) * CHUNK_SIZE < FACTOR * Used()
      ensures old(currentSpace) <= currentSpace + [newSpace[|newSpace| - 1]]
      ensures old(|chunks|) <= |chunks| && chunks[..old(|chunks|)] == old(chunks)
    {
      var cks, cs, ns, em := GrowSpaces(chunks, currentSpace, newSpace, endMarker, curChunk, curNext);
      chunks, currentSpace, newSpace, endMarker := cks, cs, ns, em;
    }

    /** The first step of fullGC: the spaces swap and copying starts at the first chunk of the new current space. */
    method SwapSpaces()
      requires Spaces(chunks, currentSpace, newSpace, endMarker)
      modifies this`chunks, this`currentSpace, this`newSpace, this`curChunk, this`curNext
      ensures currentSpace == old(newSpace) && newSpace == old(currentSpace) && curChunk == 0
      ensures chunks == old(chunks)[currentSpace[0] := []] && curNext == Cursor(currentSpace[0], 0)
      ensures Growing(chunks, currentSpace, newSpace, endMarker, curChunk, curNext)
    {
      currentSpace, newSpace := newSpace, currentSpace;
      curChunk := 0;
      chunks := chunks[currentSpace[0] := []];
      curNext := Cursor(currentSpace[0], 0);
    }

    /**
     * fullGC: the half spaces swap, and everything the roots reach is copied
     * into the new current space from its first chunk on; then the spaces grow
     * so that the current space holds at least FACTOR times the bytes in use.
     */
    method FullGC(ghost L: set<Handle>) returns (ok: bool, ghost src: seq<Handle>, ghost w: Handle)
      requires Valid() && Closed(arena, L) && RootsIn(L)
      requires forall q :: 0 <= q < |regs| ==> regs[q].Ptr?
      modifies this`arena, this`chunks, this`curChunk, this`endMarker, this`curNext, this`regs, this`frames
      modifies this`currentSpace, this`newSpace
      ensures !ok ==> currentSpace == old(newSpace) && CycleRanOut(old(arena), L, Start(0, 0, 0, 0), src, w) == true
      ensures ok ==> Collected(old(arena), L, 0, src, old(regs), old(frames)) == true
      ensures ok ==> Spaces(chunks, currentSpace, newSpace, endMarker) &&
                     Layout(chunks, currentSpace, endMarker, curChunk, curNext)
      ensures ok ==> FACTOR * Used() <= |currentSpace| * CHUNK_SIZE && old(|currentSpace|) <= |currentSpace|
      ensures ok ==> |currentSpace| == old(|currentSpace|) || (|currentSpace| - 1) * CHUNK_SIZE < FACTOR * Used()
    {
      ok, src, w := CopyToNewSpace(L);
      if ok {
        Grow();
      }
    }

    /** The copying half of fullGC: swap the spaces and copy everything reachable into the new one. */
    method CopyToNewSpace(ghost L: set<Handle>) returns (ok: bool, ghost src: seq<Handle>, ghost w: Handle)
      requires Valid() && Closed(arena, L) && RootsIn(L)
      requires forall q :: 0 <= q < |regs| ==> regs[q].Ptr?
      modifies this`arena, this`chunks, this`curChunk, this`endMarker, this`curNext, this`regs, this`frames
      modifies this`currentSpace, this`newSpace
      ensures !ok ==> currentSpace == old(newSpace) && CycleRanOut(old(arena), L, Start(0, 0, 0, 0), src, w) == true
      ensures ok ==> Collected(old(arena), L, 0, src, old(regs), old(frames)) == true
      ensures ok ==> Growing(chunks, currentSpace, newSpace, endMarker, curChunk, curNext)
      ensures |newSpace| == old(|currentSpace|)
    {
      SwapSpaces();
      ghost var (ch, em, cur, cn) := (chunks, endMarker, curChunk, curNext);
      ok, src, w := Copy(false, 0, 0, 0, 0, L);
      if ok {
        GrowingAfterCopy(ch, currentSpace, newSpace, em, cur, cn, chunks, endMarker, curChunk, curNext);
      }
    }

    /**
     * collectGarbage: an ephemeral collection while the current space has a
     * chunk to spare beyond the cursor's, else a full one; either way the
     * nursery is empty afterwards and allocation starts afresh.
     */
    method CollectGarbage(ghost L: set<Handle>) returns (ok: bool, ghost src: seq<Handle>, ghost w: Handle)
      requires Valid() && Closed(arena, L) && RootsIn(L)
      requires curChunk + 1 >= |currentSpace| ==> forall q :: 0 <= q < |regs| ==> regs[q].Ptr?
      modifies this`arena, this`chunks, this`curChunk, this`endMarker, this`curNext, this`regs, this`frames
      modifies this`currentSpace, this`newSpace, this`memNext, this`ephemeralStart
      ensures !ok ==> CycleRanOut(old(arena), L, old(NextStart()), src, w) == true &&
                      memNext == old(memNext) && ephemeralStart == old(ephemeralStart) &&
                      currentSpace == if old(curChunk + 1 < |currentSpace|) then old(currentSpace) else old(newSpace)
      ensures ok ==> Valid() && memNext == 0 && ephemeralStart == |arena|
      ensures ok ==> var lo := if old(curChunk + 1 < |currentSpace|) then old(ephemeralStart) else 0;
                     Collected(old(arena), L, lo, src, old(regs), old(frames)) == true
      ensures ok && old(curChunk + 1 < |currentSpace|) ==>
                currentSpace == old(currentSpace) && newSpace == old(newSpace) &&
                forall h :: 0 <= h < old(ephemeralStart) ==> arena[h] == old(arena[h])
      ensures ok && old(curChunk + 1 >= |currentSpace|) ==>
                FACTOR * Used() <= |currentSpace| * CHUNK_SIZE && old(|currentSpace|) <= |currentSpace|
    {
      if curChunk + 1 < |currentSpace| {
        ok, src, w := EphemeralGC(L);
      } else {
        ok, src, w := FullGC(L);
      }
      if ok {
        ResetNursery();
      }
    }

    /** After a collection the nursery is empty: every record there is now old. */
    method ResetNursery()
      requires WellShaped(arity, arena) && Spaces(chunks, currentSpace, newSpace, endMarker)
      requires Layout(chunks, currentSpace, endMarker, curChunk, curNext)
      modifies this`memNext, this`ephemeralStart
      ensures Valid() && memNext == 0 && ephemeralStart == |arena|
    {
      SealedWhole(arity, arena);
      memNext := 0;
      ephemeralStart := |arena|;
    }

    /**
     * initMem: an empty nursery, a current space of two chunks with the
     * cursor at the start of the first, and a new space of three chunks.
     */
    constructor InitMem(arity: nat -> nat)
      ensures Valid() && Initial()
      ensures this.arity == arity && arena == [] && regs == [] && frames == []
      ensures memNext == 0 && ephemeralStart == 0
      ensures |currentSpace| == 2 && |newSpace| == 3 && endMarker == [0, 0]
    {
      this.arity := arity;
      arena := [];
      ephemeralStart := 0;
      memNext := 0;
      chunks := [[], [], [], [], []];
      currentSpace := [0, 1];
      newSpace := [2, 3, 4];
      endMarker := [0, 0];
      curChunk := 1;
      curNext := Cursor(0, 0);
      regs := [];
      frames := [];
    }
  }
}
