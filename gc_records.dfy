/**
 * Records and chunk layout of the compiled runtime's copying collector
 * (FullCompiler/runtimeNew.cc).
 *
 * Memory is modelled as an arena: every record ever allocated (in the
 * nursery, or as a copy in a heap chunk) gets a fresh `Handle`, its index in
 * the arena, and handles are never reused. What raw addresses express in the
 * source is kept explicitly: a heap chunk is the sequence of `Slot`s laid out
 * in it (which record, how many bytes), and a `Cursor` is a chunk (block)
 * with a byte offset into it.
 */
module GcRecords {

  /** Bytes in one heap chunk. */
  const CHUNK_SIZE: nat := 1024 * 1024
  /** Bytes in the nursery. */
  const E_SIZE: nat := 1024 * 1024
  /** A full collection grows the heap until it is FACTOR times the bytes in use. */
  const FACTOR: nat := 4
  /**
   * `sizeof(Node)` and `sizeof(Node*)`. The header runtime.hh that fixes the
   * node layout is not part of this model; these are the values of a 64-bit
   * target with a 16-byte header.
   */
  const NODE_BYTES: nat := 16
  const PTR_BYTES: nat := 8

  type Handle = nat

  /** A root slot: null, or a pointer to a record. */
  datatype Ref = Null | Ptr(h: Handle)

  /**
   * A record. `args` are its `arity[symbol]` argument pointers; a record
   * flagged `unreduced` carries one more slot, `extra`, that is copied with
   * the record but never followed as a pointer.
   */
  datatype Node = Node(symbol: nat, unreduced: bool, otherFlags: nat, sortIndex: int,
                       args: seq<Handle>, extra: int)

  /**
   * An arena cell: a live record, or one whose EVACUATED flag is set and
   * whose forwarding pointer is `to` (it keeps its header).
   */
  datatype Cell = Live(node: Node) | Forwarded(node: Node, to: Handle)

  /** One record laid out in a chunk, with its size in bytes. */
  datatype Slot = Slot(h: Handle, bytes: nat)

  /** A position in the heap: a chunk (block) and a byte offset into it. */
  datatype Cursor = Cursor(block: nat, offset: nat)

  /** The bytes a record occupies: header, argument pointers and the extra slot of an unreduced record. */
  function RecordBytes(arity: nat -> nat, n: Node): (r: nat)
    ensures r >= NODE_BYTES
  {
    NODE_BYTES + PTR_BYTES * (arity(n.symbol) + if n.unreduced then 1 else 0)
  }

  /** Bytes used by a run of slots. */
  function Fill(slots: seq<Slot>): nat
  {
    if slots == [] then 0 else Fill(slots[..|slots| - 1]) + slots[|slots| - 1].bytes
  }

  lemma FillAppend(slots: seq<Slot>, x: Slot)
    ensures Fill(slots + [x]) == Fill(slots) + x.bytes
  {
    assert (slots + [x])[..|slots|] == slots;
  }

  /** A proper prefix, followed by the next slot, still fits in the whole run. */
  lemma {:induction false} FillPrefix(slots: seq<Slot>, k: nat)
    requires k < |slots|
    ensures Fill(slots[..k]) + slots[k].bytes <= Fill(slots)
    decreases |slots|
  {
    var n := |slots| - 1;
    if k == n {
      assert Fill(slots) == Fill(slots[..n]) + slots[n].bytes;
    } else {
      FillPrefix(slots[..n], k);
      assert slots[..n][..k] == slots[..k];
    }
  }

  /** Stepping over slot `k` advances the byte offset by that slot's size. */
  lemma FillStep(slots: seq<Slot>, k: nat)
    requires k < |slots|
    ensures Fill(slots[..k + 1]) == Fill(slots[..k]) + slots[k].bytes
  {
    assert slots[..k + 1] == slots[..k] + [slots[k]];
    FillAppend(slots[..k], slots[k]);
  }

  predicate Distinct(s: seq<nat>)
  {
    forall i, j :: 0 <= i < j < |s| ==> s[i] != s[j]
  }

  predicate Disjoint(a: seq<nat>, b: seq<nat>)
  {
    forall i, j :: 0 <= i < |a| && 0 <= j < |b| ==> a[i] != b[j]
  }

  /** Every block id in `bs` names a chunk. */
  predicate BlocksIn(chunks: seq<seq<Slot>>, bs: seq<nat>)
  {
    forall i :: 0 <= i < |bs| ==> bs[i] < |chunks|
  }

  /**
   * The two half spaces: `newSpace` always has one chunk more than
   * `currentSpace`, there is one end marker per current chunk, and no chunk
   * is listed twice in either space or in both.
   */
  predicate Spaces(chunks: seq<seq<Slot>>, cs: seq<nat>, ns: seq<nat>, endMarker: seq<nat>)
  {
    |cs| >= 1 && |ns| == |cs| + 1 && |endMarker| == |cs| &&
    BlocksIn(chunks, cs) && BlocksIn(chunks, ns) &&
    Distinct(cs) && Distinct(ns) && Disjoint(cs, ns)
  }

  /**
   * The copy cursor `cn` is at the end of the used part of chunk `cs[cur]`,
   * and every chunk before it is closed off by its end marker. Every chunk
   * holds at most CHUNK_SIZE bytes. During a full collection `cs` is the new
   * space, one chunk longer than `endMarker`.
   */
  predicate Layout(chunks: seq<seq<Slot>>, cs: seq<nat>, endMarker: seq<nat>, cur: nat, cn: Cursor)
  {
    BlocksIn(chunks, cs) && Distinct(cs) && cur < |cs| && |cs| <= |endMarker| + 1 &&
    cn.block == cs[cur] && cn.offset == Fill(chunks[cs[cur]]) && cn.offset <= CHUNK_SIZE &&
    forall i :: 0 <= i < cur ==> endMarker[i] == Fill(chunks[cs[i]]) && endMarker[i] <= CHUNK_SIZE
  }

  /**
   * The slots laid out from slot `k` of chunk `cs[i]` through the end of
   * chunk `cs[last]`, in address order.
   */
  function Rem(chunks: seq<seq<Slot>>, cs: seq<nat>, i: nat, k: nat, last: nat): seq<Slot>
    requires i <= last < |cs| && BlocksIn(chunks, cs) && k <= |chunks[cs[i]]|
    decreases last - i
  {
    if i == last then chunks[cs[i]][k..]
    else chunks[cs[i]][k..] + Rem(chunks, cs, i + 1, 0, last)
  }

  /** Within a chunk, the remaining slots are the one at `k` and those after it. */
  lemma RemStep(chunks: seq<seq<Slot>>, cs: seq<nat>, i: nat, k: nat, last: nat)
    requires i <= last < |cs| && BlocksIn(chunks, cs) && k < |chunks[cs[i]]|
    ensures Rem(chunks, cs, i, k, last) == [chunks[cs[i]][k]] + Rem(chunks, cs, i, k + 1, last)
  {
    assert chunks[cs[i]][k..] == [chunks[cs[i]][k]] + chunks[cs[i]][k + 1..];
  }

  /** At the end of a chunk that is not the last, the remaining slots start in the next chunk. */
  lemma RemNext(chunks: seq<seq<Slot>>, cs: seq<nat>, i: nat, last: nat)
    requires i < last < |cs| && BlocksIn(chunks, cs)
    ensures Rem(chunks, cs, i, |chunks[cs[i]]|, last) == Rem(chunks, cs, i + 1, 0, last)
  {
    assert chunks[cs[i]][|chunks[cs[i]]|..] == [];
  }

  /** Appending a slot to the last chunk appends it to every run that reaches that chunk. */
  lemma {:induction false} RemAppendLast(chunks: seq<seq<Slot>>, cs: seq<nat>, i: nat, k: nat, last: nat, x: Slot)
    requires i <= last < |cs| && BlocksIn(chunks, cs) && Distinct(cs) && k <= |chunks[cs[i]]|
    ensures BlocksIn(chunks[cs[last] := chunks[cs[last]] + [x]], cs)
    ensures Rem(chunks[cs[last] := chunks[cs[last]] + [x]], cs, i, k, last) == Rem(chunks, cs, i, k, last) + [x]
    ensures var c := chunks[cs[last] := chunks[cs[last]] + [x]][cs[i]];
            |chunks[cs[i]]| <= |c| && c[..|chunks[cs[i]]|] == chunks[cs[i]]
    decreases last - i
  {
    var chunks' := chunks[cs[last] := chunks[cs[last]] + [x]];
    if i == last {
      assert chunks'[cs[i]][k..] == chunks[cs[i]][k..] + [x];
    } else {
      assert chunks'[cs[i]] == chunks[cs[i]];
      RemAppendLast(chunks, cs, i + 1, 0, last, x);
    }
  }

  /** Starting the next chunk with one slot extends every run by that slot. */
  lemma {:induction false} RemOpenNext(chunks: seq<seq<Slot>>, cs: seq<nat>, i: nat, k: nat, last: nat, x: Slot)
    requires i <= last && last + 1 < |cs| && BlocksIn(chunks, cs) && Distinct(cs) && k <= |chunks[cs[i]]|
    ensures BlocksIn(chunks[cs[last + 1] := [x]], cs)
    ensures Rem(chunks[cs[last + 1] := [x]], cs, i, k, last + 1) == Rem(chunks, cs, i, k, last) + [x]
    ensures chunks[cs[last + 1] := [x]][cs[i]] == chunks[cs[i]]
    decreases last - i
  {
    var chunks' := chunks[cs[last + 1] := [x]];
    assert chunks'[cs[i]] == chunks[cs[i]];
    if i == last {
      assert Rem(chunks', cs, i + 1, 0, last + 1) == [x];
    } else {
      RemOpenNext(chunks, cs, i + 1, 0, last, x);
    }
  }

  /** The slot at position `k` of chunk `i` heads the remaining run. */
  lemma RemHead(chunks: seq<seq<Slot>>, cs: seq<nat>, i: nat, k: nat, last: nat)
    requires i <= last < |cs| && BlocksIn(chunks, cs) && k < |chunks[cs[i]]|
    ensures Rem(chunks, cs, i, k, last) != [] && Rem(chunks, cs, i, k, last)[0] == chunks[cs[i]][k]
  {
    RemStep(chunks, cs, i, k, last);
  }

  /** Appending a record that fits at the cursor keeps the layout, with the cursor past it. */
  lemma LayoutAppend(chunks: seq<seq<Slot>>, cs: seq<nat>, endMarker: seq<nat>, cur: nat, cn: Cursor, x: Slot)
    requires Layout(chunks, cs, endMarker, cur, cn) && cn.offset + x.bytes <= CHUNK_SIZE
    ensures Layout(chunks[cn.block := chunks[cn.block] + [x]], cs, endMarker, cur, Cursor(cn.block, cn.offset + x.bytes))
  {
    var chunks' := chunks[cn.block := chunks[cn.block] + [x]];
    FillAppend(chunks[cn.block], x);
    forall i | 0 <= i < cur
      ensures chunks'[cs[i]] == chunks[cs[i]]
    {
    }
  }

  /**
   * A record that does not fit closes the cursor's chunk at the cursor and
   * opens the next one, which then holds just that record.
   */
  lemma LayoutOpenNext(chunks: seq<seq<Slot>>, cs: seq<nat>, endMarker: seq<nat>, cur: nat, cn: Cursor, x: Slot)
    requires Layout(chunks, cs, endMarker, cur, cn) && cur + 1 < |cs| && x.bytes <= CHUNK_SIZE
    ensures cur < |endMarker|
    ensures Layout(chunks[cs[cur + 1] := [x]], cs, endMarker[cur := cn.offset], cur + 1, Cursor(cs[cur + 1], x.bytes))
  {
    var chunks' := chunks[cs[cur + 1] := [x]];
    FillAppend([], x);
    forall i | 0 <= i <= cur
      ensures chunks'[cs[i]] == chunks[cs[i]]
    {
    }
  }

  /**
   * Current chunk `j` was opened for a record that did not fit behind the
   * end marker of chunk `j - 1`; that record is the chunk's first slot.
   */
  predicate Overflowed(chunks: seq<seq<Slot>>, cs: seq<nat>, endMarker: seq<nat>, j: nat)
  {
    0 < j < |cs| && j <= |endMarker| && cs[j] < |chunks| && chunks[cs[j]] != [] &&
    endMarker[j - 1] + chunks[cs[j]][0].bytes > CHUNK_SIZE
  }

  /**
   * From current chunk `c0` up to the cursor's chunk `cur`, every chunk was
   * closed only because the record that opens the next one did not fit in it.
   */
  predicate Packed(chunks: seq<seq<Slot>>, cs: seq<nat>, endMarker: seq<nat>, c0: nat, cur: nat)
  {
    forall j :: c0 < j <= cur ==> Overflowed(chunks, cs, endMarker, j)
  }

  /** Appending at the cursor keeps the chunks packed: the first slot of each chunk stays. */
  lemma PackedAppend(chunks: seq<seq<Slot>>, cs: seq<nat>, endMarker: seq<nat>, c0: nat, cur: nat, b: nat, x: Slot)
    requires Distinct(cs) && cur < |cs| && b == cs[cur] && Packed(chunks, cs, endMarker, c0, cur) && b < |chunks|
    ensures Packed(chunks[b := chunks[b] + [x]], cs, endMarker, c0, cur)
  {
    var chunks': seq<seq<Slot>> := chunks[b := chunks[b] + [x]];
    forall j | c0 < j <= cur
      ensures Overflowed(chunks', cs, endMarker, j)
    {
      assert Overflowed(chunks, cs, endMarker, j);
      if cs[j] == b {
        assert chunks'[cs[j]] == chunks[cs[j]] + [x];
      }
    }
  }

  /** Opening the next chunk with a record that did not fit at the cursor keeps the chunks packed. */
  lemma PackedOpenNext(chunks: seq<seq<Slot>>, cs: seq<nat>, endMarker: seq<nat>, c0: nat, cur: nat, offset: nat, x: Slot)
    requires Distinct(cs) && cur + 1 < |cs| && cur < |endMarker| && cs[cur + 1] < |chunks|
    requires Packed(chunks, cs, endMarker, c0, cur) && offset + x.bytes > CHUNK_SIZE
    ensures Packed(chunks[cs[cur + 1] := [x]], cs, endMarker[cur := offset], c0, cur + 1)
  {
    var chunks': seq<seq<Slot>> := chunks[cs[cur + 1] := [x]];
    var em' := endMarker[cur := offset];
    forall j | c0 < j <= cur + 1
      ensures Overflowed(chunks', cs, em', j)
    {
      if j <= cur {
        assert Overflowed(chunks, cs, endMarker, j);
        assert cs[j] != cs[cur + 1];
      }
    }
  }

  /**
   * The spaces in the middle of a full collection: the current space is the
   * one copied into, one chunk longer than the new space and the end markers.
   */
  predicate Growing(chunks: seq<seq<Slot>>, cs: seq<nat>, ns: seq<nat>, endMarker: seq<nat>, cur: nat, cn: Cursor)
  {
    |ns| >= 1 && |cs| == |ns| + 1 && |endMarker| == |ns| &&
    BlocksIn(chunks, ns) && Distinct(ns) && Disjoint(cs, ns) &&
    Layout(chunks, cs, endMarker, cur, cn)
  }

  /** Adding a fresh chunk to each space keeps the spaces apart and the layout of the current one. */
  lemma GrowStep(chunks: seq<seq<Slot>>, cs: seq<nat>, ns: seq<nat>, endMarker: seq<nat>, cur: nat, cn: Cursor)
    requires Growing(chunks, cs, ns, endMarker, cur, cn)
    ensures Growing(chunks + [[], []], cs + [|chunks|], ns + [|chunks| + 1], endMarker + [0], cur, cn)
  {
    var chunks' := chunks + [[], []];
    var cs' := cs + [|chunks|];
    forall i | 0 <= i < |cs|
      ensures cs'[i] == cs[i] && chunks'[cs[i]] == chunks[cs[i]]
    {
    }
  }

  /** A chunk that only grew at its end keeps every prefix of what it held. */
  lemma PrefixTake(before: seq<Slot>, after: seq<Slot>, n: nat)
    requires n <= |before| <= |after| && after[..|before|] == before
    ensures after[..n] == before[..n]
  {
    assert after[..n] == after[..|before|][..n];
  }

  /** A copy that keeps the number of chunks and end markers and leaves a layout keeps the spaces growable. */
  lemma GrowingAfterCopy(chunks: seq<seq<Slot>>, cs: seq<nat>, ns: seq<nat>, endMarker: seq<nat>, cur: nat, cn: Cursor,
                         chunks': seq<seq<Slot>>, endMarker': seq<nat>, cur': nat, cn': Cursor)
    requires Growing(chunks, cs, ns, endMarker, cur, cn)
    requires |chunks'| == |chunks| && |endMarker'| == |endMarker| && Layout(chunks', cs, endMarker', cur', cn')
    ensures Growing(chunks', cs, ns, endMarker', cur', cn')
  {
  }

  /** Once the new space holds FACTOR times the bytes in use, the cursor's chunk is not its last. */
  lemma GrowFits(cur: nat, offset: nat, n: nat)
    requires n >= 1 && FACTOR * (cur * CHUNK_SIZE + offset) <= n * CHUNK_SIZE
    ensures cur < n
  {
    assert cur * CHUNK_SIZE < n * CHUNK_SIZE;
  }

  /** Handing the last current chunk to the new space, past the cursor, restores the spaces. */
  lemma GrowDone(chunks: seq<seq<Slot>>, cs: seq<nat>, ns: seq<nat>, endMarker: seq<nat>, cur: nat, cn: Cursor)
    requires Growing(chunks, cs, ns, endMarker, cur, cn) && cur < |cs| - 1
    ensures var t := |cs| - 1;
            Spaces(chunks, cs[..t], ns + [cs[t]], endMarker) && Layout(chunks, cs[..t], endMarker, cur, cn)
  {
  }

  /**
   * The growth step of fullGC: while FACTOR times the bytes in use exceed
   * the size of the new space, both spaces gain a fresh chunk; then the last
   * current chunk is handed to the new space, which is again one chunk
   * longer than the current space. The current space then holds FACTOR times
   * the bytes in use, and has grown no more than needed for that.
   */
  method GrowSpaces(chunks: seq<seq<Slot>>, cs: seq<nat>, ns: seq<nat>, endMarker: seq<nat>, cur: nat, cn: Cursor)
    returns (chunks': seq<seq<Slot>>, cs': seq<nat>, ns': seq<nat>, endMarker': seq<nat>)
    requires Growing(chunks, cs, ns, endMarker, cur, cn)
    ensures Spaces(chunks', cs', ns', endMarker') && Layout(chunks', cs', endMarker', cur, cn)
    ensures FACTOR * (cur * CHUNK_SIZE + cn.offset) <= |cs'| * CHUNK_SIZE
    ensures |ns| <= |cs'|
    ensures |cs'| == |ns| || (|cs'| - 1) * CHUNK_SIZE < FACTOR * (cur * CHUNK_SIZE + cn.offset)
    ensures cs <= cs' + [ns'[|ns'| - 1]]
    ensures |chunks| <= |chunks'| && chunks'[..|chunks|] == chunks
  {
    var used := (cur + 1) * CHUNK_SIZE - (CHUNK_SIZE - cn.offset);
    var allocatedBytes := |ns| * CHUNK_SIZE;
    var needed := FACTOR * used;
    chunks', cs', ns', endMarker' := chunks, cs, ns, endMarker;
    while needed > allocatedBytes
      invariant allocatedBytes == |ns'| * CHUNK_SIZE && |ns| <= |ns'|
      invariant |ns'| == |ns| || (|ns'| - 1) * CHUNK_SIZE < needed
      invariant Growing(chunks', cs', ns', endMarker', cur, cn) == true
      invariant cs <= cs'
      invariant |chunks| <= |chunks'| && chunks'[..|chunks|] == chunks
      decreases needed - allocatedBytes
    {
      GrowStep(chunks', cs', ns', endMarker', cur, cn);
      chunks', cs', ns', endMarker' := chunks' + [[], []], cs' + [|chunks'|], ns' + [|chunks'| + 1], endMarker' + [0];
      allocatedBytes := allocatedBytes + CHUNK_SIZE;
    }
    var t := |cs'| - 1;
    GrowFinish(cs, ns, chunks', cs', ns', endMarker', cur, cn);
    ns' := ns' + [cs'[t]];
    cs' := cs'[..t];
  }

  /** Once the new space is large enough, handing it the last current chunk meets fullGC's growth target. */
  lemma GrowFinish(cs: seq<nat>, ns: seq<nat>, chunks: seq<seq<Slot>>, cs': seq<nat>, ns': seq<nat>, endMarker: seq<nat>,
                   cur: nat, cn: Cursor)
    requires Growing(chunks, cs', ns', endMarker, cur, cn)
    requires FACTOR * (cur * CHUNK_SIZE + cn.offset) <= |ns'| * CHUNK_SIZE
    requires |ns'| == |ns| || (|ns'| - 1) * CHUNK_SIZE < FACTOR * (cur * CHUNK_SIZE + cn.offset)
    requires cs <= cs' && |ns| <= |ns'|
    ensures var t := |cs'| - 1;
            Spaces(chunks, cs'[..t], ns' + [cs'[t]], endMarker) && Layout(chunks, cs'[..t], endMarker, cur, cn) &&
            FACTOR * (cur * CHUNK_SIZE + cn.offset) <= |cs'[..t]| * CHUNK_SIZE &&
            |ns| <= |cs'[..t]| &&
            (|cs'[..t]| == |ns| || (|cs'[..t]| - 1) * CHUNK_SIZE < FACTOR * (cur * CHUNK_SIZE + cn.offset)) &&
            cs <= cs'[..t] + [(ns' + [cs'[t]])[|ns'|]]
  {
    var t := |cs'| - 1;
    GrowFits(cur, cn.offset, |ns'|);
    GrowDone(chunks, cs', ns', endMarker, cur, cn);
    assert cs'[..t] + [cs'[t]] == cs';
  }

  /**
   * The stop test of the scan in ephemeralGC and fullGC as written: in the
   * cursor's chunk the scan position is compared with `stale`, the global
   * copy cursor, which the cycle only brings up to date once it has finished.
   * The model's scan compares with the cycle's own cursor instead.
   */
  predicate StopsAsWritten(cs: seq<nat>, endMarker: seq<nat>, cur: nat, i: nat, p: nat, stale: Cursor)
    requires i <= cur < |cs| && (i < cur ==> i < |endMarker|)
  {
    if i == cur then Cursor(cs[i], p) == stale else p == endMarker[i]
  }

  /**
   * In an ephemeral cycle whose root copies all fit in the copy-start chunk,
   * the global cursor still marks the copy start, so the scan stops before
   * the first copy although the cycle's cursor lies beyond it: no copy is
   * scanned, and pointers from the copies into the nursery are left behind.
   */
  lemma StaleStopSkipsCopies(cs: seq<nat>, endMarker: seq<nat>, c0: nat, copyStart: nat, cn: Cursor)
    requires c0 < |cs| && cn.block == cs[c0] && copyStart < cn.offset
    ensures StopsAsWritten(cs, endMarker, c0, c0, copyStart, Cursor(cs[c0], copyStart))
    ensures Cursor(cs[c0], copyStart) != cn
  {
  }

  /**
   * A concrete instance: one record of arity one, whose argument is the
   * nursery record 7, copied from the registers into the empty first chunk
   * of a two-chunk space. The chunk then holds 24 bytes, the cycle's cursor
   * is at byte 24, and the scan as written stops at byte 0.
   */
  lemma StaleStopExample()
    ensures Fill([Slot(9, RecordBytes(_ => 1, Node(0, false, 0, 0, [7], 0)))]) == 24
    ensures StopsAsWritten([0, 1], [0, 0], 0, 0, 0, Cursor(0, 0))
    ensures !StopsAsWritten([0, 1], [0, 0], 0, 0, 0, Cursor(0, 24))
  {
  }

  /**
   * In a full cycle the global cursor lies in a chunk of the space just
   * retired, so the stop test never succeeds in the cursor's chunk: the scan
   * runs on past the copies.
   */
  lemma StaleStopNeverInNewSpace(cs: seq<nat>, ns: seq<nat>, endMarker: seq<nat>, cur: nat, p: nat, stale: Cursor)
    requires cur < |cs| && Disjoint(cs, ns) && stale.block in ns
    ensures !StopsAsWritten(cs, endMarker, cur, cur, p, stale)
  {
    var j :| 0 <= j < |ns| && ns[j] == stale.block;
    assert cs[cur] != ns[j];
  }
}
