/** Clients of the heap: calls on it and writes into the payloads, in any order. */
module HeapClients {
  import opened Wrappers
  import opened ByteMemory
  import opened OrderedArrays
  import opened Tiling
  import opened HeapLaws
  import opened Heaps
  import opened HeapRuns

  /** What a client can see: the bytes, and its blocks with their sizes. */
  datatype Snapshot = Snapshot(mem: Memory, live: map<int, int>)

  datatype Event = Took(b: int, size: int) | Gave(b: int) | Wrote(b: int)

  ghost predicate Follows(s: Snapshot, e: Event, s': Snapshot) {
    match e
    case Took(b, size) => b !in s.live && s'.live == s.live[b := size] && PayloadsKept(s.mem, s'.mem, s.live)
    case Gave(b) => b in s.live && s'.live == s.live - {b} && PayloadsKept(s.mem, s'.mem, s'.live)
    case Wrote(b) => b in s.live && s'.live == s.live && PayloadsKept(s.mem, s'.mem, s.live - {b})
  }

  ghost predicate History(h: seq<Snapshot>, es: seq<Event>) {
    && |h| == |es| + 1
    && forall i :: 0 <= i < |es| ==> Follows(h[i], es[i], h[i + 1])
  }

  /** Over any history a block has its size and every byte of its payload until its owner writes into
      it or gives it back, whatever other calls and writes there are. */
  lemma {:induction false} PayloadStays(h: seq<Snapshot>, es: seq<Event>, b: int)
    requires History(h, es) && b in h[0].live && Gave(b) !in es && Wrote(b) !in es
    ensures b in h[|es|].live && h[|es|].live[b] == h[0].live[b]
    ensures forall i :: InPayload(b, h[0].live[b], i) && 0 <= i < SPACE ==> h[|es|].mem[i] == h[0].mem[i]
    decreases |es|
  {
    if es != [] {
      var last := |es| - 1;
      assert es[last] in es && forall e :: e in es[..last] ==> e in es;
      PayloadStays(h[..|es|], es[..last], b);
      OneEvent(h[last], es[last], h[last + 1], b);
    }
  }

  lemma OneEvent(s: Snapshot, e: Event, s': Snapshot, b: int)
    requires Follows(s, e, s') && b in s.live && e != Gave(b) && e != Wrote(b)
    ensures b in s'.live && s'.live[b] == s.live[b]
    ensures forall i :: InPayload(b, s.live[b], i) && 0 <= i < SPACE ==> s'.mem[i] == s.mem[i]
  {
    match e {
      case Took(c, size) =>
      case Gave(c) =>
        assert b in s'.live;
      case Wrote(c) =>
        assert b in s.live - {c} && (s.live - {c})[b] == s.live[b];
    }
  }

  ghost function Now(heap: Heap): Snapshot
    reads heap
  {
    Snapshot(heap.mem, Live(heap.blocks))
  }

  lemma OneEventMore(h: seq<Snapshot>, es: seq<Event>, e: Event, s: Snapshot)
    requires History(h, es) && Follows(h[|es|], e, s)
    ensures History(h + [s], es + [e])
  {
    hide Follows;
  }

  /** What has happened to a heap: what its clients saw, and the steps its blocks made. */
  datatype Record = Record(snapshots: seq<Snapshot>, events: seq<Event>, start: State, ops: seq<Op>)

  /** A record of a heap as it is now. */
  ghost predicate Recorded(heap: Heap, r: Record)
    reads heap
  {
    && History(r.snapshots, r.events) && r.snapshots[|r.events|] == Now(heap)
    && Runs(r.start, heap.startAddress, r.ops, StateOf(heap))
  }

  ghost function Added(r: Record, e: Event, s: Snapshot, ops: seq<Op>): Record {
    Record(r.snapshots + [s], r.events + [e], r.start, r.ops + ops)
  }

  /** Every heap has a record that starts with its present. */
  lemma RecordStarts(heap: Heap)
    ensures Recorded(heap, Record([Now(heap)], [], StateOf(heap), []))
  {
  }

  /** Alloc, with room for its tags, is one more event, and one or two more steps. */
  method Take(heap: Heap, size: nat, pageAlign: bool, ghost record: Record)
    returns (r: Option<int>, ghost w: Placement, ghost record': Record)
    requires heap.Valid() && heap.Served(size, pageAlign) && Recorded(heap, record)
    modifies heap, heap.index, heap.index.items
    ensures w == Chosen(old(heap.index.Contents()), old(heap.blocks), old(heap.endAddress), size, pageAlign)
    ensures r != None ==>
              && heap.Valid() && Recorded(heap, record') && size + TAGS <= w.taken
              && record' == Added(record, Took(r.value - 4, w.taken), Now(heap),
                                  AllocOps(old(heap.index.Contents()), old(heap.blocks), old(heap.endAddress), size, pageAlign))
    ensures r == None <==>
              Refused(old(heap.index.Contents()), old(heap.blocks), old(heap.endAddress), heap.maxAddress, size, pageAlign)
  {
    hide Word, DecodeFooter, Represents, Live, CanGrow, Follows, History, PayloadsKept, Retries, Chosen, GapsHoldTags, Carved,
      Carvable, Grown, Growth, Runs, AllocOps, SortedBySize, SomeHoleFits, Consistent;
    ghost var s, m, index, hi := Now(heap), heap.blocks, heap.index.Contents(), heap.endAddress;
    r, w := heap.Alloc(size, pageAlign);
    record' := record;
    if r != None {
      record' := Added(record, Took(r.value - 4, w.taken), Now(heap), AllocOps(index, m, hi, size, pageAlign));
      TookFollows(s, r.value - 4, w.taken, Now(heap));
      LastOf(record.snapshots, record.events);
      OneEventMore(record.snapshots, record.events, Took(r.value - 4, w.taken), Now(heap));
      AllocRuns(record.start, heap.startAddress, record.ops, index, m, hi, size, pageAlign);
    }
  }

  lemma LastOf(h: seq<Snapshot>, es: seq<Event>)
    requires History(h, es)
    ensures |h| == |es| + 1
  {
  }

  lemma TookFollows(s: Snapshot, b: int, size: int, s': Snapshot)
    requires b !in s.live && s'.live == s.live[b := size] && PayloadsKept(s.mem, s'.mem, s.live)
    ensures Follows(s, Took(b, size), s')
  {
  }

  /** Free, where the end keeps its tags, is one more event and one more step. */
  method Give(heap: Heap, p: int, ghost record: Record) returns (ok: bool, ghost record': Record)
    requires heap.Valid() && p != 0 && p - 4 in heap.blocks && !heap.blocks[p - 4].hole
    requires EndKeepsTags(heap.blocks, heap.startAddress, heap.endAddress, p - 4) && Recorded(heap, record)
    modifies heap, heap.index, heap.index.items
    ensures ok ==>
              && heap.Valid() && Recorded(heap, record')
              && record' == Added(record, Gave(p - 4), Now(heap), [Release(p - 4)])
    ensures !ok <==> FalseHoleAbove(old(heap.mem), old(heap.blocks), old(heap.endAddress), p - 4)
                     || (JoinsNothing(old(heap.blocks), p - 4) && |old(heap.index.Contents())| + 1 >= INDEX_SIZE)
  {
    hide Word, DecodeFooter, DecodeHeader, Represents, Follows, History, PayloadsKept, EndKeepsTags, Freed, FalseHoleAbove,
      JoinsNothing, Consistent, MergedStart, MergedEnd, SortedBySize, Runs;
    ghost var s, s1 := Now(heap), StateOf(heap);
    LiveOf(heap.blocks, p - 4);
    if MergedEnd(heap.blocks, p - 4) == heap.endAddress {
      KeptEnd(heap.blocks, heap.startAddress, heap.endAddress, p - 4);
    }
    hide Live, ContractedTo, PagesBetween, Foremost;
    ok := heap.Free(p);
    record' := record;
    if ok {
      record' := Added(record, Gave(p - 4), Now(heap), [Release(p - 4)]);
      GaveFollows(s, p - 4, Now(heap));
      LastOf(record.snapshots, record.events);
      OneEventMore(record.snapshots, record.events, Gave(p - 4), Now(heap));
      RunsMore(record.start, heap.startAddress, record.ops, s1, Release(p - 4));
    }
  }

  lemma KeptEnd(m: Blocks, lo: int, hi: int, b: int)
    requires b in m && EndKeepsTags(m, lo, hi, b) && MergedEnd(m, b) == hi
    ensures ContractedTo(MergedStart(m, b) - lo) == MIN_SIZE
  {
  }

  lemma LiveOf(m: Blocks, b: int)
    requires b in m && !m[b].hole
    ensures b in Live(m) && Live(m)[b] == m[b].size
  {
  }

  lemma GaveFollows(s: Snapshot, b: int, s': Snapshot)
    requires b in s.live && s'.live == s.live - {b} && PayloadsKept(s.mem, s'.mem, s'.live)
    ensures Follows(s, Gave(b), s')
  {
  }

  /** A client writes a byte of its own: any value at all, even one that looks like a tag. */
  method Store(heap: Heap, b: int, i: int, value: Byte, ghost record: Record) returns (ghost record': Record)
    requires heap.Valid() && b in heap.blocks && !heap.blocks[b].hole && InPayload(b, heap.blocks[b].size, i)
    requires Recorded(heap, record)
    modifies heap`mem
    ensures heap.Valid() && heap.blocks == old(heap.blocks) && 0 <= i < SPACE && heap.mem == old(heap.mem)[i := value]
    ensures Recorded(heap, record') && record' == Added(record, Wrote(b), Now(heap), [])
  {
    hide Word, DecodeFooter, DecodeHeader, Tiles, NoAdjacentHoles, AllTagged, Indexes, Follows, History, Live, Runs;
    ghost var s, mem, m := Now(heap), heap.mem, heap.blocks;
    BlockBounds(mem, m, heap.startAddress, heap.endAddress, b);
    heap.mem := heap.mem[i := value];
    WriteKeepsTags(mem, heap.mem, m, heap.startAddress, heap.endAddress, b, i);
    WordFrame(mem, heap.mem, i, i + 1, heap.startAddress - 4);
    WroteFollows(mem, heap.mem, m, heap.startAddress, heap.endAddress, b, i);
    LastOf(record.snapshots, record.events);
    OneEventMore(record.snapshots, record.events, Wrote(b), Now(heap));
    record' := Added(record, Wrote(b), Now(heap), []);
    assert record.ops + [] == record.ops;
  }

  lemma WriteKeepsTags(mem: Memory, mem': Memory, m: Blocks, lo: int, hi: int, b: int, i: int)
    requires Tiles(m, lo, hi) && AllTagged(mem, m) && SameOutside(mem, mem', i, i + 1)
    requires b in m && InPayload(b, m[b].size, i)
    ensures AllTagged(mem', m)
  {
    hide Word;
    forall a | a in m ensures Tagged(mem', a, m[a].size, m[a].hole) {
      TagsNeverOverlap(mem, a, m[a].size, m[a].hole);
      WordFrame(mem, mem', i, i + 1, a);
      WordFrame(mem, mem', i, i + 1, a + m[a].size - 4);
    }
  }

  lemma WroteFollows(mem: Memory, mem': Memory, m: Blocks, lo: int, hi: int, b: int, i: int)
    requires Tiles(m, lo, hi) && SameOutside(mem, mem', i, i + 1) && b in m && !m[b].hole && InPayload(b, m[b].size, i)
    ensures Follows(Snapshot(mem, Live(m)), Wrote(b), Snapshot(mem', Live(m)))
  {
    forall a, k | a in Live(m) - {b} && InPayload(a, Live(m)[a], k) && 0 <= k < SPACE ensures mem'[k] == mem[k] {
      PayloadsDisjoint(m, lo, hi, a, b, k);
    }
  }
}
