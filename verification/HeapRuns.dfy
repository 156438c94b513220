/** What the heap's operations mean for its clients: an allocation undone by a release, runs of
    operations, and the inputs on which the guards fail. */
module HeapRuns {
  import opened Wrappers
  import opened ByteMemory
  import opened OrderedArrays
  import opened Tiling
  import opened HeapLaws
  import opened Heaps

  /** Freeing a block right after it was carved joins both gaps again. */
  lemma FreeUndoesAlloc(m: Blocks, lo: int, hi: int, a: int, lead: int, taken: int)
    requires Carvable(m, lo, hi, a, lead, taken)
    ensures var m', b := Carved(m, a, lead, taken), a + lead;
      && b in m' && !m'[b].hole && MergedStart(m', b) == a && MergedEnd(m', b) == a + m[a].size
      && Coalesced(m', MergedStart(m', b), MergedEnd(m', b)) == m
  {
    hide Carved, Live, Coalesced, MergedStart, MergedEnd, NoAdjacentHoles, Tiles;
    var m', b := Carved(m, a, lead, taken), a + lead;
    CarvedTiles(m, lo, hi, a, lead, taken);
    CarvedApart(m, lo, hi, a, lead, taken);
    CarvedLive(m, lo, hi, a, lead, taken);
    CarvedNewBlock(m, lo, hi, a, lead, taken);
    var h, e := MergedStart(m', b), MergedEnd(m', b);
    JoinedLive(m', lo, hi, b);
    RemovedAgain(Live(m), b, taken);
    CanonicalTiling(Coalesced(m', h, e), m, lo, hi);
    SameHole(m, lo, hi, a, h, e, b);
  }

  lemma RemovedAgain(live: map<int, int>, b: int, size: int)
    requires b !in live
    ensures live[b := size] - {b} == live
  {
  }

  lemma JoinedLive(m: Blocks, lo: int, hi: int, b: int)
    requires Tiles(m, lo, hi) && NoAdjacentHoles(m) && b in m && !m[b].hole
    ensures var h, e := MergedStart(m, b), MergedEnd(m, b);
      && h <= b < e && h in Coalesced(m, h, e) && Coalesced(m, h, e)[h] == Block(e - h, true)
      && Tiles(Coalesced(m, h, e), lo, hi) && NoAdjacentHoles(Coalesced(m, h, e))
      && Live(Coalesced(m, h, e)) == Live(m) - {b}
  {
    hide MergedStart, MergedEnd, Tiles, NoAdjacentHoles, Live;
    var h, e := MergedStart(m, b), MergedEnd(m, b);
    JoinBounds(m, lo, hi, b);
    JoinedHoles(m, lo, hi, b);
    CoalescedTiles(m, lo, hi, h, e);
    CoalescedApart(m, lo, hi, h, e);
    CoalescedLive(m, lo, hi, h, e, b);
  }

  lemma SameHole(m: Blocks, lo: int, hi: int, a: int, h: int, e: int, b: int)
    requires Tiles(m, lo, hi) && a in m && a <= b < a + m[a].size
    requires h in m && m[h] == Block(e - h, true) && h <= b < e
    ensures h == a && e == a + m[a].size
  {
    assert m[h].size > 0 && m[a].size > 0;
  }

  lemma CarvedNewBlock(m: Blocks, lo: int, hi: int, a: int, lead: int, taken: int)
    requires Carvable(m, lo, hi, a, lead, taken)
    ensures a + lead in Carved(m, a, lead, taken) && Carved(m, a, lead, taken)[a + lead] == Block(taken, false)
    ensures a + lead !in Live(m)
  {
    NothingInside(m, lo, hi, a);
  }

  /** The holes of some blocks. */
  ghost function Holes(m: Blocks): set<int> {
    set a | a in m && m[a].hole
  }

  lemma {:induction false} MembersCounted(s: seq<int>)
    requires Distinct(s)
    ensures |set x | x in s| == |s|
  {
    if s != [] {
      var last := |s| - 1;
      MembersCounted(s[..last]);
      assert s == s[..last] + [s[last]];
      assert (set x | x in s) == (set x | x in s[..last]) + {s[last]};
    }
  }

  lemma IndexCounts(index: seq<int>, m: Blocks)
    requires Indexes(index, m)
    ensures |index| == |Holes(m)|
  {
    MembersCounted(index);
    assert forall x :: x in index <==> x in Holes(m);
    assert (set x | x in index) == Holes(m);
  }

  /** A block between two live ones was a hole to itself, so the index has become shorter. */
  lemma LonelyBlock(m: Blocks, lo: int, hi: int, a: int, lead: int, taken: int)
    requires Carvable(m, lo, hi, a, lead, taken) && a + lead in Carved(m, a, lead, taken)
    requires JoinsNothing(Carved(m, a, lead, taken), a + lead)
    ensures Holes(Carved(m, a, lead, taken)) == Holes(m) - {a}
  {
    CarvedNewBlock(m, lo, hi, a, lead, taken);
    NothingInside(m, lo, hi, a);
    if lead > 0 {
      LeadJoins(m, lo, hi, a, lead, taken);
    }
    if lead + taken < m[a].size {
      RestJoins(m, lo, hi, a, lead, taken);
    }
  }

  lemma LeadJoins(m: Blocks, lo: int, hi: int, a: int, lead: int, taken: int)
    requires Carvable(m, lo, hi, a, lead, taken) && 0 < lead
    ensures MergedStart(Carved(m, a, lead, taken), a + lead) == a
  {
    CarvedTiles(m, lo, hi, a, lead, taken);
    HoleEndsAt(Carved(m, a, lead, taken), lo, hi, a, a + lead);
  }

  lemma RestJoins(m: Blocks, lo: int, hi: int, a: int, lead: int, taken: int)
    requires Carvable(m, lo, hi, a, lead, taken) && lead + taken < m[a].size
    ensures a + lead in Carved(m, a, lead, taken) && MergedEnd(Carved(m, a, lead, taken), a + lead) == a + m[a].size
  {
  }

  lemma HoleEndsAt(m: Blocks, lo: int, hi: int, h: int, b: int)
    requires Tiles(m, lo, hi) && h in m && m[h].hole && h + m[h].size == b
    ensures MergedStart(m, b) == h
  {
    var x := MergedStart(m, b);
    assert x in m && m[x].size > 0 && m[h].size > 0;
  }

  lemma GrownHoles(m: Blocks, lo: int, hi: int, n: nat, wanted: nat)
    requires Tiles(m, lo, hi) && (n > 0 ==> TailGrows(m, hi))
    ensures |Holes(Grown(m, hi, n, wanted))| == if n > 0 && Holes(m) == {} then 1 else |Holes(m)|
  {
    if n > 0 {
      var h := MergedStart(m, hi);
      assert Holes(Grown(m, hi, n, wanted)) == Holes(m) + {h};
      if forall a :: a in m ==> !m[a].hole {
        assert Holes(m) + {h} == {h} && Holes(m) == {};
      } else {
        assert h in Holes(m) && Holes(m) + {h} == Holes(m);
      }
    }
  }

  /** Alloc, then Free of the pointer it returned, for any request that is too large or that `CanGrow`
      admits and whose hole leaves room for tags. If the hole did not end the range everything is as
      before; if it did, only the end differs, unless that hole starts too high, and then the release is
      what goes wrong. It fails exactly when the request is refused, or the block reaches the end and
      the word there looks like a hole. */
  method AllocThenFree(heap: Heap, size: nat, pageAlign: bool) returns (done: bool, ghost w: Placement, ghost end: int)
    requires heap.Valid() && heap.Served(size, pageAlign)
    modifies heap, heap.index, heap.index.items
    ensures w == Chosen(old(heap.index.Contents()), old(heap.blocks), old(heap.endAddress), size, pageAlign)
    ensures end == old(heap.endAddress) + Growth(Retries(old(heap.blocks), old(heap.endAddress), size + TAGS, pageAlign), size + TAGS)
    ensures done ==> heap.index.Valid()
    ensures done ==> heap.endAddress == if w.hole + w.holeSize == end then heap.startAddress + ContractedTo(w.hole - heap.startAddress)
                                        else old(heap.endAddress)
    ensures done ==> heap.mapped == old(heap.mapped) + PagesBetween(old(heap.endAddress), end)
                                                     - PagesBetween(heap.endAddress + 1, end)
    ensures done <==>
              && !Refused(old(heap.index.Contents()), old(heap.blocks), old(heap.endAddress), heap.maxAddress, size, pageAlign)
              && !(w.hole + w.lead + w.taken == end && 0 <= end <= SPACE - 4 && IsHoleTag(HeaderAt(old(heap.mem), end)))
    ensures done && w.hole + w.holeSize != end ==>
              heap.Valid() && heap.blocks == old(heap.blocks)
    ensures done && w.hole + w.holeSize == end && w.hole - heap.startAddress + TAGS <= MIN_SIZE ==>
              && heap.Valid()
              && heap.blocks == old(heap.blocks)[w.hole := Block(heap.endAddress - w.hole, true)]
    ensures done && w.hole + w.holeSize == end && w.hole - heap.startAddress + TAGS > MIN_SIZE ==>
              !Consistent(heap.mem, heap.index.Contents(), heap.startAddress, heap.endAddress, Live(old(heap.blocks)))
  {
    hide Word, DecodeFooter, DecodeHeader, Represents, Live, Carved, Consistent, SomeHoleFits, GapsHoldTags, Fits, CanGrow, Chosen,
      Retries, Growth, Grown, SortedBySize, Freed, EndKeepsTags, MergedStart, MergedEnd, Tiles, NoAdjacentHoles, PayloadsKept,
      JoinsNothing, TailGrows, HasRoom, Foremost, PagesBetween;
    ghost var m, lo, hi, wanted := heap.blocks, heap.startAddress, heap.endAddress, size + TAGS;
    ghost var mem0, index0 := heap.mem, heap.index.Contents();
    ghost var n := Retries(m, hi, wanted, pageAlign);
    ghost var m1 := Grown(m, hi, n, wanted);
    w, end := Chosen(index0, m, hi, size, pageAlign), hi + Growth(n, wanted);
    var r;
    ghost var w1;
    r, w1 := heap.Alloc(size, pageAlign);
    if r == None {
      return false, w, end;
    }
    ghost var mem1, index1, m2 := heap.mem, heap.index.Contents(), heap.blocks;
    Undone(m1, m2, lo, end, w);
    TailWhenGrown(index0, m, lo, hi, size, pageAlign, w);
    GrowsAtEnd(m, lo, hi, wanted, pageAlign);
    if JoinsNothing(m2, w.hole + w.lead) {
      Fullness(mem0, index0, lo, hi, m, n, wanted, mem1, index1, end, w, m1, m2);
    }
    WordFrame(mem0, mem1, lo, end, end);
    RemovedAgain(Live(m), w.hole + w.lead, w.taken);
    done := heap.Free(r.value);
  }

  lemma GrowsAtEnd(m: Blocks, lo: int, hi: int, wanted: nat, pageAlign: bool)
    requires CanGrow(m, lo, hi, wanted, pageAlign)
    ensures 0 < Retries(m, hi, wanted, pageAlign) ==> TailGrows(m, hi)
  {
  }

  /** What freeing a block just carved leaves. */
  lemma Undone(m: Blocks, m': Blocks, lo: int, hi: int, w: Placement)
    requires Carvable(m, lo, hi, w.hole, w.lead, w.taken) && m[w.hole] == Block(w.holeSize, true)
    requires m' == Carved(m, w.hole, w.lead, w.taken)
    ensures var b := w.hole + w.lead;
      && b in m' && !m'[b].hole && m'[b].size == w.taken && lo <= b && MergedEnd(m', b) == w.hole + w.holeSize
      && MergedStart(m', b) == w.hole
      && Freed(m', lo, hi, b) == (if w.hole + w.holeSize == hi then Resized(m, w.hole, lo + MIN_SIZE - w.hole) else m)
      && (EndKeepsTags(m', lo, hi, b) <==> (w.hole + w.holeSize == hi ==> w.hole - lo + TAGS <= MIN_SIZE))
  {
    FreeUndoesAlloc(m, lo, hi, w.hole, w.lead, w.taken);
    CarvedNewBlock(m, lo, hi, w.hole, w.lead, w.taken);
    assert lo <= w.hole;
    hide Carved, Coalesced, MergedStart, MergedEnd, Tiles;
  }

  /** A hole chosen after growth ends the range, and what it replaces is what ended it before. */
  lemma TailWhenGrown(index: seq<int>, m: Blocks, lo: int, hi: int, size: nat, pageAlign: bool, w: Placement)
    requires w == Chosen(index, m, hi, size, pageAlign)
    ensures var n := Retries(m, hi, size + TAGS, pageAlign); var m1 := Grown(m, hi, n, size + TAGS);
      && (w.hole + w.holeSize != hi + Growth(n, size + TAGS) ==> m1 == m && Growth(n, size + TAGS) == 0)
      && Resized(m1, w.hole, lo + MIN_SIZE - w.hole) == m[w.hole := Block(lo + MIN_SIZE - w.hole, true)]
  {
  }

  /** The index is not full when a block that joins nothing comes back to it. */
  lemma Fullness(mem: Memory, index: seq<int>, lo: int, hi: int, m: Blocks, n: nat, wanted: nat,
                 mem': Memory, index': seq<int>, end: int, w: Placement, m1: Blocks, m2: Blocks)
    requires m1 == Grown(m, hi, n, wanted) && (n > 0 ==> TailGrows(m, hi))
    requires Carvable(m1, lo, end, w.hole, w.lead, w.taken) && m2 == Carved(m1, w.hole, w.lead, w.taken)
    requires w.hole + w.lead in m2 && JoinsNothing(m2, w.hole + w.lead)
    requires Represents(mem, index, lo, hi, m) && Represents(mem', index', lo, end, m2)
    ensures |index'| < |index| || |index'| == 0
  {
    hide Carved, Grown, Tiles, NoAdjacentHoles, AllTagged, JoinsNothing;
    LonelyBlock(m1, lo, end, w.hole, w.lead, w.taken);
    IndexCounts(index, m);
    IndexCounts(index', m2);
    GrownHoles(m, lo, hi, n, wanted);
    assert w.hole in Holes(m1);
  }

  // Runs, on block maps. Alloc, Free and Grow are proved to make these steps.

  datatype Op = Take(hole: int, lead: int, taken: int) | Release(a: int) | Widen(amount: int)

  datatype State = State(m: Blocks, hi: int)

  ghost predicate WellFormed(s: State, lo: int) {
    Tiles(s.m, lo, s.hi) && NoAdjacentHoles(s.m) && MIN_SIZE <= s.hi - lo
  }

  ghost predicate Enabled(s: State, lo: int, op: Op) {
    match op
    case Take(hole, lead, taken) => Carvable(s.m, lo, s.hi, hole, lead, taken)
    case Release(a) => a in s.m && !s.m[a].hole && EndKeepsTags(s.m, lo, s.hi, a)
    case Widen(amount) => 0 < amount && TailGrows(s.m, s.hi)
  }

  ghost function Next(s: State, lo: int, op: Op): State
    requires Enabled(s, lo, op)
  {
    match op
    case Take(hole, lead, taken) => State(Carved(s.m, hole, lead, taken), s.hi)
    case Release(a) =>
      State(Freed(s.m, lo, s.hi, a), if MergedEnd(s.m, a) == s.hi then lo + MIN_SIZE else s.hi)
    case Widen(amount) =>
      var h := MergedStart(s.m, s.hi);
      State(Resized(s.m, h, s.hi + amount - h), s.hi + amount)
  }

  ghost function LiveAfter(s: State, op: Op): map<int, int> {
    match op
    case Take(hole, lead, taken) => Live(s.m)[hole + lead := taken]
    case Release(a) => Live(s.m) - {a}
    case Widen(_) => Live(s.m)
  }

  lemma StepKeeps(s: State, lo: int, op: Op)
    requires WellFormed(s, lo) && Enabled(s, lo, op)
    ensures WellFormed(Next(s, lo, op), lo) && Live(Next(s, lo, op).m) == LiveAfter(s, op)
    ensures op.Take? ==> op.hole + op.lead !in Live(s.m)
  {
    hide Tiles, NoAdjacentHoles, Live, Carved, Coalesced, MergedEnd, Resized;
    match op
    case Take(hole, lead, taken) =>
      CarvedTiles(s.m, lo, s.hi, hole, lead, taken);
      CarvedApart(s.m, lo, s.hi, hole, lead, taken);
      CarvedLive(s.m, lo, s.hi, hole, lead, taken);
      CarvedNewBlock(s.m, lo, s.hi, hole, lead, taken);
    case Release(a) =>
      ReleaseKeeps(s, lo, a);
    case Widen(amount) =>
      WidenKeeps(s, lo, amount);
  }

  lemma ReleaseKeeps(s: State, lo: int, a: int)
    requires WellFormed(s, lo) && Enabled(s, lo, Release(a))
    ensures WellFormed(Next(s, lo, Release(a)), lo) && Live(Next(s, lo, Release(a)).m) == Live(s.m) - {a}
  {
    hide Tiles, NoAdjacentHoles, Live, MergedStart, MergedEnd;
    var h, e := MergedStart(s.m, a), MergedEnd(s.m, a);
    JoinedLive(s.m, lo, s.hi, a);
    JoinBounds(s.m, lo, s.hi, a);
    if e == s.hi {
      ResizedTiles(Coalesced(s.m, h, e), lo, s.hi, h, lo + MIN_SIZE);
    }
  }

  lemma WidenKeeps(s: State, lo: int, amount: int)
    requires WellFormed(s, lo) && Enabled(s, lo, Widen(amount))
    ensures WellFormed(Next(s, lo, Widen(amount)), lo) && Live(Next(s, lo, Widen(amount)).m) == Live(s.m)
  {
    hide NoAdjacentHoles, Live, Chained, Ordered, Within;
    var h := MergedStart(s.m, s.hi);
    if h in s.m && s.m[h].hole && h + s.m[h].size == s.hi {
      BlockIsThere(s.m, lo, s.hi, h);
      ResizedTiles(s.m, lo, s.hi, h, s.hi + amount);
    } else {
      ExtendedTiles(s.m, lo, s.hi, s.hi + amount);
      ExtendedApart(s.m, lo, s.hi, s.hi + amount);
    }
  }

  ghost predicate Runs(s: State, lo: int, ops: seq<Op>, s': State)
    decreases |ops|
  {
    if ops == [] then s' == s else Enabled(s, lo, ops[0]) && Runs(Next(s, lo, ops[0]), lo, ops[1..], s')
  }

  /** Over any run the blocks tile the range with no two holes side by side, and a block in use
      keeps its place and size until it is released. */
  lemma {:induction false} RunKeeps(s: State, lo: int, ops: seq<Op>, s': State)
    requires WellFormed(s, lo) && Runs(s, lo, ops, s')
    ensures WellFormed(s', lo)
    ensures forall b :: b in Live(s.m) && Release(b) !in ops ==> b in Live(s'.m) && Live(s'.m)[b] == Live(s.m)[b]
    decreases |ops|
  {
    hide WellFormed, Enabled, Next, Live;
    if ops != [] {
      var s1 := Next(s, lo, ops[0]);
      StepKeeps(s, lo, ops[0]);
      RunKeeps(s1, lo, ops[1..], s');
      forall b | b in Live(s.m) && Release(b) !in ops
        ensures b in Live(s'.m) && Live(s'.m)[b] == Live(s.m)[b]
      {
        assert ops[0] in ops && forall op :: op in ops[1..] ==> op in ops;
        assert b in Live(s1.m) && Live(s1.m)[b] == Live(s.m)[b];
      }
    }
  }

  // What Alloc and Free do to a heap object are such steps.

  ghost function StateOf(heap: Heap): State
    reads heap
  {
    State(heap.blocks, heap.endAddress)
  }

  lemma {:induction false} RunsMore(s: State, lo: int, ops: seq<Op>, s1: State, op: Op)
    requires Runs(s, lo, ops, s1) && Enabled(s1, lo, op)
    ensures Runs(s, lo, ops + [op], Next(s1, lo, op))
    decreases |ops|
  {
    hide Enabled, Next;
    if ops == [] {
      assert ops + [op] == [op] && [op][1..] == [];
    } else {
      assert (ops + [op])[1..] == ops[1..] + [op];
      RunsMore(Next(s, lo, ops[0]), lo, ops[1..], s1, op);
    }
  }

  /** The steps that an allocation is: growth if there is any, and one block. */
  ghost function AllocOps(index: seq<int>, m: Blocks, hi: int, size: nat, pageAlign: bool): seq<Op> {
    var n, w := Retries(m, hi, size + TAGS, pageAlign), Chosen(index, m, hi, size, pageAlign);
    (if n == 0 then [] else [Widen(Growth(n, size + TAGS))]) + [Take(w.hole, w.lead, w.taken)]
  }

  lemma AllocRuns(s: State, lo: int, ops: seq<Op>, index: seq<int>, m: Blocks, hi: int, size: nat, pageAlign: bool)
    requires Runs(s, lo, ops, State(m, hi)) && CanGrow(m, lo, hi, size + TAGS, pageAlign)
    requires var n, w := Retries(m, hi, size + TAGS, pageAlign), Chosen(index, m, hi, size, pageAlign);
      Carvable(Grown(m, hi, n, size + TAGS), lo, hi + Growth(n, size + TAGS), w.hole, w.lead, w.taken)
    ensures var n, w := Retries(m, hi, size + TAGS, pageAlign), Chosen(index, m, hi, size, pageAlign);
      Runs(s, lo, ops + AllocOps(index, m, hi, size, pageAlign),
           State(Carved(Grown(m, hi, n, size + TAGS), w.hole, w.lead, w.taken), hi + Growth(n, size + TAGS)))
  {
    hide Runs, Carved, Chosen, Carvable, Retries, TailGrows, SomeHoleFits;
    var n, w := Retries(m, hi, size + TAGS, pageAlign), Chosen(index, m, hi, size, pageAlign);
    GrowsAtEnd(m, lo, hi, size + TAGS, pageAlign);
    var s1 := State(m, hi);
    var s2 := State(Grown(m, hi, n, size + TAGS), hi + Growth(n, size + TAGS));
    var ops' := ops;
    if n > 0 {
      var op := Widen(Growth(n, size + TAGS));
      assert 0 < Growth(n, size + TAGS) by { assert Growth(n, size + TAGS) == PageUp(size + TAGS) + Growth(n - 1, size + TAGS); }
      assert Next(s1, lo, op) == s2;
      RunsMore(s, lo, ops, s1, op);
      ops' := ops + [op];
    }
    RunsMore(s, lo, ops', s2, Take(w.hole, w.lead, w.taken));
    assert ops + AllocOps(index, m, hi, size, pageAlign) == ops' + [Take(w.hole, w.lead, w.taken)];
  }

  // Runs that end where the code leaves no consistent heap. They start from the single hole of a new heap.

  ghost function NewState(lo: int, hi: int): State {
    State(map[lo := Block(hi - lo, true)], hi)
  }

  /** Two blocks fill the heap and the first is freed: no plain request over 8 bytes can be served, and
      growing widens a hole that does not touch the end. */
  lemma GrowthOverLiveTail()
    ensures exists ops, s ::
              && Runs(NewState(0x100_0000, 0x107_0000), 0x100_0000, ops, s)
              && !SomeHoleFits(s.m, 17, false) && !TailGrows(s.m, s.hi)
  {
    var lo, mid, hi := 0x100_0000, 0x100_0010, 0x107_0000;
    var s0 := NewState(lo, hi);
    var m1 := Two(lo, mid, hi, false, true);
    var m2 := Two(lo, mid, hi, false, false);
    var m3 := Two(lo, mid, hi, true, false);
    OneBlock(lo, hi, true);
    TwoBlocks(lo, mid, hi, false, true);
    TwoBlocks(lo, mid, hi, false, false);
    TwoBlocks(lo, mid, hi, true, false);
    LowHole(lo, mid, hi);
    NothingJoins(lo, mid, hi);
    hide Tiles, NoAdjacentHoles, MergedStart, MergedEnd, TailGrows;
    assert Carved(s0.m, lo, 0, 16) == m1;
    assert Carved(m1, mid, 0, 0x6_FFF0) == m2;
    assert Freed(m2, lo, hi, lo) == m3;
    ThreeSteps(s0, lo, Take(lo, 0, 16), State(m1, hi), Take(mid, 0, 0x6_FFF0), State(m2, hi), Release(lo), State(m3, hi));
    assert !SomeHoleFits(m3, 17, false);
  }

  lemma OneBlock(lo: int, hi: int, hole: bool)
    requires lo < hi
    ensures var m: Blocks := map[lo := Block(hi - lo, hole)]; Tiles(m, lo, hi) && NoAdjacentHoles(m)
  {
    var m: Blocks := map[lo := Block(hi - lo, hole)];
    forall x | x in m ensures Linked(m, hi, x) {
    }
  }

  ghost function Two(lo: int, mid: int, hi: int, first: bool, second: bool): Blocks {
    map[lo := Block(mid - lo, first), mid := Block(hi - mid, second)]
  }

  lemma TwoBlocks(lo: int, mid: int, hi: int, first: bool, second: bool)
    requires lo < mid < hi && !(first && second)
    ensures Tiles(Two(lo, mid, hi, first, second), lo, hi) && NoAdjacentHoles(Two(lo, mid, hi, first, second))
  {
    hide Linked;
    var m := Two(lo, mid, hi, first, second);
    forall x | x in m ensures x == lo || x == mid {
    }
    forall x | x in m ensures Linked(m, hi, x) {
      TwoLinked(lo, mid, hi, first, second, x);
    }
    TwoApart(lo, mid, hi, first, second);
    hide NoAdjacentHoles;
  }

  lemma TwoLinked(lo: int, mid: int, hi: int, first: bool, second: bool, x: int)
    requires lo < mid < hi && x in Two(lo, mid, hi, first, second)
    ensures Linked(Two(lo, mid, hi, first, second), hi, x)
  {
  }

  lemma TwoApart(lo: int, mid: int, hi: int, first: bool, second: bool)
    requires lo < mid < hi && !(first && second)
    ensures NoAdjacentHoles(Two(lo, mid, hi, first, second))
  {
  }

  lemma LowHole(lo: int, mid: int, hi: int)
    requires lo < mid < hi
    ensures !TailGrows(Two(lo, mid, hi, true, false), hi)
  {
    var m := Two(lo, mid, hi, true, false);
    assert lo in m && m[lo].hole;
  }

  lemma NothingJoins(lo: int, mid: int, hi: int)
    requires lo < mid < hi
    ensures var m := Two(lo, mid, hi, false, false);
      MergedStart(m, lo) == lo && MergedEnd(m, lo) == mid && MergedStart(m, mid) == mid && MergedEnd(m, mid) == hi
  {
  }

  lemma ThreeSteps(s0: State, lo: int, op1: Op, s1: State, op2: Op, s2: State, op3: Op, s3: State)
    requires Enabled(s0, lo, op1) && s1 == Next(s0, lo, op1)
    requires Enabled(s1, lo, op2) && s2 == Next(s1, lo, op2)
    requires Enabled(s2, lo, op3) && s3 == Next(s2, lo, op3)
    ensures Runs(s0, lo, [op1, op2, op3], s3)
  {
    hide Enabled, Next;
    assert [op1, op2, op3][1..] == [op2, op3] && [op2, op3][1..] == [op3] && [op3][1..] == [];
    assert Runs(s2, lo, [op3], s3);
    assert Runs(s1, lo, [op2, op3], s3);
  }

  /** One block of a new heap ends eight bytes below a page boundary: whatever the order of the index, an
      aligned request takes the hole behind it and has four bytes in front. */
  lemma LeadGapTooSmall()
    ensures exists ops, s ::
              && Runs(NewState(0x100_0000, 0x107_0000), 0x100_0000, ops, s) && SomeHoleFits(s.m, 0x1000, true)
              && forall index :: Indexes(index, s.m) ==> !GapsHoldTags(Chosen(index, s.m, s.hi, 0xFF8, true), true)
  {
    var lo, mid, hi := 0x100_0000, 0x100_0FF8, 0x107_0000;
    var s0, m1 := NewState(lo, hi), Two(lo, mid, hi, false, true);
    OneBlock(lo, hi, true);
    hide Tiles, NoAdjacentHoles, Chosen;
    assert Carved(s0.m, lo, 0, 0xFF8) == m1;
    assert Runs(s0, lo, [], s0);
    RunsMore(s0, lo, [], s0, Take(lo, 0, 0xFF8));
    assert mid in m1 && m1[mid].hole && Fits(mid, m1[mid].size, 0x1000, true);
    forall index | Indexes(index, m1) ensures !GapsHoldTags(Chosen(index, m1, hi, 0xFF8, true), true) {
      OnlyHoleChosen(index, m1, mid, hi, 0xFF8, true);
    }
  }

  /** The one hole that there is, when it fits, is the one chosen. */
  lemma OnlyHoleChosen(index: seq<int>, m: Blocks, h: int, hi: int, size: nat, pageAlign: bool)
    requires Indexes(index, m) && h in m && m[h].hole && Fits(h, m[h].size, size + TAGS, pageAlign)
    requires forall x :: x in m && m[x].hole ==> x == h
    ensures var w := Chosen(index, m, hi, size, pageAlign);
      w.hole == h && w.holeSize == m[h].size && w.lead == (if pageAlign then AlignGap(h) else 0)
  {
    hide Fits;
    assert h in index;
    FirstFitFits(index, m, size + TAGS, pageAlign);
  }

  /** Two blocks fill the heap, the second starting at the minimum length: freeing it leaves a stale
      index entry. */
  lemma HighTailFreed()
    ensures exists ops, s, a ::
              && Runs(NewState(0x100_0000, 0x108_0000), 0x100_0000, ops, s)
              && a in s.m && !s.m[a].hole && !EndKeepsTags(s.m, 0x100_0000, s.hi, a)
  {
    var lo, a, hi := 0x100_0000, 0x107_0000, 0x108_0000;
    var s0 := NewState(lo, hi);
    var m1 := Two(lo, a, hi, false, true);
    var m2 := Two(lo, a, hi, false, false);
    OneBlock(lo, hi, true);
    TwoBlocks(lo, a, hi, false, true);
    TwoBlocks(lo, a, hi, false, false);
    NothingJoins(lo, a, hi);
    hide Tiles, NoAdjacentHoles, MergedStart, MergedEnd;
    assert Carved(s0.m, lo, 0, 0x7_0000) == m1;
    assert Carved(m1, a, 0, 0x1_0000) == m2;
    var op1, op2 := Take(lo, 0, 0x7_0000), Take(a, 0, 0x1_0000);
    assert Runs(s0, lo, [], s0);
    RunsMore(s0, lo, [], s0, op1);
    RunsMore(s0, lo, [] + [op1], State(m1, hi), op2);
    assert !EndKeepsTags(m2, lo, hi, a);
  }
}
