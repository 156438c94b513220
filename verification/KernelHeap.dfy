/** The kernel's tables and directories, in memory that its heap hands out. */
module KernelHeap {
  import opened Wrappers
  import opened ByteMemory
  import opened Tiling
  import opened HeapLaws
  import opened Heaps
  import opened HeapRuns
  import opened HeapRoom
  import opened Paging
  import opened AddressSpaces
  import opened Boot
  import FrameOrder
  import P = PageTables

  /** The page boundaries inside a payload. */
  ghost function Boundaries(a: int, size: int): set<nat> {
    set p: nat | a + 4 <= p < a + size - 4 && p % 0x1000 == 0 :: p
  }

  /** And inside any of a heap's payloads. */
  ghost function PagesIn(live: map<int, int>): set<nat> {
    set a, p | a in live && p in Boundaries(a, live[a]) :: p
  }

  /** One payload's pages are no other's. */
  lemma PagesApart(m: Blocks, lo: int, hi: int, live: map<int, int>, b: int, taken: int)
    requires Tiles(m, lo, hi) && Live(m) == live[b := taken] && b !in live
    ensures PagesIn(live) !! Boundaries(b, taken) && PagesIn(Live(m)) == PagesIn(live) + Boundaries(b, taken)
  {
    forall a, p | a in live && p in Boundaries(a, live[a]) ensures p !in Boundaries(b, taken) {
      assert a in Live(m) && Live(m)[a] == live[a];
      PayloadsDisjoint(m, lo, hi, a, b, p);
    }
    hide Live, Boundaries, Tiles;
    var all := live[b := taken];
    forall p ensures p in PagesIn(all) <==> p in PagesIn(live) + Boundaries(b, taken) {
      if p in PagesIn(live) {
        var a :| a in live && p in Boundaries(a, live[a]);
        assert a in all && all[a] == live[a];
      }
      if p in PagesIn(all) {
        var a :| a in all && p in Boundaries(a, all[a]);
        assert a == b || a in live;
      }
      if p in Boundaries(b, taken) {
        assert b in all && all[b] == taken;
      }
    }
  }

  lemma PagesWithin(b: int, size: nat, taken: int)
    requires 0 <= b && size + TAGS <= taken
    ensures PagesOf(b + 4, size) <= Boundaries(b, taken)
  {
  }

  /** The kernel's heap lies in its window. */
  ghost predicate InWindow(heap: Heap)
    reads heap
  {
    P.KHEAP_START <= heap.startAddress && heap.maxAddress <= P.KHEAP_END
  }

  /** What a heap gives for a request that has to start on a page is a grant: memory in the window that is
      mapped by the time it is handed over, and of which no other block has a page. */
  method GrantPages(heap: Heap, size: nat) returns (g: Option<Grant>)
    requires heap.Valid() && InWindow(heap) && 0 < size && heap.Served(size, true)
    modifies heap, heap.index, heap.index.items
    ensures g != None ==>
              && heap.Valid() && 0 <= old(heap.endAddress) <= heap.endAddress == g.value.top
              && Granted(g.value, size, old(heap.endAddress), PagesIn(old(Live(heap.blocks))))
              && g.value.address + size <= g.value.top
              && PagesIn(old(Live(heap.blocks))) + PagesOf(g.value.address, size) <= PagesIn(Live(heap.blocks))
    ensures g != None ==>
              var w := Chosen(old(heap.index.Contents()), old(heap.blocks), old(heap.endAddress), size, true);
              && g.value.address == w.hole + w.lead + 4 && w.hole + w.lead !in old(Live(heap.blocks))
              && Live(heap.blocks) == old(Live(heap.blocks))[w.hole + w.lead := w.taken]
              && heap.blocks == Allotted(old(heap.blocks), old(heap.endAddress), size, w)
              && heap.endAddress == old(heap.endAddress)
                                    + Growth(Retries(old(heap.blocks), old(heap.endAddress), size + TAGS, true), size + TAGS)
    ensures g == None <==> Refused(old(heap.index.Contents()), old(heap.blocks), old(heap.endAddress), heap.maxAddress, size, true)
  {
    hide ByteMemory.Word, DecodeFooter, Represents, PagesOf, Live, CanGrow, Retries, Chosen, GapsHoldTags, Carved, Carvable, Grown,
      SortedBySize, SomeHoleFits, Consistent, PayloadsKept, SameOutside, PagesIn;
    ghost var live, hi := Live(heap.blocks), heap.endAddress;
    var r, w := heap.Alloc(size, true);
    if r == None {
      return None;
    }
    GrowthUp(Retries(old(heap.blocks), hi, size + TAGS, true), size + TAGS);
    AllottedIs(old(heap.blocks), hi, size, w, heap.startAddress, heap.endAddress);
    RepresentsTiles(heap);
    BlockWithin(heap.blocks, heap.startAddress, heap.endAddress, r.value - 4, w.taken);
    PagesApart(heap.blocks, heap.startAddress, heap.endAddress, live, r.value - 4, w.taken);
    PagesWithin(r.value - 4, size, w.taken);
    g := Some(Grant(r.value, heap.endAddress));
  }

  lemma GrowthUp(times: nat, wanted: nat)
    ensures Growth(times, wanted) >= 0
  {
  }

  lemma RepresentsTiles(heap: Heap)
    requires heap.Valid()
    ensures Tiles(heap.blocks, heap.startAddress, heap.endAddress) && heap.endAddress % 0x1000 == 0
    ensures heap.endAddress <= heap.maxAddress && 0x100_0000 <= heap.startAddress <= heap.endAddress
  {
    hide Word, DecodeFooter;
  }

  lemma BlockWithin(m: Blocks, lo: int, hi: int, b: int, taken: int)
    requires Tiles(m, lo, hi) && b in Live(m) && Live(m)[b] == taken
    ensures lo <= b && b + taken <= hi
  {
  }

  /** What the heap writes is not what the page tables are kept in. */
  ghost predicate Separate(heap: Heap, m: Paging.Memory)
    reads heap, m
  {
    var parts: set<object> := {m.frames, m.frames.table};
    heap.index !in parts && heap.index.items !in parts
  }

  /** The heap and the page tables agree on the window, and what is in use for tables is in use in the heap. */
  ghost predicate Joined(heap: Heap, m: Paging.Memory)
    reads heap, heap.index, heap.index.items, m, m.frames, m.frames.table, m.view.pages.Keys, m.view.tables.Keys
  {
    && heap.Valid() && InWindow(heap) && m.Valid() && heap.endAddress == m.heapEnd && Separate(heap, m)
    && m.view.used <= PagesIn(Live(heap.blocks))
  }

  /** A table in memory from the heap. */
  method TableFromHeap(heap: Heap, m: Paging.Memory) returns (t: P.Table?)
    requires Joined(heap, m) && heap.Served(0x1000, true)
    modifies heap, heap.index, heap.index.items, m`view, m`heapEnd, m.view.pages.Keys, m.frames, m.frames.table
    ensures t == null ==>
              m.OutOfFrames()
              || Refused(old(heap.index.Contents()), old(heap.blocks), old(heap.endAddress), heap.maxAddress, 0x1000, true)
    ensures t != null ==> Joined(heap, m) && fresh(t) && m.view.pages.Keys == old(m.view.pages.Keys) + {t}
  {
    hide Heap.Valid, Paging.Memory.Valid, CanGrow, Chosen, GapsHoldTags, PagesIn, Live, PagesOf, P.Grows, Paging.Memory.OutOfFrames, Refused;
    var g := GrantPages(heap, 0x1000);
    if g == None {
      return null;
    }
    LessUsed(g.value, 0x1000, m.heapEnd, m.view.used, PagesIn(old(Live(heap.blocks))));
    t := m.NewTable(g.value);
  }

  /** A directory in memory from the heap. */
  method DirectoryFromHeap(heap: Heap, m: Paging.Memory) returns (d: P.Directory?)
    requires Joined(heap, m) && heap.Served(8196, true)
    modifies heap, heap.index, heap.index.items, m`view, m`heapEnd, m.view.pages.Keys, m.frames, m.frames.table
    ensures d == null ==>
              m.OutOfFrames()
              || Refused(old(heap.index.Contents()), old(heap.blocks), old(heap.endAddress), heap.maxAddress, 8196, true)
    ensures d != null ==> Joined(heap, m) && fresh(d) && Settled(m.view, m.kernel, d)
  {
    hide Heap.Valid, Paging.Memory.Valid, CanGrow, Chosen, GapsHoldTags, PagesIn, Live, PagesOf, P.Grows, Paging.Memory.OutOfFrames, Settled, Refused;
    var g := GrantPages(heap, 8196);
    if g == None {
      return null;
    }
    LessUsed(g.value, 8196, m.heapEnd, m.view.used, PagesIn(old(Live(heap.blocks))));
    d := m.NewDirectory(g.value);
  }

  lemma LessUsed(g: Grant, size: nat, heapEnd: nat, used: set<nat>, more: set<nat>)
    requires Granted(g, size, heapEnd, more) && used <= more
    ensures Granted(g, size, heapEnd, used)
  {
    hide PagesOf;
  }

  const HEAP_OBJECT := 32  // bytes of a Heap on this machine

  /** A new heap is one hole, and the user heap's object takes the front of it. */
  lemma ObjectChosen(index: seq<int>, lo: int, hi: int, limit: int)
    requires lo == 0xC008_1000 && hi == 0xC010_0000 <= limit && Indexes(index, map[lo := Block(hi - lo, true)])
    ensures var m := map[lo := Block(hi - lo, true)];
      && Retries(m, hi, HEAP_OBJECT + TAGS, false) == 0 && CanGrow(m, lo, hi, HEAP_OBJECT + TAGS, false)
      && Chosen(index, m, hi, HEAP_OBJECT, false) == Placement(lo, hi - lo, 0, HEAP_OBJECT + TAGS)
      && !Refused(index, m, hi, limit, HEAP_OBJECT, false)
      && Carved(m, lo, 0, HEAP_OBJECT + TAGS) == Two(lo, lo + HEAP_OBJECT + TAGS, hi, false, true)
  {
    var m := map[lo := Block(hi - lo, true)];
    assert m[lo].hole && HeapLaws.Fits(lo, m[lo].size, HEAP_OBJECT + TAGS, false);
    OnlyHoleChosen(index, m, lo, hi, HEAP_OBJECT, false);
  }

  /** Then the first directory takes the next page of what is left. */
  lemma DirectoryChosen(index: seq<int>, lo: int, hi: int, limit: int)
    requires lo == 0xC008_1000 && hi == 0xC010_0000 <= limit
    requires Indexes(index, Two(lo, lo + HEAP_OBJECT + TAGS, hi, false, true)) && |index| == 1
    ensures var m := Two(lo, lo + HEAP_OBJECT + TAGS, hi, false, true);
      && Retries(m, hi, 8196 + TAGS, true) == 0 && CanGrow(m, lo, hi, 8196 + TAGS, true)
      && GapsHoldTags(Chosen(index, m, hi, 8196, true), true) && !Refused(index, m, hi, limit, 8196, true)
      && Chosen(index, m, hi, 8196, true).hole + Chosen(index, m, hi, 8196, true).lead + 4 == 0xC008_2000
  {
    var h := lo + HEAP_OBJECT + TAGS;
    var m := Two(lo, h, hi, false, true);
    assert h in m && m[h] == Block(hi - h, true) && HeapLaws.Fits(h, m[h].size, 8196 + TAGS, true);
    OnlyHoleChosen(index, m, h, hi, 8196, true);
  }

  lemma OneIndexed(index: seq<int>, m: Blocks, h: int)
    requires Indexes(index, m) && h in m && m[h].hole && forall x :: x in m && m[x].hole ==> x == h
    ensures |index| == 1
  {
    IndexCounts(index, m);
    assert forall x :: x in Holes(m) <==> x == h;
    assert Holes(m) == {h};
  }

  /** The kernel's heap as start-up makes it, with the user heap's object in it, and its first grant. */
  method FirstGrant(contents: ByteMemory.Memory) returns (heap: Heap, g: Grant)
    requires FooterAt(contents, 0xC008_1000 - 4).magic != MAGIC
    ensures fresh(heap) && fresh(heap.index) && fresh(heap.index.items) && heap.Valid() && InWindow(heap)
    ensures g == Grant(0xC008_2000, 0xC010_0000) && heap.endAddress == 0xC010_0000
    ensures Granted(g, 8196, 0xC010_0000, {}) && PagesOf(g.address, 8196) <= PagesIn(Live(heap.blocks))
    ensures 0xC008_1000 in Live(heap.blocks) && Live(heap.blocks)[0xC008_1000] == 40
  {
    hide ByteMemory.Word, DecodeFooter, PagesOf, Represents, Live, PagesIn, Chosen, GapsHoldTags, CanGrow, Retries, Refused, Carved,
      Two, Granted, Grown;
    var mapped := set page: int | 0xC000_0000 <= page < 0xC010_0000 && page % 0x1000 == 0 :: page;
    heap := new Heap(0xC000_0000, 0xC010_0000, 0xCFFF_F000, contents, mapped);
    ghost var lo, hi := heap.startAddress, heap.endAddress;
    HeapIndex(heap);
    ObjectChosen(heap.index.Contents(), lo, hi, heap.maxAddress);
    var userHeap, w := heap.Alloc(HEAP_OBJECT, false);
    assert heap.blocks == Two(lo, lo + HEAP_OBJECT + TAGS, hi, false, true) by { NotGrown(map[lo := Block(hi - lo, true)], hi, HEAP_OBJECT + TAGS); }
    HeapIndex(heap);
    TwoHoles(lo, lo + HEAP_OBJECT + TAGS, hi);
    OneIndexed(heap.index.Contents(), heap.blocks, lo + HEAP_OBJECT + TAGS);
    DirectoryChosen(heap.index.Contents(), lo, hi, heap.maxAddress);
    ghost var live := Live(heap.blocks);
    var r := GrantPages(heap, 8196);
    g := r.value;
    LessUsed(g, 8196, 0xC010_0000, {}, PagesIn(live));
  }

  lemma TwoHoles(lo: int, mid: int, hi: int)
    requires lo < mid < hi
    ensures var m := Two(lo, mid, hi, false, true);
      mid in m && m[mid].hole && (forall x :: x in m && m[x].hole ==> x == mid)
      && lo in Live(m) && Live(m)[lo] == mid - lo
  {
  }

  lemma HeapIndex(heap: Heap)
    requires heap.Valid()
    ensures Indexes(heap.index.Contents(), heap.blocks)
  {
    hide ByteMemory.Word, DecodeFooter;
  }

  /** Start-up with the heaps that it makes: the first copy of the kernel's directory lies well within
      the initial window, and the hardware finds both. */
  method StartInHeap(m: Paging.Memory, contents: ByteMemory.Memory) returns (ok: bool, heap: Heap?)
    requires Starting(m, 0, 0, 0) && m.kernel.physicalAddress == m.kernel.address + 0x1000
    requires FooterAt(contents, 0xC008_1000 - 4).magic != MAGIC
    modifies m, m.kernel`tables, m.kernel`physical, m.view.pages.Keys, m.frames, m.frames.table
    ensures !ok ==> m.OutOfFrames()
    ensures LowOnly(old(m.kernel.tables), 0) && Enough(old(Reach(m.base, m.kernel.tables)), |old(m.ram)|) ==> ok
    ensures ok ==>
              && m.Valid() && m.current != m.kernel && m.current.address == 0xC008_2000
              && Findable(m, m.kernel) && Findable(m, m.current) && heap != null && Joined(heap, m)
  {
    hide ByteMemory.Word, DecodeFooter, Starting, Missing, Booted, Paging.Memory.Valid, Paging.Memory.Basic, P.Fills, PagesOf, P.Grows,
      P.WindowMapped, P.FrameAt, FrameOrder.InARow, Paging.Memory.OutOfFrames, Heap.Valid, Granted, PagesIn, Live, Enough,
      LowOnly, Reach;
    ghost var k;
    heap := null;
    ok, k := MapAll(m);
    if !ok {
      return;
    }
    m.ValidParts();
    BootRow(m.view, m.kernel, m.base, k, 0xC008_2000);
    KernelFindable(m, k);
    ghost var pages := m.view.pages;
    var g;
    heap, g := FirstGrant(contents);
    ok := RunInCopy(m, g);
    if ok {
      P.FillingKeeps(m.kernel.tables, pages, m.view.pages, 0, {}, {});
    }
  }

  /** Grants made one after another, each against what was in use by then. */
  ghost predicate InTurn(gs: seq<Grant>, ends: seq<nat>, used: seq<set<nat>>) {
    && |ends| == |used| == |gs| + 1
    && (forall i :: 0 <= i < |gs| ==> Granted(gs[i], 0x1000, ends[i], used[i]) && gs[i].address + 0x1000 <= gs[i].top)
    && (forall i :: 0 <= i < |gs| ==> used[i] + PagesOf(gs[i].address, 0x1000) <= used[i + 1])
  }

  lemma {:induction false} UsedGrows(gs: seq<Grant>, ends: seq<nat>, used: seq<set<nat>>, i: nat, j: nat)
    requires InTurn(gs, ends, used) && i <= j <= |gs|
    ensures used[i] <= used[j]
    decreases j - i
  {
    hide PagesOf, Granted;
    if i < j {
      UsedGrows(gs, ends, used, i, j - 1);
    }
  }

  /** They are what the copy of a directory needs, each used for one table. */
  lemma GrantsInTurn(gs: seq<Grant>, ends: seq<nat>, used: seq<set<nat>>, turns: map<nat, nat>, grants: map<nat, Grant>)
    requires InTurn(gs, ends, used) && grants.Keys == turns.Keys
    requires forall i :: i in turns ==> turns[i] < |gs| && grants[i] == gs[turns[i]]
    requires forall i, j :: i in turns && j in turns && i != j ==> turns[i] != turns[j]
    ensures AllGranted(grants, 0, ends[0], used[0])
  {
    hide PagesOf;
    forall i | i in grants ensures Granted(grants[i], 0x1000, ends[0], used[0]) {
      UsedGrows(gs, ends, used, 0, turns[i]);
    }
    forall i, j | i in grants && j in grants && turns[i] < turns[j]
      ensures PagesOf(grants[i].address, 0x1000) !! PagesOf(grants[j].address, 0x1000)
    {
      UsedGrows(gs, ends, used, turns[i] + 1, turns[j]);
    }
  }

  /** The first of them, and then the others. */
  method GrantFirst(heap: Heap, ghost sizes: seq<nat>, size: nat) returns (g: Grant)
    requires heap.Valid() && InWindow(heap) && 0 < size && sizes != [] && sizes[0] == size
    requires AllServed(heap.blocks, heap.startAddress, heap.endAddress, heap.maxAddress, sizes)
    modifies heap, heap.index, heap.index.items
    ensures heap.Valid() && 0 <= old(heap.endAddress) <= heap.endAddress == g.top && g.address + size <= g.top
    ensures Granted(g, size, old(heap.endAddress), PagesIn(old(Live(heap.blocks))))
    ensures PagesIn(old(Live(heap.blocks))) + PagesOf(g.address, size) <= PagesIn(Live(heap.blocks))
    ensures AllServed(heap.blocks, heap.startAddress, heap.endAddress, heap.maxAddress, sizes[1..])
  {
    hide ByteMemory.Word, DecodeFooter, Represents, PagesOf, Live, CanGrow, Retries, Chosen, GapsHoldTags, Carved, Grown, Allotted,
      PagesIn, Refused, Granted, Indexes;
    HeapIndex(heap);
    var r := GrantPages(heap, size);
    g := r.value;
  }

  function Tables(n: nat): (sizes: seq<nat>)
    ensures |sizes| == n
  {
    seq(n, _ => 0x1000)
  }

  lemma OneTableLess(n: nat)
    requires 0 < n
    ensures Tables(n)[0] == 0x1000 && Tables(n)[1..] == Tables(n - 1)
  {
  }

  lemma {:induction false} NeededForTables(n: nat)
    ensures Needed(Tables(n)) == TAGS + 0x2004 * n && AllPaged(Tables(n))
  {
    if n > 0 {
      OneTableLess(n);
      NeededForTables(n - 1);
    }
  }

  /** The heap as start-up has made it can give memory for a directory and up to sixty tables. */
  lemma StartServes(n: nat)
    requires n <= 60
    ensures AllServed(Two(0xC008_1000, 0xC008_1028, 0xC010_0000, false, true), 0xC008_1000, 0xC010_0000, P.KHEAP_END,
                      [8196] + Tables(n))
  {
    var lo, mid, hi := 0xC008_1000, 0xC008_1028, 0xC010_0000;
    var m, sizes := Two(lo, mid, hi, false, true), [8196] + Tables(n);
    TwoBlocks(lo, mid, hi, false, true);
    TwoHoles(lo, mid, hi);
    NeededForTables(n);
    assert sizes[1..] == Tables(n);
    assert AllPaged(sizes) by {
      assert forall i :: 0 < i < |sizes| ==> sizes[i] == Tables(n)[i - 1];
    }
    assert forall x :: x in Holes(m) <==> x == mid;
    assert Holes(m) == {mid};
    hide Tiles, NoAdjacentHoles;
    assert m[mid].size == hi - mid;
    RoomServes(m, lo, hi, P.KHEAP_END, mid, sizes);
  }

  /** Grants for a number of tables. */
  method GrantTables(heap: Heap, n: nat) returns (gs: seq<Grant>, ghost ends: seq<nat>, ghost used: seq<set<nat>>)
    requires heap.Valid() && InWindow(heap)
    requires AllServed(heap.blocks, heap.startAddress, heap.endAddress, heap.maxAddress, Tables(n))
    modifies heap, heap.index, heap.index.items
    ensures heap.Valid() && |gs| == n && InTurn(gs, ends, used)
    ensures ends[0] == old(heap.endAddress) <= heap.endAddress && used[0] == PagesIn(old(Live(heap.blocks)))
    ensures used[n] == PagesIn(Live(heap.blocks))
    ensures forall i :: 0 <= i < n ==> gs[i].top <= heap.endAddress
    ensures heap.endAddress == if n == 0 then old(heap.endAddress) else gs[n - 1].top
  {
    hide ByteMemory.Word, DecodeFooter, PagesOf, PagesIn, Granted, Live, Represents, AllServed, Tables;
    gs, ends, used := [], [heap.endAddress], [PagesIn(Live(heap.blocks))];
    EndPositive(heap);
    for i := 0 to n
      invariant heap.Valid() && |gs| == i && InTurn(gs, ends, used) && 0 <= heap.endAddress
      invariant AllServed(heap.blocks, heap.startAddress, heap.endAddress, heap.maxAddress, Tables(n - i))
      invariant ends[0] == old(heap.endAddress) <= heap.endAddress == ends[i] && used[0] == PagesIn(old(Live(heap.blocks)))
      invariant used[i] == PagesIn(Live(heap.blocks))
      invariant forall j :: 0 <= j < i ==> gs[j].top <= heap.endAddress
      invariant heap.endAddress == if i == 0 then old(heap.endAddress) else gs[i - 1].top
    {
      OneTableLess(n - i);
      var g := GrantFirst(heap, Tables(n - i), 0x1000);
      gs, ends, used := gs + [g], ends + [heap.endAddress], used + [PagesIn(Live(heap.blocks))];
    }
  }

  lemma EndPositive(heap: Heap)
    requires heap.Valid()
    ensures 0 <= heap.endAddress
  {
    hide ByteMemory.Word, DecodeFooter;
  }

  /** The places of a directory with a table of its own. */
  ghost function PlacesIn(m: Paging.Memory, d: P.Directory, n: nat): (places: seq<nat>)
    reads m, m.view.tables.Keys
    ensures forall j :: 0 <= j < |places| ==> places[j] < n && Private(m.view.tables, m.kernel, d, places[j])
    ensures forall i, j :: 0 <= i < j < |places| ==> places[i] < places[j]
    ensures forall i: nat :: i < n && Private(m.view.tables, m.kernel, d, i) ==> i in places
  {
    if n == 0 then []
    else PlacesIn(m, d, n - 1) + if Private(m.view.tables, m.kernel, d, n - 1) then [n - 1] else []
  }

  /** The loop that finds them. */
  method FindPlaces(m: Paging.Memory, d: P.Directory) returns (places: seq<nat>)
    requires m.Valid() && d in m.view.tables
    ensures places == PlacesIn(m, d, 1024)
  {
    hide Paging.Memory.Valid, P.Sound;
    m.ValidSound();
    m.ValidParts();
    PlacesFilled(m.view, m.kernel, d, 0);
    places := [];
    for i := 0 to 1024
      invariant places == PlacesIn(m, d, i)
    {
      if d.tables[i] != null && d.tables[i] != m.kernel.tables[i] {
        places := places + [i];
      }
    }
  }

  /** Each place gets the grant of its turn. */
  method Assign(places: seq<nat>, gs: seq<Grant>) returns (grants: map<nat, Grant>, ghost turns: map<nat, nat>)
    requires |places| == |gs| && forall i, j :: 0 <= i < j < |places| ==> places[i] < places[j]
    ensures grants.Keys == turns.Keys && forall i :: i in turns ==> turns[i] < |gs| && i == places[turns[i]] && grants[i] == gs[turns[i]]
    ensures forall j :: 0 <= j < |places| ==> places[j] in turns && turns[places[j]] == j
  {
    grants, turns := map[], map[];
    for k := 0 to |places|
      invariant grants.Keys == turns.Keys
      invariant forall i :: i in turns ==> turns[i] < k && i == places[turns[i]] && grants[i] == gs[turns[i]]
      invariant forall j :: 0 <= j < k ==> places[j] in turns && turns[places[j]] == j
    {
      grants, turns := grants[places[k] := gs[k]], turns[places[k] := k];
    }
  }

  /** Less was in use, and less was mapped. */
  lemma StillAllGranted(grants: map<nat, Grant>, end: nat, used: set<nat>, end': nat, used': set<nat>)
    requires AllGranted(grants, 0, end, used) && used' <= used
    requires forall i :: i in grants ==> grants[i].address + 0x1000 <= grants[i].top
    ensures AllGranted(grants, 0, end', used')
  {
    hide PagesOf;
  }

  /** What a clone has used of its grants is in use in the heap, and the window has reached the heap's end. */
  lemma EndsMeet(gs: seq<Grant>, ends: seq<nat>, useds: seq<set<nat>>, grants: map<nat, Grant>, turns: map<nat, nat>,
                 places: seq<nat>, start: nat, used: set<nat>, used': set<nat>, end': nat, end: nat)
    requires InTurn(gs, ends, useds) && |places| == |gs| && grants.Keys == turns.Keys
    requires forall i :: i in turns ==> turns[i] < |gs| && grants[i] == gs[turns[i]]
    requires forall j :: 0 <= j < |places| ==> places[j] in turns && turns[places[j]] == j
    requires used <= useds[0] && UsedWithin(grants, used, start, used', end')
    requires TopsBelow(grants, end')
    requires forall i :: 0 <= i < |gs| ==> gs[i].top <= end
    requires start <= end && end == if gs == [] then start else gs[|gs| - 1].top
    ensures used' <= useds[|gs|] && end' == end
  {
    hide PagesOf, Granted;
    UsedGrows(gs, ends, useds, 0, |gs|);
    forall i, p | i in grants && p in PagesOf(grants[i].address, 0x1000) ensures p in useds[|gs|] {
      UsedGrows(gs, ends, useds, turns[i] + 1, |gs|);
    }
    assert TopsBelow(grants, end);
    if gs != [] {
      var last := |gs| - 1;
      assert places[last] in grants && grants[places[last]] == gs[last];
    }
  }

  /** They are all the places with a table of their own. */
  lemma PlacesArePrivate(m: Paging.Memory, d: P.Directory)
    requires m.Valid() && d in m.view.tables
    ensures forall i: nat :: i in PlacesIn(m, d, 1024) <==> Private(m.view.tables, m.kernel, d, i)
    ensures forall i: nat :: i in PlacesIn(m, d, 1024) ==> i < 1024
  {
    hide Paging.Memory.Valid, P.Sound, PlacesIn;
    m.ValidSound();
    PlacesFilled(m.view, m.kernel, d, 0);
  }

  lemma TurnsEnd(gs: seq<Grant>, ends: seq<nat>, used: seq<set<nat>>)
    requires InTurn(gs, ends, used)
    ensures forall i :: 0 <= i < |gs| ==> gs[i].address + 0x1000 <= gs[i].top
    ensures |ends| == |used| == |gs| + 1
  {
  }

  /** Once grants are used up, what is in use is in use in the heap, and the window reaches the heap's end. */
  ghost predicate Closes(grants: map<nat, Grant>, used: set<nat>, start: nat, live: map<int, int>, end: nat) {
    forall used': set<nat>, end': nat :: UsedWithin(grants, used, start, used', end') && TopsBelow(grants, end') ==>
                                           used' <= PagesIn(live) && end' == end
  }

  lemma UsedUp(gs: seq<Grant>, ends: seq<nat>, useds: seq<set<nat>>, grants: map<nat, Grant>, turns: map<nat, nat>,
               places: seq<nat>, start: nat, used: set<nat>, live: map<int, int>, end: nat)
    requires InTurn(gs, ends, useds) && |places| == |gs| && |useds| == |gs| + 1 && grants.Keys == turns.Keys
    requires forall i :: i in turns ==> turns[i] < |gs| && grants[i] == gs[turns[i]]
    requires forall j :: 0 <= j < |places| ==> places[j] in turns && turns[places[j]] == j
    requires used <= useds[0] && useds[|gs|] == PagesIn(live) && forall i :: 0 <= i < |gs| ==> gs[i].top <= end
    requires start <= end && end == if gs == [] then start else gs[|gs| - 1].top
    ensures Closes(grants, used, start, live, end)
  {
    hide InTurn, UsedWithin, TopsBelow, PagesIn;
    forall used': set<nat>, end': nat | UsedWithin(grants, used, start, used', end') && TopsBelow(grants, end')
      ensures used' <= PagesIn(live) && end' == end
    {
      EndsMeet(gs, ends, useds, grants, turns, places, start, used, used', end', end);
    }
  }

  /** Each place's grant is a clone's to use, and they are used up at the end. */
  lemma TurnsServe(gs: seq<Grant>, ends: seq<nat>, useds: seq<set<nat>>, grants: map<nat, Grant>, turns: map<nat, nat>,
                   places: seq<nat>, end0: nat, start: nat, used: set<nat>, live: map<int, int>, end: nat)
    requires InTurn(gs, ends, useds) && |places| == |gs| && |useds| == |gs| + 1 && grants.Keys == turns.Keys
    requires forall i :: i in turns ==> turns[i] < |gs| && i == places[turns[i]] && grants[i] == gs[turns[i]]
    requires forall j :: 0 <= j < |places| ==> places[j] in turns && turns[places[j]] == j
    requires used <= useds[0] && useds[|gs|] == PagesIn(live) && forall i :: 0 <= i < |gs| ==> gs[i].top <= end
    requires start <= end && end == if gs == [] then start else gs[|gs| - 1].top
    ensures AllGranted(grants, 0, end0, used) && Closes(grants, used, start, live, end)
  {
    hide InTurn, AllGranted, Closes, PagesIn;
    GrantsInTurn(gs, ends, useds, turns, grants);
    TurnsEnd(gs, ends, useds);
    StillAllGranted(grants, ends[0], useds[0], end0, used);
    UsedUp(gs, ends, useds, grants, turns, places, start, used, live, end);
  }

  /** All the memory that the copy of a directory takes: first what the directory needs, then a page for
      each table of its own. */
  method Gather(heap: Heap, m: Paging.Memory, d: P.Directory) returns (g: Grant, grants: map<nat, Grant>)
    requires Joined(heap, m) && d in m.view.tables
    requires AllServed(heap.blocks, heap.startAddress, heap.endAddress, heap.maxAddress,
                       [8196] + Tables(|PlacesIn(m, d, 1024)|))
    modifies heap, heap.index, heap.index.items
    ensures heap.Valid() && Granted(g, 8196, m.heapEnd, m.view.used) && m.heapEnd <= g.top
    ensures AllGranted(grants, 0, m.heapEnd, m.view.used + PagesOf(g.address, 8196))
    ensures forall i: nat :: i in grants <==> Private(m.view.tables, m.kernel, d, i)
    ensures forall i :: i in grants ==> i < 1024
    ensures Closes(grants, m.view.used + PagesOf(g.address, 8196), g.top, Live(heap.blocks), heap.endAddress)
  {
    hide ByteMemory.Word, DecodeFooter, PagesOf, PagesIn, Granted, Live, Represents, AllServed, Tables, Paging.Memory.Valid, Heap.Valid,
      AllGranted, InTurn, PlacesIn, Private, Closes;
    ghost var used, live, n := m.view.used, Live(heap.blocks), |PlacesIn(m, d, 1024)|;
    var places := FindPlaces(m, d);
    PlacesArePrivate(m, d);
    assert ([8196] + Tables(n))[1..] == Tables(n);
    g := GrantFirst(heap, [8196] + Tables(n), 8196);
    LessUsed(g, 8196, m.heapEnd, used, PagesIn(live));
    var gs;
    ghost var ends, useds, turns;
    gs, ends, useds := GrantTables(heap, |places|);
    grants, turns := Assign(places, gs);
    TurnsEnd(gs, ends, useds);
    TurnsServe(gs, ends, useds, grants, turns, places, m.heapEnd, g.top, used + PagesOf(g.address, 8196), Live(heap.blocks),
               heap.endAddress);
  }

  /** A directory copied with memory from the heap. It fails only when no frame is left. */
  method CloneFromHeap(heap: Heap, m: Paging.Memory, d: P.Directory) returns (e: P.Directory?)
    requires Joined(heap, m) && d in m.view.tables
    requires AllServed(heap.blocks, heap.startAddress, heap.endAddress, heap.maxAddress,
                       [8196] + Tables(|PlacesIn(m, d, 1024)|))
    modifies heap, heap.index, heap.index.items
    modifies m`view, m`heapEnd, m`ram, m.view.pages.Keys, m.frames, m.frames.table
    ensures e == null ==> m.OutOfFrames()
    ensures e != null ==>
              && Joined(heap, m) && fresh(e) && e in m.view.tables
              && old(d in m.view.tables && m.kernel in m.view.tables)
              && |old(m.view.tables)[d]| == |old(m.view.tables)[m.kernel]| == |m.view.tables[e]| == 1024
              && Cloned(m.kernel, old(m.view), old(m.ram), m.view, m.ram, d, e)
  {
    hide PagesOf, PagesIn, Granted, Live, AllServed, Paging.Memory.Valid, Heap.Valid, Cloned, AllGranted, UsedWithin,
      Paging.Memory.OutOfFrames, FrameOrder.InARow, PlacesIn, Private;
    var g, grants := Gather(heap, m, d);
    e := m.Clone(d, g, grants);
    if e != null {
      assert TopsBelow(grants, m.heapEnd);
    }
  }
}
