/** The frame allocator, page directories, and the copies a fork makes of them. */
module Paging {
  import opened Wrappers
  import opened Bitsets
  import opened PageTables
  import opened AddressSpaces
  import opened FrameOrder

  /** Aligning for a page: the next boundary, even from a boundary, except below the first. */
  function PageAfter(a: nat): nat {
    if a / 0x1000 * 0x1000 != 0 then a / 0x1000 * 0x1000 + 0x1000 else a
  }

  function Max(a: nat, b: nat): nat { if a < b then b else a }

  /** What the heap grants a request: an address, and the end of the mapped window afterwards. */
  datatype Grant = Grant(address: nat, top: nat)

  /** The pages that a block of memory touches. */
  ghost function PagesOf(address: nat, size: nat): set<nat> {
    set p: nat | address <= p < address + size && p % 0x1000 == 0 :: p
  }

  /** What the heap promises about the memory it grants. */
  ghost predicate Granted(g: Grant, size: nat, heapEnd: nat, used: set<nat>) {
    && g.address % 0x1000 == 0 && g.top % 0x1000 == 0 && KHEAP_START <= g.address && g.top <= KHEAP_END && 0 < size
    && (g.address + size <= heapEnd || g.address + size <= g.top)
    && PagesOf(g.address, size) !! used
  }

  /** The same for a number of tables, one grant for each that may need one. */
  ghost predicate AllGranted(grants: map<nat, Grant>, from: nat, heapEnd: nat, used: set<nat>) {
    && (forall i :: i in grants && from <= i ==> Granted(grants[i], 0x1000, heapEnd, used))
    && (forall i, j :: i in grants && j in grants && i != j ==>
          PagesOf(grants[i].address, 0x1000) !! PagesOf(grants[j].address, 0x1000))
  }

  lemma GrantsLeft(grants: map<nat, Grant>, i: nat, heapEnd: nat, used: set<nat>, heapEnd': nat, used': set<nat>)
    requires AllGranted(grants, i, heapEnd, used) && heapEnd <= heapEnd'
    requires used' <= used + if i in grants then PagesOf(grants[i].address, 0x1000) else {}
    ensures AllGranted(grants, i + 1, heapEnd', used')
  {
    hide PagesOf;
  }

  lemma GrantsStand(grants: map<nat, Grant>, i: nat, heapEnd: nat, used: set<nat>, heapEnd': nat)
    requires AllGranted(grants, i, heapEnd, used) && heapEnd <= heapEnd'
    ensures AllGranted(grants, i, heapEnd', used)
    ensures i in grants ==> Granted(grants[i], 0x1000, heapEnd', used)
  {
    hide PagesOf;
  }

  lemma StillGranted(g: Grant, heapEnd: nat, heapEnd': nat, used: set<nat>, more: set<nat>)
    requires Granted(g, 0x1000, heapEnd, used) && heapEnd <= heapEnd' && PagesOf(g.address, 0x1000) !! more
    ensures Granted(g, 0x1000, heapEnd', used + more)
  {
    hide PagesOf;
  }

  /** A grant for each table that a directory lacks, as far as there are grants. */
  ghost predicate GrantedWhereMissing(grants: map<nat, Grant>, tables: seq<Table?>, heapEnd: nat, used: set<nat>) {
    && (forall i :: i in grants && i < |tables| && tables[i] == null ==> Granted(grants[i], 0x1000, heapEnd, used))
    && (forall i, j :: i in grants && j in grants && i != j ==>
          PagesOf(grants[i].address, 0x1000) !! PagesOf(grants[j].address, 0x1000))
  }

  lemma TableInRange(a: nat)
    requires a < 0x1_0000_0000
    ensures TableOf(a) < 1024
  {
    assert a / 0x1000 < 0x10_0000;
  }

  ghost predicate TopsBelow(grants: map<nat, Grant>, top: nat) {
    forall i :: i in grants ==> grants[i].top <= top
  }

  /** What is in use, and the end of the window, after some of the grants have been used. */
  ghost predicate UsedWithin(grants: map<nat, Grant>, used: set<nat>, end: nat, used': set<nat>, end': nat) {
    && used' <= used + (set i, p | i in grants && p in PagesOf(grants[i].address, 0x1000) :: p)
    && end <= end' && forall top: nat :: end <= top && TopsBelow(grants, top) ==> end' <= top
  }

  lemma NoneUsed(grants: map<nat, Grant>, used: set<nat>, end: nat)
    ensures UsedWithin(grants, used, end, used, end)
  {
  }

  lemma OneMoreUsed(grants: map<nat, Grant>, used: set<nat>, end: nat, used1: set<nat>, end1: nat, i: nat,
                    used2: set<nat>, end2: nat)
    requires UsedWithin(grants, used, end, used1, end1)
    requires used2 <= used1 + if i in grants then PagesOf(grants[i].address, 0x1000) else {}
    requires end2 == end1 || (i in grants && end2 == Max(grants[i].top, end1))
    ensures UsedWithin(grants, used, end, used2, end2)
  {
    hide PagesOf;
  }

  /** A table that is missing, and has no grant. */
  ghost predicate Ungranted(tables: seq<Table?>, grants: map<nat, Grant>, j: nat) {
    j < |tables| && tables[j] == null && j !in grants
  }

  /** A place where a directory has a table that is not the kernel's. */
  ghost predicate Private(tables: map<Directory, seq<Table?>>, kernel: Directory, d: Directory, i: nat) {
    && d in tables && kernel in tables && i < |tables[d]| && i < |tables[kernel]|
    && tables[d][i] != null && tables[d][i] != tables[kernel][i]
  }

  /** The window reaches as far as the grants for the private tables among the first n do. */
  ghost predicate TopsReached(grants: map<nat, Grant>, tables: map<Directory, seq<Table?>>, kernel: Directory, d: Directory,
                              n: nat, end: nat) {
    forall i :: i in grants && i < n && Private(tables, kernel, d, i) ==> grants[i].top <= end
  }

  lemma NoneReached(grants: map<nat, Grant>, tables: map<Directory, seq<Table?>>, kernel: Directory, d: Directory, end: nat)
    ensures TopsReached(grants, tables, kernel, d, 0, end)
  {
  }

  lemma OneMoreReached(grants: map<nat, Grant>, tables: map<Directory, seq<Table?>>, kernel: Directory, d: Directory,
                       i: nat, end: nat, end': nat)
    requires TopsReached(grants, tables, kernel, d, i, end) && end <= end'
    requires i in grants && Private(tables, kernel, d, i) ==> grants[i].top <= end'
    ensures TopsReached(grants, tables, kernel, d, i + 1, end')
  {
    hide Private;
  }

  lemma EntryIs(t: Table)
    ensures EntryFor(t) == t.phys + 0x7
  {
  }

  lemma MirrorsMore(tables: seq<Table?>, physical: seq<int>, i: nat, t: Table)
    requires Mirrors(tables, physical) && i < 1024
    ensures |tables| == |physical| == 1024 && Mirrors(tables[i := t], physical[i := EntryFor(t)])
  {
  }

  class Memory {
    const frames: Bitset
    const kernel: Directory
    var current: Directory
    var ram: seq<seq<int>>  // 1024 words a frame
    var heapEnd: nat        // pages of the kernel window below this are mapped
    var base: nat           // where the bump allocator stands, before there is a heap
    ghost var view: View

    /** The state before anything is mapped. `memEnd` is in kilobytes. */
    constructor (memEnd: nat, end: nat, contents: seq<seq<int>>)
      requires memEnd < 0x40_0000
      requires |contents| == 32 * (memEnd * 1024 / 0x1000 / 32) && forall f :: 0 <= f < |contents| ==> |contents[f]| == 1024
      ensures Basic() && fresh(frames) && fresh(frames.table) && fresh(kernel) && ram == contents && current == kernel
      ensures view == View(map[], map[kernel := NoTables()], map[kernel := NoEntries()], map[], {}, 0,
                           KHEAP_START + KHEAP_INITIAL_SIZE, {})
      ensures end <= base <= end + 8 + |contents| / 8 + 0x1000 + 8196
      ensures end + 8 + 4 * (|contents| / 32) <= kernel.address <= end + 8 + 4 * (|contents| / 32) + 0x1000
      ensures base == kernel.address + 8196 && kernel.physicalAddress == kernel.address + 0x1000
      ensures 0x1000 <= end ==> kernel.address % 0x1000 == 0
    {
      var bytes := memEnd * 1024;
      bytes := bytes - bytes % 0x1000;
      var numFrames := bytes / 0x1000;
      var address := PageAfter(end + 8 + 4 * (numFrames / 32));
      base := address + 8196;
      frames := new Bitset(numFrames);
      kernel := new Directory(address);
      current := kernel;
      ram := contents;
      heapEnd := KHEAP_START + KHEAP_INITIAL_SIZE;
      view := View(map[], map[kernel := NoTables()], map[kernel := NoEntries()], map[], {}, 0,
                   KHEAP_START + KHEAP_INITIAL_SIZE, {});
    }

    /** The values are those of the objects. */
    ghost predicate Synced()
      reads `view, `heapEnd, frames, frames.table, view.pages.Keys, view.tables.Keys
    {
      && frames.Valid() && frames.members == view.marks && heapEnd == view.heapEnd
      && PagesHold(view.pages) && DirectoriesHold(view.tables, view.physical)
    }

    /** No frame is left. */
    ghost predicate OutOfFrames()
      reads `ram, `view
    {
      forall f: nat :: f < |ram| ==> f in view.marks
    }

    ghost predicate RamShape()
      reads `ram
    {
      |ram| == 32 * frames.table.Length < NOT_FOUND && forall f :: 0 <= f < |ram| ==> |ram[f]| == 1024
    }

    lemma RamWithin()
      requires RamShape()
      ensures |ram| == 32 * frames.table.Length < NOT_FOUND
    {
    }

    ghost predicate Basic()
      reads this, frames, frames.table, view.pages.Keys, view.tables.Keys
    {
      Synced() && RamShape() && Owned(view.pages, view.owner, view.marks)
    }

    ghost predicate Valid()
      reads this, frames, frames.table, view.pages.Keys, view.tables.Keys
    {
      Synced() && RamShape() && current in view.tables && Sound(view, kernel)
    }

    /** Gives an entry the least free frame unless it has one; false when none is left. */
    method AllocFrame(t: Table, i: nat, isKernel: bool, isWriteable: bool) returns (ok: bool)
      requires Basic() && t in view.pages && i < 1024
      modifies this`view, t`pages, frames, frames.table
      ensures Basic() && Fills(old(view).pages, view.pages)
      ensures old(t.pages[i].frame) != 0 ==> ok && view == old(view)
      ensures !ok ==> OutOfFrames() && view == old(view) && old(t.pages[i].frame) == 0
      ensures ok && old(t.pages[i].frame) == 0 ==>
                && t in view.pages
                && var f := t.pages[i].frame;
                && f < |ram| && f !in old(view).marks && (forall g: nat :: g < f ==> g in old(view).marks)
                && view == Filled(old(view), t, i, Page(true, isWriteable, !isKernel, old(t.pages[i].accessed), old(t.pages[i].dirty), f))
    {
      hide Owned, Fills, Bitset.Valid, DirectoriesHold, RamShape;
      RamWithin();
      OwnedFull(view);
      if t.pages[i].frame != 0 {
        return true;
      }
      var index := frames.Next();
      if index == NOT_FOUND {
        return false;
      }
      frames.Set(index);
      ghost var v := view;
      t.pages := t.pages[i := t.pages[i].(present := true, rw := isWriteable, user := !isKernel, frame := index)];
      FollowFrame(v, t, i, t.pages[i]);
      ok := true;
    }

    /** The state follows an entry that got a frame. */
    ghost method FollowFrame(v: View, t: Table, i: nat, p: Page)
      requires frames.Valid() && frames.members == v.marks + {p.frame} && heapEnd == v.heapEnd && RamShape()
      requires t in v.pages && i < 1024 == |v.pages[t]| && v.pages[t][i].frame == 0 && p.frame !in v.marks
      requires PagesHold(v.pages[t := v.pages[t][i := p]]) && DirectoriesHold(v.tables, v.physical)
      requires Owned(v.pages, v.owner, v.marks)
      modifies this`view
      ensures Basic() && Fills(v.pages, view.pages) && view == Filled(v, t, i, p)
    {
      hide Owned, Fills, Bitset.Valid, DirectoriesHold, RamShape, PagesHold;
      FilledOwned(v, t, i, p);
      view := Filled(v, t, i, p);
    }

    /** Clears an entry; but the index handed to the bitset has been divided by the page size. */
    method FreeFrame(t: Table, i: nat)
      requires Basic() && 0 in view.marks && t in view.pages && i < 1024
      modifies this`view, t`pages, frames, frames.table
      ensures Synced() && RamShape()
      ensures var f := old(t.pages[i].frame);
        view == if f == 0 then old(view)
                else old(view).(pages := old(view).pages[t := old(t.pages)[i := old(t.pages[i]).(frame := 0)]],
                                marks := old(view).marks - {f / 0x1000})
      ensures var f := old(t.pages[i].frame); f != 0 ==> f in view.marks
      ensures var f := old(t.pages[i].frame); f != 0 ==>
        (Owned(view.pages, view.owner, view.marks) && 0 in view.marks
         <==> 0x1000 <= f && forall u, j :: u in view.pages && 0 <= j < |view.pages[u]| ==> view.pages[u][j].frame != f / 0x1000)
      ensures var f := old(t.pages[i].frame); f != 0 && old(Sound(view, kernel)) ==>  // in a run from start-up it never does
                !(Owned(view.pages, view.owner, view.marks) && 0 in view.marks)
    {
      hide Owned, Bitset.Valid, DirectoriesHold, RamShape, Sound;
      OwnedFull(view);
      var frame := t.pages[i].frame;
      if frame == 0 {
        return;
      }
      FrameMarked(view, t, i);
      frames.Range(frame);
      frames.Clear(frame / 0x1000);
      FreeingBreaks(view, t, i);
      t.pages := t.pages[i := t.pages[i].(frame := 0)];
      view := view.(pages := view.pages[t := t.pages], marks := view.marks - {frame / 0x1000});
    }

    /** When ownership survives that: never in a run from start-up. */
    lemma FreeingBreaks(v: View, t: Table, i: nat)
      requires Owned(v.pages, v.owner, v.marks) && 0 in v.marks && t in v.pages && i < 1024 == |v.pages[t]|
      requires v.pages[t][i].frame != 0
      ensures var f, pages' := v.pages[t][i].frame, v.pages[t := v.pages[t][i := v.pages[t][i].(frame := 0)]];
        && (Owned(pages', v.owner, v.marks - {f / 0x1000}) && 0 in v.marks - {f / 0x1000}
            <==> 0x1000 <= f && forall u, j :: u in pages' && 0 <= j < |pages'[u]| ==> pages'[u][j].frame != f / 0x1000)
        && (Sound(v, kernel) ==> !(Owned(pages', v.owner, v.marks - {f / 0x1000}) && 0 in v.marks - {f / 0x1000}))
    {
      hide Owned, Sound;
      OwnedFull(v);
      var f := v.pages[t][i].frame;
      ClearingKeeps(v.pages, v.owner, v.marks, t, i, f / 0x1000);
      if Sound(v, kernel) {
        ClearingBreaks(v, kernel, t, i, f / 0x1000);
      }
    }

    /** Copies 1024 words from one physical page to another. */
    method CopyPagePhysical(source: nat, destination: nat)
      requires source % 0x1000 == 0 && destination % 0x1000 == 0 && RamShape()
      requires source / 0x1000 < |ram| && destination / 0x1000 < |ram|
      modifies `ram
      ensures RamShape() && ram == old(ram)[destination / 0x1000 := old(ram)[source / 0x1000]]
    {
      var ebx, ecx, edx := source, destination, 1024;
      ghost var from, to := source / 0x1000, destination / 0x1000;
      while edx != 0
        invariant 0 <= edx <= 1024 && ebx == source + 4 * (1024 - edx) && ecx == destination + 4 * (1024 - edx)
        invariant |ram| == |old(ram)| && |ram[to]| == 1024
        invariant forall f :: 0 <= f < |ram| && f != to ==> ram[f] == old(ram)[f]
        invariant forall k :: 0 <= k < 1024 - edx ==> ram[to][k] == old(ram)[from][k]
        invariant forall k :: 1024 - edx <= k < 1024 ==> ram[to][k] == old(ram)[to][k]
      {
        var page := ecx / 0x1000;
        assert page == to && ebx / 0x1000 == from && ebx % 0x1000 / 4 == ecx % 0x1000 / 4 == 1024 - edx;
        var eax := ram[ebx / 0x1000][ebx % 0x1000 / 4];
        ram := ram[page := ram[page][ecx % 0x1000 / 4 := eax]];
        ebx := ebx + 4;
        ecx := ecx + 4;
        edx := edx - 1;
      }
      assert ram[to] == old(ram)[from];
    }

    // The heap, and what it takes from paging.

    lemma ValidParts()
      requires Valid()
      ensures Basic() && Full(view.pages) && |kernel.tables| == 1024 && InOrder(view.marks, view.given) && Grows(kernel.tables, view, view)
      ensures kernel in view.tables && kernel.tables == view.tables[kernel] && WindowMapped(kernel.tables, view.pages, heapEnd)
      ensures KHEAP_START <= heapEnd <= KHEAP_END && heapEnd % 0x1000 == 0 && heapEnd == view.heapEnd
      ensures forall w :: HeapTable(w) ==> kernel.tables[w] != null && kernel.tables[w] in view.pages
    {
      hide Bitset.Valid, Homes, FrameAt, Apart, Held;
      assert WindowOf(view.tables[kernel], view.tables[kernel]);
    }

    lemma ValidPages(t: Table)
      requires Valid() && t in view.pages
      ensures t.pages == view.pages[t] && |t.pages| == 1024 && frames.Valid() && frames.members == view.marks
    {
      hide Bitset.Valid;
    }

    lemma ValidFills()
      requires Valid()
      ensures Full(view.pages) && Fills(view.pages, view.pages)
    {
      hide Bitset.Valid, Held, WindowMapped, Homes, Shared;
    }

    lemma ValidSound()
      requires Valid()
      ensures Sound(view, kernel) && Fills(view.pages, view.pages) && current in view.tables
      ensures forall d :: d in view.tables ==> d.tables == view.tables[d] && Mirrors(d.tables, d.physical)
    {
      hide Bitset.Valid, Held, WindowMapped, Homes, Shared;
    }

    /** A fresh frame in an empty entry. */
    lemma FilledValid(v: View, t: Table, i: nat, p: Page)
      requires Synced() && RamShape() && current in v.tables && Sound(v, kernel)
      requires t in v.pages && i < 1024 == |v.pages[t]| && v.pages[t][i].frame == 0 && p.frame == v.given
      requires view == Filled(v, t, i, p)
      ensures Valid()
    {
      hide Bitset.Valid, Sound;
      FilledSound(v, kernel, t, i, p);
    }

    lemma WindowTable(a: nat)
      requires KHEAP_START <= a < UHEAP_END
      ensures HeapTable(TableOf(a))
    {
    }

    lemma FrameOfEntry(tables: seq<Table?>, pages: PageMap, a: nat)
      requires |tables| == 1024 && Full(pages) && TableOf(a) < 1024 && tables[TableOf(a)] != null && tables[TableOf(a)] in pages
      ensures FrameAt(tables, pages, a) == pages[tables[TableOf(a)]][SlotOf(a)].frame
    {
    }

    lemma KernelPlaces(a: nat)
      requires Valid() && HeapTable(TableOf(a)) && |kernel.tables| == 1024
      ensures OnePlace(kernel.tables, kernel.tables, kernel.tables, true)
      ensures kernel.tables[TableOf(a)] != null && kernel.tables[TableOf(a)] in view.pages
    {
      hide Bitset.Valid, Homes, FrameAt, Apart, Held, WindowMapped, TableOf;
      ValidParts();
      assert OnePlace(view.tables[kernel], view.tables[kernel], view.tables[kernel], kernel == kernel);
    }

    lemma SameMapped(v: View, a: nat)
      requires |kernel.tables| == 1024 && Full(v.pages) && FrameAt(kernel.tables, v.pages, a) != 0
      ensures MappedOne(kernel.tables, v, v, a)
    {
    }

    /** Maps one page of the kernel heap's window, seen from where the expansion began. */
    method MapWindowPage(a: nat, ghost v: View) returns (ok: bool)
      requires Valid() && HeapTable(TableOf(a)) && Grows(kernel.tables, v, view) && a % 0x1000 == 0
      modifies this`view, view.pages.Keys, frames, frames.table
      ensures Valid() && Grows(kernel.tables, v, view) && view.pages.Keys == old(view).pages.Keys && view.used == old(view).used
      ensures view.heapEnd == old(view).heapEnd
      ensures ok ==> Fills(old(view).pages, view.pages) && MappedOne(kernel.tables, old(view), view, a)
      ensures ok ==> |kernel.tables| == 1024 && Full(view.pages) && FrameAt(kernel.tables, view.pages, a) != 0
      ensures !ok ==>
                && OutOfFrames() && view == old(view) && |kernel.tables| == 1024 && Full(view.pages)
                && FrameAt(kernel.tables, view.pages, a) == 0
    {
      hide Bitset.Valid, Sound, Owned, Grows, Fills, MappedOne;
      ValidParts();
      KernelPlaces(a);
      ghost var v1 := view;
      var t, i := kernel.tables[TableOf(a)], SlotOf(a);
      FrameOfEntry(kernel.tables, view.pages, a);
      ok := AllocFrame(t, i, false, false);
      if ok {
        if v1.pages[t][i].frame == 0 {
          ghost var p := view.pages[t][i];
          NextIsLeast(v1, kernel, p.frame);
          FilledGrows(kernel.tables, v, v1, t, i, p);
          FilledValid(v1, t, i, p);
          FillsOne(kernel.tables, v1, a, p);
        } else {
          SameMapped(v1, a);
        }
      }
    }

    /** Where the mapped part of the window ends now. */
    method MoveEnd(end: nat, ghost v: View)
      requires Valid() && Grows(kernel.tables, v, view) && heapEnd <= end
      requires |kernel.tables| == 1024 && Full(view.pages) && WindowMapped(kernel.tables, view.pages, end)
      modifies this`view, this`heapEnd
      ensures Valid() && Grows(kernel.tables, v, view) && heapEnd == end && view == old(view).(heapEnd := end)
    {
      hide Bitset.Valid, Sound, Grows, Fills, WindowMapped;
      ValidParts();
      EndMoved(v, view, kernel, end);
      heapEnd := end;
      view := view.(heapEnd := end);
    }

    lemma FramesCounted()
      requires Valid()
      ensures view.given <= |ram| && (OutOfFrames() <==> view.given == |ram|)
    {
      hide Sound;
      ValidParts();
      RamWithin();
      assert view.given - 1 in view.marks;
      frames.Range(view.given - 1);
      assert OutOfFrames() && view.given < |ram| ==> view.given in view.marks;
    }

    /** The loop of the heap's expansion: every page from the old end up to the new one that has no frame
        gets the next one. It stops only when there are more of those pages than frames. */
    method GrowWindow(top: nat) returns (ok: bool)
      requires Valid() && top % 0x1000 == 0 && top <= KHEAP_END
      modifies this`view, this`heapEnd, view.pages.Keys, frames, frames.table
      ensures Valid() && Grows(kernel.tables, old(view), view)
      ensures view.pages.Keys == old(view).pages.Keys && view.used == old(view).used
      ensures ok ==> heapEnd == Max(top, old(heapEnd)) && Stretched(kernel.tables, old(view), view, old(heapEnd), heapEnd)
      ensures !ok ==> OutOfFrames() && heapEnd == old(heapEnd)
      ensures |kernel.tables| == 1024 && Full(old(view).pages)
      ensures ok <==> old(view).given + Bare(kernel.tables, old(view), old(heapEnd), top) <= |ram|
    {
      hide Valid, Basic, Grows, Fills, WindowMapped, TableOf, FrameAt, OutOfFrames, Stretched, Bare;
      ValidParts();
      ghost var v := view;
      var i := heapEnd;
      StretchStarts(kernel.tables, v, heapEnd);
      while i < top
        invariant heapEnd <= i && i % 0x1000 == 0 && (i <= top || i == heapEnd) && i <= KHEAP_END
        invariant Valid() && Full(view.pages) && Grows(kernel.tables, v, view)
        invariant WindowMapped(kernel.tables, view.pages, i) && Stretched(kernel.tables, v, view, heapEnd, i)
        invariant view.pages.Keys == v.pages.Keys && view.used == v.used && heapEnd == old(heapEnd) == v.heapEnd
      {
        ok := GrowNext(i, v);
        FramesCounted();
        if !ok {
          NotEnough(v, view, heapEnd, i, top);
          return;
        }
        i := i + PAGE_SIZE;
      }
      FramesCounted();
      Enough(v, view, heapEnd, i, top);
      ghost var v1 := view;
      MoveEnd(i, v);
      StretchEnds(v, v1, old(heapEnd), i);
      ok := true;
    }

    lemma NotEnough(v: View, v': View, from: nat, i: nat, top: nat)
      requires |kernel.tables| == 1024 && Full(v.pages) && Full(v'.pages) && Stretched(kernel.tables, v, v', from, i)
      requires from <= i < top && from % 0x1000 == i % 0x1000 == top % 0x1000 == 0 && FrameAt(kernel.tables, v'.pages, i) == 0
      ensures v'.given < v.given + Bare(kernel.tables, v, from, top)
    {
      hide FrameAt, Bare;
      FewerBare(kernel.tables, v, from, i, top);
    }

    lemma Enough(v: View, v': View, from: nat, i: nat, top: nat)
      requires |kernel.tables| == 1024 && Full(v.pages) && Stretched(kernel.tables, v, v', from, i)
      requires i == Max(top, from)
      ensures v'.given == v.given + Bare(kernel.tables, v, from, top)
    {
      hide FrameAt;
    }

    lemma StretchEnds(v: View, v': View, from: nat, end: nat)
      requires Stretched(kernel.tables, v, v', from, end)
      ensures Stretched(kernel.tables, v, v'.(heapEnd := end), from, end)
    {
      hide FrameAt, Bare;
    }

    /** One turn of the loop above. */
    method GrowNext(i: nat, ghost v: View) returns (ok: bool)
      requires Valid() && |kernel.tables| == 1024 && Full(view.pages) && Full(v.pages) && Grows(kernel.tables, v, view)
      requires WindowMapped(kernel.tables, view.pages, i) && i + 0x1000 <= KHEAP_END
      requires v.heapEnd <= i && v.heapEnd % 0x1000 == 0 && Stretched(kernel.tables, v, view, v.heapEnd, i)
      modifies this`view, view.pages.Keys, frames, frames.table
      ensures Valid() && Grows(kernel.tables, v, view)
      ensures view.pages.Keys == old(view).pages.Keys && view.used == old(view).used
      ensures Full(view.pages)
      ensures ok ==>
                && WindowMapped(kernel.tables, view.pages, i + 0x1000)
                && Stretched(kernel.tables, v, view, v.heapEnd, i + 0x1000)
      ensures !ok ==> OutOfFrames() && view == old(view) && FrameAt(kernel.tables, view.pages, i) == 0
    {
      hide Valid, Basic, Grows, Fills, FrameAt, TableOf, MappedOne, Stretched, OutOfFrames;
      ghost var v1 := view;
      WindowTable(i);
      ok := MapWindowPage(i, v);
      if ok {
        WindowGrows(kernel.tables, v1.pages, view.pages, i);
        ValidFills();
        StretchedMore(kernel.tables, v, v1, view, v.heapEnd, i);
      }
    }

    /** In the heap windows the current directory maps what the kernel maps. */
    lemma CurrentSees(a: nat)
      requires Valid() && KHEAP_START <= a < UHEAP_END && |kernel.tables| == 1024 && Full(view.pages)
      ensures |current.tables| == 1024
      ensures FrameAt(kernel.tables, view.pages, a) != 0 ==>
                && current.tables[TableOf(a)] != null && current.tables[TableOf(a)] in view.pages
                && |current.tables[TableOf(a)].pages| == 1024
                && FrameAt(current.tables, view.pages, a) == FrameAt(kernel.tables, view.pages, a)
    {
      hide Bitset.Valid;
      WindowShared(view, kernel, current, a);
    }

    /** Where the directory in force has an address. None where the kernel stops: there is no table. */
    method GetPhysicalAddress(address: nat) returns (r: Option<nat>)
      requires Valid() && address < 0x1_0000_0000
      ensures |current.tables| == 1024 && TableOf(address) < 1024 && Full(view.pages)
      ensures r == None <==> current.tables[TableOf(address)] == null
      ensures r != None ==> r.value == 0x1000 * FrameAt(current.tables, view.pages, address) + address % 0x1000
    {
      hide Sound;
      ValidSound();
      ValidFills();
      HardwareAgrees(view, kernel, current, address);
      PlacesFilled(view, kernel, current, 0);
      var t := current.tables[TableOf(address)];
      if t == null {
        return None;
      }
      r := Some(0x1000 * t.pages[SlotOf(address)].frame + address % 0x1000);
    }

    /** The heap takes memory, after growing its window when it has to. */
    method Kalloc(size: nat, g: Grant) returns (phys: Option<nat>)
      requires Valid() && Granted(g, size, heapEnd, view.used)
      modifies this`view, this`heapEnd, view.pages.Keys, frames, frames.table
      ensures Valid() && Grows(kernel.tables, old(view), view)
      ensures view.pages.Keys == old(view).pages.Keys && view.used == old(view).used
      ensures phys == None ==> OutOfFrames()
      ensures |kernel.tables| == 1024 && Full(old(view).pages)
      ensures phys != None <==> old(view).given + Bare(kernel.tables, old(view), old(heapEnd), g.top) <= |ram|
      ensures phys != None ==>
                && heapEnd == Max(g.top, old(heapEnd)) && Stretched(kernel.tables, old(view), view, old(heapEnd), heapEnd)
                && |kernel.tables| == 1024 && Full(view.pages) && KHEAP_START <= g.address
                && FrameAt(kernel.tables, view.pages, g.address) != 0
                && phys.value == 0x1000 * FrameAt(kernel.tables, view.pages, g.address)
    {
      hide Valid, Basic, Grows, Fills, FrameAt, OutOfFrames, Stretched, Bare;
      var ok := GrowWindow(g.top);
      if !ok {
        return None;
      }
      ValidParts();
      CurrentSees(g.address);
      phys := GetPhysicalAddress(g.address);
    }

    /** A new table in the state. */
    ghost method AddTable(t: Table, size: nat, v: View)
      requires Valid() && Grows(kernel.tables, v, view) && t.pages == EmptyPages() && PagesOf(t.address, size) !! view.used
      requires |kernel.tables| == 1024 && Full(view.pages) && 0 < size && Fresh(view, kernel, t)
      modifies this`view
      ensures Valid() && Grows(kernel.tables, v, view)
      ensures view == WithTable(old(view), t).(used := old(view).used + PagesOf(t.address, size))
    {
      hide Bitset.Valid, Sound, Grows, Fills, EmptyPages, FrameAt;
      ValidParts();
      var used := view.used + PagesOf(t.address, size);
      assert t.address in PagesOf(t.address, size);
      NewTableSound(view, kernel, t, used);
      NewTableGrows(kernel.tables, v, view, t, used);
      view := WithTable(view, t).(used := used);
    }

    /** The state follows what was put in a directory. */
    ghost method FollowAttach(d: Directory, i: nat, t: Table, v: View)
      requires frames.Valid() && frames.members == view.marks && heapEnd == view.heapEnd && PagesHold(view.pages) && RamShape()
      requires DirectoriesHold(view.tables[d := d.tables], view.physical[d := d.physical])
      requires current in view.tables && Sound(view, kernel)
      requires d in view.tables && d in view.physical && i < 1024 == |view.tables[d]| == |view.physical[d]|
      requires view.tables[d][i] == null && t in view.pages
      requires d.tables == view.tables[d][i := t] && d.physical == view.physical[d][i := EntryFor(t)]
      requires view.tables == v.tables && view.physical == v.physical && t !in v.pages && Sound(v, kernel)
      modifies this`view
      ensures Valid() && view == old(view).(tables := view.tables, physical := view.physical)
      ensures view.tables == old(view).tables[d := d.tables]
    {
      hide Bitset.Valid, Sound, EntryFor, PagesHold, DirectoriesHold, RamShape;
      NotInDirectories(v, kernel, t);
      AttachedSound(view, kernel, d, i, t);
      view := Attached(view, d, i, t);
    }

    /** Puts a table in an empty place of a directory, for the kernel and for the hardware. */
    method Attach(d: Directory, i: nat, t: Table, ghost v: View)
      requires Valid() && d in view.tables && i < |d.tables| == 1024 && d.tables[i] == null && t in view.pages
      requires view.tables == v.tables && view.physical == v.physical && t !in v.pages && Sound(v, kernel)
      modifies this`view, d`tables, d`physical
      ensures Valid() && view == old(view).(tables := view.tables, physical := view.physical)
      ensures d.tables == old(d.tables)[i := t] && d.physical == old(d.physical)[i := EntryFor(t)]
      ensures view.tables == old(view).tables[d := d.tables]
    {
      hide Bitset.Valid, Sound, EntryFor, PagesHold, RamShape;
      NotInDirectories(v, kernel, t);
      d.tables, d.physical := d.tables[i := t], d.physical[i := EntryFor(t)];
      FollowAttach(d, i, t, v);
    }

    /** A table of empty entries on the heap. */
    method NewTable(g: Grant) returns (t: Table?)
      requires Valid() && Granted(g, 0x1000, heapEnd, view.used)
      modifies this`view, this`heapEnd, view.pages.Keys, frames, frames.table
      ensures Valid() && Grows(kernel.tables, old(view), view)
      ensures t == null ==> OutOfFrames() && view.pages.Keys == old(view).pages.Keys && view.used == old(view).used
      ensures t != null ==>
                && fresh(t) && view.pages.Keys == old(view).pages.Keys + {t} && t.pages == EmptyPages()
                && t.address == g.address && view.used == old(view).used + PagesOf(g.address, 0x1000)
                && heapEnd == Max(g.top, old(heapEnd))
    {
      hide Valid, Basic, Grows, Fills, EmptyPages, FrameAt, OutOfFrames, Stretched;
      ghost var v := view;
      ValidParts();
      var phys := Kalloc(0x1000, g);
      if phys == None {
        return null;
      }
      t := new Table(g.address, phys.value);
      ValidParts();
      AddTable(t, 0x1000, v);
    }

    /** The table that holds the entry for an address, made first if need be. Null where the kernel
        stops: there is no table and none is to be made, or there is no memory for it. */
    method GetPage(d: Directory, address: nat, make: bool, g: Grant) returns (t: Table?)
      requires Valid() && d in view.tables && address < 0x1_0000_0000 && |d.tables| == 1024
      requires make && TableOf(address) < 1024 && d.tables[TableOf(address)] == null ==> Granted(g, 0x1000, heapEnd, view.used)
      modifies this`view, this`heapEnd, view.pages.Keys, frames, frames.table, d`tables, d`physical
      ensures Valid() && |d.tables| == 1024 && TableOf(address) < 1024 && Fills(old(view).pages, view.pages)
      ensures var i := TableOf(address);
        && (t != null ==> t == d.tables[i] && t in view.pages && (t in old(view.pages) || fresh(t)))
        && (t != null ==> && kernel in old(view).tables && |old(view).tables[d]| == |old(view).tables[kernel]| == 1024
                          && TableMade(old(view), kernel, d, i, t, view.pages))
        && (old(d.tables[i]) != null ==> t == old(d.tables[i]) && view == old(view) && d.tables == old(d.tables) && heapEnd == old(heapEnd))
        && (old(d.tables[i]) == null && !make ==> t == null && view == old(view) && d.tables == old(d.tables))
        && (old(d.tables[i]) == null && t != null ==>
              && fresh(t) && t.pages == EmptyPages()
              && d.tables == old(d.tables)[i := t] && view.tables == old(view).tables[d := d.tables]
              && view.pages.Keys == old(view.pages.Keys) + {t}
              && view.used == old(view).used + PagesOf(g.address, 0x1000) && heapEnd == Max(g.top, old(heapEnd))
              && |d.physical| == 1024 && d.physical[i] == t.phys + 0x7 && view.pages[t] == EmptyPages() && t !in old(view.pages)
              && Grows(old(kernel.tables), old(view), view.(tables := old(view).tables, physical := old(view).physical)))
        && (old(d.tables[i]) == null && make && t == null ==> OutOfFrames() && d.tables == old(d.tables) && view.tables == old(view).tables)
    {
      hide Valid, Basic, Sound, Grows, Fills, EmptyPages, FrameAt, OutOfFrames;
      ghost var v := view;
      ValidParts();
      ValidSound();
      assert address / 0x1000 < 0x10_0000;
      var i := TableOf(address);
      PlacesFilled(v, kernel, d, 0);
      if d.tables[i] == null && make {
        t := NewTable(g);
        GrowsParts(kernel.tables, v, view);
        if t == null {
          return;
        }
        Attach(d, i, t, v);
        ValidPages(t);
        EntryIs(t);
        MadeWhenGrown(v, d, i, t);
      }
      t := d.tables[i];
    }

    lemma MadeWhenGrown(v: View, d: Directory, i: nat, t: Table)
      requires d in v.tables && kernel in v.tables && i < |v.tables[d]| == |v.tables[kernel]| == 1024 && v.tables[d][i] == null
      requires t !in v.pages && view.pages.Keys == v.pages.Keys + {t} && view.pages[t] == EmptyPages()
      requires Grows(v.tables[kernel], v, view.(tables := v.tables, physical := v.physical))
      ensures TableMade(v, kernel, d, i, t, view.pages)
    {
      hide InWindow;
      assert Fills(v.pages, view.pages);
    }

    // Copies.

    /** The state follows an entry filled. */
    ghost method FollowFill(v: View, t: Table, i: nat, p: Page)
      requires frames.Valid() && frames.members == v.marks + {p.frame} && heapEnd == v.heapEnd && RamShape()
      requires t in v.pages && i < 1024 == |v.pages[t]| && v.pages[t][i].frame == 0 && p.frame == v.given
      requires PagesHold(v.pages[t := v.pages[t][i := p]]) && DirectoriesHold(v.tables, v.physical)
      requires current in v.tables && Sound(v, kernel)
      modifies this`view
      ensures Valid() && view == Filled(v, t, i, p)
    {
      hide Bitset.Valid, Sound, PagesHold, DirectoriesHold, RamShape;
      view := Filled(v, t, i, p);
      FilledValid(v, t, i, p);
    }

    /** A fresh frame for an empty entry, and the flags of another. */
    method AllocLike(p: Page, t: Table, i: nat) returns (ok: bool)
      requires Valid() && t in view.pages && i < 1024 && |t.pages| == 1024 && t.pages[i] == EMPTY
      modifies this`view, t`pages, frames, frames.table
      ensures Valid() && |t.pages| == 1024
      ensures !ok ==> OutOfFrames() && view == old(view)
      ensures ok ==> var f := t.pages[i].frame;
                       && f != 0 && f < |ram| && f !in old(view).marks && |old(view).pages[t]| == 1024
                       && t.pages == old(t.pages)[i := p.(frame := f)] && view == Filled(old(view), t, i, t.pages[i])
    {
      hide Bitset.Valid, Sound, Owned, Fills, DirectoriesHold, RamShape;
      ValidParts();
      ghost var v := view;
      ok := AllocFrame(t, i, false, false);
      if !ok {
        return;
      }
      t.pages := t.pages[i := t.pages[i].(present := p.present, rw := p.rw, user := p.user, accessed := p.accessed,
                                          dirty := p.dirty)];
      NextIsLeast(v, kernel, t.pages[i].frame);
      FollowFill(v, t, i, t.pages[i]);
    }

    /** One entry of a table copied to an empty one, and its page with it. */
    method CopyEntry(src: Table, t: Table, i: nat) returns (ok: bool)
      requires Valid() && src in view.pages && t in view.pages && i < 1024 && |src.pages| == |t.pages| == 1024
      requires t.pages[i] == EMPTY && src.pages[i].frame != 0 && src != t
      modifies this`view, t`pages, frames, frames.table, `ram
      ensures Valid() && |t.pages| == 1024 && view.pages.Keys == old(view).pages.Keys && view.used == old(view).used
      ensures !ok ==> OutOfFrames() && view == old(view) && ram == old(ram)
      ensures ok ==>
                && t.pages[i].frame !in old(view).marks && |old(view).pages[t]| == 1024
                && view == Filled(old(view), t, i, t.pages[i])
                && CopiedEntry(t.pages[i], src.pages[i], old(view).marks, old(ram), ram)
                && RamKept(old(view).marks, old(ram), ram)
    {
      hide Bitset.Valid, Sound, Owned, Fills, Synced, OutOfFrames;
      ValidParts();
      ValidPages(src);
      ValidPages(t);
      FrameMarked(view, src, i);
      frames.Range(src.pages[i].frame);
      ok := AllocLike(src.pages[i], t, i);
      if ok {
        CopyPagePhysical(0x1000 * src.pages[i].frame, 0x1000 * t.pages[i].frame);
      }
    }

    /** One turn of the loop that copies a table. */
    method CopyNext(src: Table, t: Table, i: nat, ghost v0: View, ghost ram0: seq<seq<int>>) returns (ok: bool)
      requires Valid() && Sound(v0, kernel) && i < 1024 && Copying(kernel.tables, v0, ram0, view, ram, src, t, i)
      modifies this`view, t`pages, frames, frames.table, `ram
      ensures Valid() && view.pages.Keys == old(view).pages.Keys && view.used == old(view).used
      ensures !ok ==> OutOfFrames() && view == old(view) && ram == old(ram)
      ensures ok ==> Copying(kernel.tables, v0, ram0, view, ram, src, t, i + 1)
    {
      hide Valid, Sound, Owned, Fills, CopiedEntry, RamKept, Copying, Filled, Basic, WindowMapped, OutOfFrames;
      CopyingParts(kernel.tables, v0, ram0, view, ram, src, t, i);
      ValidPages(src);
      ValidPages(t);
      if src.pages[i].frame == 0 {
        CopyingSkips(kernel.tables, v0, ram0, view, ram, src, t, i);
        return true;
      }
      SoundOwned(v0, kernel);
      ValidSound();
      SoundOwned(view, kernel);
      ghost var v, ram1 := view, ram;
      ok := CopyEntry(src, t, i);
      if ok {
        CopyingFills(kernel.tables, v0, ram0, v, ram1, ram, src, t, i, t.pages[i]);
      }
    }

    /** The loop that copies a table. */
    method CopyAll(src: Table, t: Table, ghost v0: View, ghost ram0: seq<seq<int>>) returns (ok: bool)
      requires Valid() && Sound(v0, kernel) && Copying(kernel.tables, v0, ram0, view, ram, src, t, 0)
      modifies this`view, t`pages, frames, frames.table, `ram
      ensures Valid() && view.pages.Keys == old(view).pages.Keys && view.used == old(view).used && Grows(kernel.tables, v0, view)
      ensures ok ==> Copying(kernel.tables, v0, ram0, view, ram, src, t, 1024)
      ensures !ok ==> OutOfFrames()
    {
      hide Valid, Sound, Copying, Grows, OutOfFrames;
      for i := 0 to 1024
        invariant view.pages.Keys == old(view).pages.Keys && view.used == old(view).used
        invariant Valid() && Copying(kernel.tables, v0, ram0, view, ram, src, t, i)
      {
        ok := CopyNext(src, t, i, v0, ram0);
        if !ok {
          CopyingGrows(kernel.tables, v0, ram0, view, ram, src, t, i);
          return;
        }
      }
      CopyingGrows(kernel.tables, v0, ram0, view, ram, src, t, 1024);
      ok := true;
    }

    /** A table of its own with a copy of every page that another has. */
    method CloneTable(src: Table, g: Grant) returns (t: Table?)
      requires Valid() && Granted(g, 0x1000, heapEnd, view.used) && src in view.pages
      requires |kernel.tables| == 1024 && !InWindow(kernel.tables, src)
      modifies this`view, this`heapEnd, `ram, view.pages.Keys, frames, frames.table
      ensures Valid() && Grows(kernel.tables, old(view), view)
      ensures t == null ==> OutOfFrames()
      ensures t != null ==>
                && fresh(t) && view.pages.Keys == old(view).pages.Keys + {t}
                && Copying(kernel.tables, old(view), old(ram), view, ram, src, t, 1024)
                && view.used == old(view).used + PagesOf(g.address, 0x1000) && heapEnd == Max(g.top, old(heapEnd))
    {
      hide Valid, Sound, Owned, Fills, Copying, Grows, EmptyPages, InWindow, PagesOf, Max, OutOfFrames;
      ghost var v, ram0 := view, ram;
      ValidSound();
      t := NewTable(g);
      if t == null {
        return;
      }
      ValidPages(t);
      NotWindow(kernel.tables, v, view, src);
      CopyingStarts(kernel.tables, v, view, ram, src, t);
      var ok := CopyAll(src, t, v, ram0);
      if !ok {
        return null;
      }
    }

    /** A table of a directory's own copied, and put in its place in the copy. */
    method CloneOwn(d: Directory, e: Directory, i: nat, g: Grant, ghost v0: View, ghost ram0: seq<seq<int>>) returns (ok: bool)
      requires Valid() && Sound(v0, kernel) && d in view.tables && e !in view.tables && i < 1024
      requires Cloning(kernel, v0, ram0, view, ram, d, e.tables, i) && Mirrors(e.tables, e.physical)
      requires |d.tables| == |kernel.tables| == 1024 && d.tables[i] != null && d.tables[i] != kernel.tables[i]
      requires Granted(g, 0x1000, heapEnd, view.used)
      modifies this`view, this`heapEnd, `ram, view.pages.Keys, frames, frames.table, e`tables, e`physical
      ensures Valid()
      ensures !ok ==> OutOfFrames()
      ensures ok ==>
                && Cloning(kernel, v0, ram0, view, ram, d, e.tables, i + 1) && Mirrors(e.tables, e.physical)
                && |e.tables| == |e.physical| == 1024 && e.tables[i] != null && e.physical[i] == e.tables[i].phys + 0x7
                && fresh(view.pages.Keys - old(view).pages.Keys) && heapEnd == Max(g.top, old(heapEnd))
                && Fills(old(view).pages, view.pages) && view.tables == old(view).tables
                && view.used == old(view).used + PagesOf(g.address, 0x1000)
    {
      hide Valid, Sound, Owned, Fills, Copying, Cloning, Grows, EmptyPages, InWindow, PagesOf, OutOfFrames, Max, Granted, Mirrors,
        EntryFor;
      CloningParts(kernel, v0, ram0, view, ram, d, e.tables, i);
      ghost var v, ram1 := view, ram;
      ValidSound();
      PlacesFilled(v, kernel, d, i);
      var t := CloneTable(d.tables[i], g);
      if t == null {
        return false;
      }
      GrowsParts(kernel.tables, v, view);
      CloningCopies(kernel, v0, ram0, v, ram1, view, ram, d, e.tables, i, t);
      MirrorsMore(e.tables, e.physical, i, t);
      EntryIs(t);
      e.tables, e.physical := e.tables[i := t], e.physical[i := EntryFor(t)];
      ok := true;
    }

    /** One turn of the loop that copies a directory. */
    method CloneSlot(d: Directory, e: Directory, i: nat, grants: map<nat, Grant>, ghost v0: View, ghost ram0: seq<seq<int>>)
      returns (ok: bool)
      requires Valid() && Sound(v0, kernel) && d in view.tables && e !in view.tables && i < 1024
      requires Cloning(kernel, v0, ram0, view, ram, d, e.tables, i) && Mirrors(e.tables, e.physical)
      requires i in grants ==> Granted(grants[i], 0x1000, heapEnd, view.used)
      modifies this`view, this`heapEnd, `ram, view.pages.Keys, frames, frames.table, e`tables, e`physical
      ensures Valid()
      ensures !ok ==> Private(v0.tables, kernel, d, i) && (OutOfFrames() || i !in grants)
      ensures ok ==>
                && Cloning(kernel, v0, ram0, view, ram, d, e.tables, i + 1) && Mirrors(e.tables, e.physical)
                && fresh(view.pages.Keys - old(view).pages.Keys)
                && (heapEnd == old(heapEnd) || (i in grants && heapEnd == Max(grants[i].top, old(heapEnd))))
                && (i in grants && Private(v0.tables, kernel, d, i) ==> grants[i].top <= heapEnd)
                && Fills(old(view).pages, view.pages) && view.tables == old(view).tables && old(view).used <= view.used
                && view.used <= old(view).used + if i in grants then PagesOf(grants[i].address, 0x1000) else {}
    {
      hide Valid, Sound, Owned, Fills, Copying, Cloning, Grows, EmptyPages, InWindow, PagesOf, OutOfFrames, Granted;
      CloningParts(kernel, v0, ram0, view, ram, d, e.tables, i);
      ValidSound();
      PlacesFilled(view, kernel, d, i);
      if d.tables[i] == null {
        CloningShares(kernel, v0, ram0, view, ram, d, e.tables, i);
        assert e.tables == e.tables[i := null];
        return true;
      }
      if kernel.tables[i] == d.tables[i] {
        CloningShares(kernel, v0, ram0, view, ram, d, e.tables, i);
        e.tables, e.physical := e.tables[i := d.tables[i]], e.physical[i := d.physical[i]];
        return true;
      }
      if i !in grants {
        return false;
      }
      ok := CloneOwn(d, e, i, grants[i], v0, ram0);
    }

    /** Memory that is in use now. */
    ghost method Use(pages: set<nat>, v: View)
      requires Valid() && Grows(kernel.tables, v, view)
      modifies this`view
      ensures Valid() && Grows(kernel.tables, v, view) && view == old(view).(used := old(view).used + pages)
    {
      hide Bitset.Valid, Sound, Grows;
      UsedMore(kernel.tables, v, view, kernel, view.used + pages);
      view := view.(used := view.used + pages);
    }

    /** A copied directory joins the others. */
    ghost method FollowClone(d: Directory, e: Directory, v0: View, ram0: seq<seq<int>>)
      requires Valid() && Sound(v0, kernel) && e !in view.tables
      requires Cloning(kernel, v0, ram0, view, ram, d, e.tables, 1024) && Mirrors(e.tables, e.physical)
      requires Settled(view, kernel, e)
      modifies this`view
      ensures Valid() && e in view.tables && view.tables[e] == e.tables && view.pages == old(view).pages
      ensures view.used == old(view).used
      ensures kernel in v0.tables && |v0.tables[kernel]| == 1024 && d in v0.tables && |v0.tables[d]| == 1024 == |e.tables|
      ensures Cloned(kernel, v0, ram0, view, ram, d, e)
    {
      hide Bitset.Valid, Sound, Cloning, Mirrors, PagesHold, Cloned, Settled;
      CloningDone(kernel, v0, ram0, view, ram, d, e, e.tables, e.physical);
      view := WithDirectory(view, e, e.tables, e.physical);
    }

    /** Memory of a directory's size that nothing else uses is a place of its own for one. */
    lemma Settles(v0: View, g: Grant, e: Directory)
      requires Sound(v0, kernel) && Valid() && view.tables == v0.tables && e.address == g.address
      requires Granted(g, 8196, v0.heapEnd, v0.used) && view.used == v0.used + PagesOf(g.address, 8196)
      requires |kernel.tables| == 1024 && g.address + 8196 <= heapEnd
      ensures Settled(view, kernel, e)
    {
      hide Bitset.Valid, Shared, Linked, Owned, Apart, FrameAt, InOrder, Home;
      ValidParts();
      var second := g.address + 0x1000;
      assert second % 0x1000 == 0;
      assert second in PagesOf(g.address, 8196);
      assert FrameAt(kernel.tables, view.pages, second) != 0;
      SoundParts(v0, kernel);
      forall d | d in view.tables ensures d.address != e.address {
        assert Housed(v0.tables[kernel], v0.pages, v0.used, d);
      }
    }

    /** An empty directory on the heap. The hardware finds its entries in the second of its pages, and is
        told where that is exactly when the two pages get two frames in a row. */
    method NewDirectory(g: Grant) returns (e: Directory?)
      requires Valid() && Granted(g, 8196, heapEnd, view.used)
      modifies this`view, this`heapEnd, view.pages.Keys, frames, frames.table
      ensures Valid() && Grows(kernel.tables, old(view), view) && view.pages.Keys == old(view).pages.Keys
      ensures e == null ==> OutOfFrames()
      ensures |kernel.tables| == 1024 && Full(old(view).pages)
      ensures e != null <==> old(view).given + Bare(kernel.tables, old(view), old(heapEnd), g.top) <= |ram|
      ensures e != null ==>
                && fresh(e) && e.address == g.address && e.tables == NoTables() && e.physical == NoEntries() && Settled(view, kernel, e)
                && view.used == old(view).used + PagesOf(g.address, 8196) && heapEnd == Max(g.top, old(heapEnd))
                && |kernel.tables| == 1024 && Full(view.pages)
                && e.physicalAddress == 0x1000 * FrameAt(kernel.tables, view.pages, g.address) + 0x1000
                && (e.physicalAddress == 0x1000 * FrameAt(kernel.tables, view.pages, g.address + 0x1000)
                    <==> InARow(old(kernel.tables), old(view), g.address))
    {
      hide Valid, Basic, Sound, Fills, Grows, FrameAt, PagesOf, OutOfFrames, InARow, Stretched, Settled;
      ghost var v0 := view;
      ValidParts();
      ValidSound();
      var phys := Kalloc(8196, g);
      if phys == None {
        return null;
      }
      RowOfTwo(v0, kernel, view, g.address, heapEnd);
      ValidParts();
      GrowsParts(kernel.tables, v0, view);
      Use(PagesOf(g.address, 8196), v0);
      e := new Directory(g.address);
      e.physicalAddress := phys.value + 0x1000;
      Settles(v0, g, e);
    }

    /** The loop that copies a directory's tables. */
    method CloneSlots(d: Directory, e: Directory, grants: map<nat, Grant>, ghost v0: View, ghost ram0: seq<seq<int>>)
      returns (ok: bool)
      requires Valid() && Sound(v0, kernel) && view.tables == v0.tables && d in view.tables && e !in view.tables
      requires Cloning(kernel, v0, ram0, view, ram, d, e.tables, 0) && Mirrors(e.tables, e.physical)
      requires AllGranted(grants, 0, heapEnd, view.used)
      modifies this`view, this`heapEnd, `ram, view.pages.Keys, frames, frames.table, e`tables, e`physical
      ensures Valid()
      ensures !ok ==> exists i: nat :: Private(v0.tables, kernel, d, i) && (OutOfFrames() || i !in grants)
      ensures ok ==>
                && view.tables == v0.tables && Cloning(kernel, v0, ram0, view, ram, d, e.tables, 1024)
                && Mirrors(e.tables, e.physical) && Fills(old(view).pages, view.pages) && old(view).used <= view.used
                && UsedWithin(grants, old(view).used, old(heapEnd), view.used, heapEnd)
                && TopsReached(grants, v0.tables, kernel, d, 1024, heapEnd)
    {
      hide Valid, Sound, Fills, Cloning, Mirrors, AllGranted, OutOfFrames, Private, UsedWithin, Granted, PagesOf, TopsReached;
      ghost var v1, end1 := view, heapEnd;
      NoneUsed(grants, v1.used, end1);
      NoneReached(grants, v0.tables, kernel, d, heapEnd);
      ValidFills();
      for i := 0 to 1024
        invariant Valid() && view.tables == v0.tables && e !in view.tables
        invariant Cloning(kernel, v0, ram0, view, ram, d, e.tables, i) && Mirrors(e.tables, e.physical)
        invariant AllGranted(grants, i, heapEnd, view.used)
        invariant fresh(view.pages.Keys - v1.pages.Keys) && Fills(v1.pages, view.pages) && v1.used <= view.used
        invariant UsedWithin(grants, v1.used, end1, view.used, heapEnd)
        invariant TopsReached(grants, v0.tables, kernel, d, i, heapEnd)
      {
        ghost var v2, end2 := view, heapEnd;
        GrantsStand(grants, i, end2, v2.used, end2);
        ok := CloneSlot(d, e, i, grants, v0, ram0);
        if !ok {
          return;
        }
        GrantsLeft(grants, i, end2, v2.used, heapEnd, view.used);
        OneMoreUsed(grants, v1.used, end1, v2.used, end2, i, view.used, heapEnd);
        OneMoreReached(grants, v0.tables, kernel, d, i, end2, heapEnd);
        FillsTwice(v1.pages, v2.pages, view.pages);
      }
      ok := true;
    }

    /** A copy of a directory; null only where the frames give out, or a table to be copied gets no memory. */
    method Clone(d: Directory, g: Grant, grants: map<nat, Grant>) returns (e: Directory?)
      requires Valid() && d in view.tables && Granted(g, 8196, heapEnd, view.used)
      requires AllGranted(grants, 0, heapEnd, view.used + PagesOf(g.address, 8196))
      modifies this`view, this`heapEnd, `ram, view.pages.Keys, frames, frames.table
      ensures Valid()
      ensures |kernel.tables| == 1024 && Full(old(view).pages)
      ensures e == null ==>
                || (OutOfFrames() && old(view).given + Bare(kernel.tables, old(view), old(heapEnd), g.top) > |old(ram)|)
                || exists i: nat :: Private(old(view).tables, kernel, d, i) && (OutOfFrames() || i !in grants)
      ensures e != null ==>
                && fresh(e) && e.address == g.address
                && e in view.tables && view.tables[e] == e.tables && |e.tables| == |kernel.tables| == 1024
                && d in old(view).tables && kernel in old(view).tables
                && |old(view).tables[d]| == |old(view).tables[kernel]| == 1024
                && Cloned(kernel, old(view), old(ram), view, ram, d, e)
                && Full(view.pages)
                && UsedWithin(grants, old(view).used + PagesOf(g.address, 8196), Max(g.top, old(heapEnd)), view.used, heapEnd)
                && TopsReached(grants, old(view).tables, kernel, d, 1024, heapEnd)
                && (e.physicalAddress == 0x1000 * FrameAt(kernel.tables, view.pages, g.address + 0x1000)
                    <==> InARow(old(kernel.tables), old(view), g.address))
    {
      hide Valid, Basic, Sound, Fills, Grows, Cloning, Cloned, Mirrors, FrameAt, Granted, AllGranted, PagesOf, RamKept,
           OutOfFrames, InARow, Settled, Private, UsedWithin, TopsReached;
      ghost var v0, ram0, end0 := view, ram, heapEnd;
      ValidSound();
      PlacesFilled(v0, kernel, d, 0);
      e := NewDirectory(g);
      if e == null {
        return;
      }
      ghost var v1 := view;
      GrowsParts(kernel.tables, v0, v1);
      CloningStarts(kernel, v0, v1, ram, d);
      GrantsStand(grants, 0, end0, v1.used, heapEnd);
      var ok := CloneSlots(d, e, grants, v0, ram0);
      if !ok {
        return null;
      }
      StillSettled(v1, view, kernel, e);
      SettledFrame(v1, e);
      FillingKeeps(kernel.tables, v1.pages, view.pages, heapEnd, view.used, {});
      FollowClone(d, e, v0, ram0);
      ValidFills();
    }

    lemma SettledFrame(v: View, d: Directory)
      requires Settled(v, kernel, d) && v.tables[kernel] == kernel.tables
      ensures |kernel.tables| == 1024 && Full(v.pages) && FrameAt(kernel.tables, v.pages, d.address + 0x1000) != 0
    {
      hide FrameAt;
    }

    /** The directory in force from now on. */
    method SetCurrent(d: Directory)
      requires Valid() && d in view.tables
      modifies `current
      ensures Valid() && current == d
    {
      hide Bitset.Valid, Sound;
      current := d;
    }

    lemma InForce()
      requires Valid()
      ensures Sound(view, kernel) && Full(view.pages) && Fills(view.pages, view.pages)
      ensures current in view.tables && view.tables[current] == current.tables
      ensures kernel in view.tables && |view.tables[kernel]| == 1024
    {
      hide Bitset.Valid, Sound;
      ValidSound();
      ValidFills();
      ValidParts();
    }

    /** What that does to the values. */
    lemma PageMapped(v: View, d: Directory, pages1: PageMap, t: Table, a: nat, tables': seq<Table?>, pages': PageMap)
      requires Sound(v, kernel) && d in v.tables && kernel in v.tables && |v.tables[d]| == |v.tables[kernel]| == 1024
      requires a < 0x1_0000_0000 && TableOf(a) < 1024 && Full(v.pages) && TableMade(v, kernel, d, TableOf(a), t, pages1)
      requires Fills(v.pages, pages1) && Fills(pages1, pages') && t in pages1 && t in pages'
      requires |tables'| == 1024 && tables'[TableOf(a)] == t && tables' == v.tables[d][TableOf(a) := tables'[TableOf(a)]]
      requires |pages1[t]| == |pages'[t]| == 1024 && pages' == pages1[t := pages1[t][SlotOf(a) := pages'[t][SlotOf(a)]]]
      requires EntryMade(pages1[t][SlotOf(a)], pages'[t][SlotOf(a)]) && pages'[t][SlotOf(a)].frame != 0
      ensures Full(pages') && MapsStill(v.tables[d], v.pages, tables', pages') && FrameAt(tables', pages', a) != 0
      ensures Opened(v.tables[d], v.pages, tables', pages', a / 0x1000 * 0x1000, a / 0x1000 * 0x1000 + 0x1000)
    {
      assert forall i :: 0 <= i < 1024 && v.tables[d][i] != null ==> tables'[i] == v.tables[d][i];
      hide Sound, TableMade, EntryMade, Opened, TableOf, SlotOf;
      FillsTwice(v.pages, pages1, pages');
      StillMapped(v.tables[d], tables', v.pages, pages');
      OneOpened(v, kernel, d, pages1, t, a, pages'[t][SlotOf(a)]);
      FrameOfEntry(tables', pages', a);
    }

    /** A frame for one page of the directory in force. */
    method MapPage(address: nat, g: Grant) returns (ok: bool)
      requires Valid() && address < 0x1_0000_0000 && |current.tables| == 1024
      requires TableOf(address) < 1024 && current.tables[TableOf(address)] == null ==> Granted(g, 0x1000, heapEnd, view.used)
      modifies this`view, this`heapEnd, view.pages.Keys, frames, frames.table, current`tables, current`physical
      ensures Valid()
      ensures !ok ==> OutOfFrames()
      ensures ok ==>
                && |current.tables| == 1024 && Full(view.pages) && Full(old(view.pages))
                && TableOf(address) < 1024 && FrameAt(current.tables, view.pages, address) != 0
                && MapsStill(old(current.tables), old(view.pages), current.tables, view.pages)
                && fresh(view.pages.Keys - old(view.pages.Keys)) && old(heapEnd) <= heapEnd
                && (if old(current.tables)[TableOf(address)] != null
                    then current.tables == old(current.tables) && view.used == old(view.used)
                    else && current.tables == old(current.tables)[TableOf(address) := current.tables[TableOf(address)]]
                         && current.tables[TableOf(address)] != null
                         && view.used == old(view.used) + PagesOf(g.address, 0x1000))
                && Opened(old(current.tables), old(view.pages), current.tables, view.pages,
                          address / 0x1000 * 0x1000, address / 0x1000 * 0x1000 + 0x1000)
    {
      hide Valid, Sound, Fills, FrameAt, TableOf, SlotOf, Granted, PagesOf, OutOfFrames, Opened, TableMade, EntryMade, Grows,
        EmptyPages, MapsStill, Mirrors;
      InForce();
      ghost var v := view;
      var t := GetPage(current, address, true, g);
      ok := t != null;
      if ok {
        ghost var v1 := view;
        ok := MapEntry(t, SlotOf(address));
        if !ok {
          return;
        }
        PageMapped(v, current, v1.pages, t, address, current.tables, view.pages);
      }
    }

    /** Frames for every page that a range touches, the one after its end too when it ends on a boundary.
        It stops only where the frames give out, or a table that is not there gets no memory. */
    method AllocateRange(address: nat, size: nat, grants: map<nat, Grant>) returns (ok: bool)
      requires Valid() && |current.tables| == 1024 && address + size < 0xFFFF_F000
      requires GrantedWhereMissing(grants, current.tables, heapEnd, view.used)
      modifies this`view, this`heapEnd, view.pages.Keys, frames, frames.table, current`tables, current`physical
      ensures Valid()
      ensures !ok ==> OutOfFrames() || exists j :: TableOf(address) <= j <= TableOf(address + size)
                                                    && Ungranted(old(current.tables), grants, j)
      ensures ok ==>
                && |current.tables| == 1024 && Full(view.pages) && Full(old(view.pages))
                && MapsStill(old(current.tables), old(view.pages), current.tables, view.pages)
                && forall a: nat :: address / 0x1000 * 0x1000 <= a < (address + size) / 0x1000 * 0x1000 + 0x1000 ==>
                                      FrameAt(current.tables, view.pages, a) != 0
      ensures ok ==> Opened(old(current.tables), old(view.pages), current.tables, view.pages,
                            address / 0x1000 * 0x1000, (address + size) / 0x1000 * 0x1000 + 0x1000)
    {
      hide Opened;
      hide Valid, TableOf, SlotOf, FrameAt, PagesOf, Granted, GrantedWhereMissing, MapsStill, OutOfFrames, Ungranted;
      var start, end := address / 0x1000 * 0x1000, (address + size) / 0x1000 * 0x1000;
      var i := start;
      ValidFills();
      StillMapped(current.tables, current.tables, view.pages, view.pages);
      NoneOpened(current.tables, view.pages, start);
      while i <= end
        invariant i % 0x1000 == 0 && start <= i <= end + 0x1000
        invariant Valid() && |current.tables| == 1024 && Full(view.pages) && Full(old(view.pages))
        invariant GrantedWhereMissing(grants, current.tables, heapEnd, view.used)
        invariant MapsStill(old(current.tables), old(view.pages), current.tables, view.pages)
        invariant forall j: nat :: Ungranted(current.tables, grants, j) ==> Ungranted(old(current.tables), grants, j)
        invariant AllMapped(current.tables, view.pages, start, i)
        invariant Opened(old(current.tables), old(view.pages), current.tables, view.pages, start, i)
        invariant fresh(view.pages.Keys - old(view.pages.Keys))
      {
        ghost var v, tables, end0 := view, current.tables, heapEnd;
        ok := MapRangePage(i, grants);
        if !ok {
          TablesBetween(address, i, address + size);
          return;
        }
        StillTwice(old(current.tables), old(view.pages), tables, v.pages, current.tables, view.pages);
        MoreMapped(tables, v.pages, current.tables, view.pages, start, i);
        OpenedTwice(old(current.tables), old(view.pages), tables, v.pages, current.tables, view.pages, start, i, i + PAGE_SIZE);
        i := i + PAGE_SIZE;
      }
      ok := true;
    }

    lemma TablesBetween(address: nat, i: nat, end: nat)
      requires address / 0x1000 * 0x1000 <= i <= end / 0x1000 * 0x1000
      ensures TableOf(address) <= TableOf(i) <= TableOf(end)
    {
      assert address / 0x1000 <= i / 0x1000 <= end / 0x1000;
    }

    /** One turn of the loop above. */
    method MapRangePage(i: nat, grants: map<nat, Grant>) returns (ok: bool)
      requires Valid() && |current.tables| == 1024 && i < 0x1_0000_0000
      requires GrantedWhereMissing(grants, current.tables, heapEnd, view.used)
      modifies this`view, this`heapEnd, view.pages.Keys, frames, frames.table, current`tables, current`physical
      ensures Valid()
      ensures !ok ==> OutOfFrames() || Ungranted(old(current.tables), grants, TableOf(i))
      ensures ok ==>
                && |current.tables| == 1024 && Full(view.pages) && Full(old(view.pages))
                && FrameAt(current.tables, view.pages, i) != 0
                && MapsStill(old(current.tables), old(view.pages), current.tables, view.pages)
                && Opened(old(current.tables), old(view.pages), current.tables, view.pages,
                          i / 0x1000 * 0x1000, i / 0x1000 * 0x1000 + 0x1000)
                && fresh(view.pages.Keys - old(view.pages.Keys))
                && GrantedWhereMissing(grants, current.tables, heapEnd, view.used)
                && forall j: nat :: Ungranted(current.tables, grants, j) ==> Ungranted(old(current.tables), grants, j)
    {
      hide Valid, TableOf, SlotOf, FrameAt, PagesOf, Granted, MapsStill, OutOfFrames, Opened;
      TableInRange(i);
      var j := TableOf(i);
      if current.tables[j] == null && j !in grants {
        return false;
      }
      ghost var tables, end, used := current.tables, heapEnd, view.used;
      ok := MapPage(i, if j in grants then grants[j] else Grant(0, 0));
      if ok {
        forall l | l in grants && l < 1024 && current.tables[l] == null
          ensures Granted(grants[l], 0x1000, heapEnd, view.used)
        {
          StillGranted(grants[l], end, heapEnd, used, view.used - used);
          assert used + (view.used - used) == view.used;
        }
      }
    }

    lemma SamePages(pages: PageMap, t: Table, i: nat)
      requires t in pages && i < |pages[t]|
      ensures pages == pages[t := pages[t][i := pages[t][i]]]
    {
      assert pages[t] == pages[t][i := pages[t][i]];
    }

    /** A frame for an entry, unless it has one. */
    method MapEntry(t: Table, i: nat) returns (ok: bool)
      requires Valid() && t in view.pages && i < 1024
      modifies this`view, t`pages, frames, frames.table
      ensures Valid() && Fills(old(view.pages), view.pages) && view.pages.Keys == old(view.pages.Keys) && view.tables == old(view.tables)
      ensures view.used == old(view.used) && |old(view).pages[t]| == |view.pages[t]| == 1024
      ensures !ok ==> OutOfFrames() && view == old(view)
      ensures ok ==> view.pages == old(view).pages[t := old(view).pages[t][i := view.pages[t][i]]]
      ensures ok ==> view.pages[t][i].frame != 0 && EntryMade(old(view).pages[t][i], view.pages[t][i])
    {
      hide Bitset.Valid, Sound, Owned, Fills;
      ValidParts();
      ghost var v := view;
      ok := AllocFrame(t, i, false, true);
      if v.pages[t][i].frame != 0 {
        SamePages(v.pages, t, i);
      } else if ok {
        NextIsLeast(v, kernel, view.pages[t][i].frame);
        FilledValid(v, t, i, view.pages[t][i]);
      }
    }
  }
}
