/** Starting up: the first tables, the identity mapping, and the heap windows. */
module Boot {
  import opened Bitsets
  import opened PageTables
  import opened AddressSpaces
  import opened FrameOrder
  import opened Paging

  // The pages of each region: the first k of all, the first n of the kernel heap's window, the first m of the user's.

  const KWINDOW := 0xC_0000
  const UWINDOW := 0xD_0000

  /** What the entry for a page is when frames went in order to the first k pages, then to the kernel
      heap's window, then to the user heap's. */
  function EntryOf(page: nat, k: nat, n: nat, m: nat): Page {
    if page < k then Page(true, false, true, false, false, page)
    else if KWINDOW <= page < KWINDOW + n then Page(true, false, true, false, false, k + page - KWINDOW)
    else if UWINDOW <= page < UWINDOW + m then Page(true, true, true, false, false, k + n + page - UWINDOW)
    else EMPTY
  }

  predicate Fits(k: nat, n: nat, m: nat) {
    k <= KWINDOW && n <= UWINDOW - KWINDOW && m <= 0x1_0000
  }

  /** The page that an entry of a table is for. */
  function PageIn(j: nat, s: nat): nat { 1024 * j + s }

  /** Pages that are mapped have a table. */
  ghost predicate Covered(tables: seq<Table?>, k: nat, n: nat, m: nat) {
    && |tables| == 1024
    && (forall j :: 0 <= j < 1024 && 1024 * j < k ==> tables[j] != null)
    && (0 < n || 0 < m ==> forall j :: HeapTable(j) ==> tables[j] != null)
  }

  ghost predicate Laid(tables: seq<Table?>, pages: PageMap, k: nat, n: nat, m: nat)
    requires |tables| == 1024 && Full(pages)
  {
    forall j, s :: 0 <= j < 1024 && 0 <= s < 1024 && tables[j] != null && tables[j] in pages ==>
                     pages[tables[j]][s] == EntryOf(PageIn(j, s), k, n, m)
  }

  /** The tables of the one directory are all there are, each in one place, and one after another in
      memory that the bump allocator has handed out, at addresses that are the physical ones. */
  ghost predicate Stacked(tables: seq<Table?>, pages: PageMap, base: nat) {
    && |tables| == 1024
    && (forall j :: 0 <= j < 1024 && tables[j] != null ==> tables[j] in pages)
    && (forall i, j :: 0 <= i < j < 1024 && tables[i] != null ==> tables[i] != tables[j])
    && (forall t :: t in pages ==> t.phys % 0x1000 == 0 && t.address == t.phys && 0x1000 <= t.phys && t.phys + 0x1000 <= base)
    && (forall t, u :: t in pages && u in pages && t.phys == u.phys ==> t == u)
  }

  ghost predicate Booted(v: View, kernel: Directory, base: nat, k: nat, n: nat, m: nat) {
    && v.tables.Keys == v.physical.Keys == {kernel} && Mirrors(v.tables[kernel], v.physical[kernel])
    && Owned(v.pages, v.owner, v.marks) && (forall f: nat :: f in v.marks <==> f < k + n + m)
    && v.given == k + n + m && NoneLost(v.pages, v.owner, v.given) && Fits(k, n, m) && Covered(v.tables[kernel], k, n, m)
    && Stacked(v.tables[kernel], v.pages, base) && Laid(v.tables[kernel], v.pages, k, n, m)
    && v.used == {} && v.heapEnd == KHEAP_START + KHEAP_INITIAL_SIZE
    && kernel.address % 0x1000 == 0 && kernel.address + 8196 <= base
    && (forall t :: t in v.pages ==> kernel.address + 8196 <= t.address)
  }

  /** The kernel's tables are in memory of their own: behind the directory, and no two in one place. */
  ghost predicate TablesApart(kernel: Directory, base: nat)
    reads kernel`tables
  {
    && (forall t: Table {:trigger t in kernel.tables} :: t in kernel.tables ==>
          kernel.address + 8196 <= t.address && t.address + 0x1000 <= base && t.phys == t.address)
    && (forall t: Table, u: Table {:trigger t in kernel.tables, u in kernel.tables} ::
          t in kernel.tables && u in kernel.tables && t != u ==> t.address + 0x1000 <= u.address || u.address + 0x1000 <= t.address)
  }

  lemma BootedApart(v: View, kernel: Directory, base: nat, k: nat, n: nat, m: nat)
    requires Booted(v, kernel, base, k, n, m) && kernel.tables == v.tables[kernel]
    ensures TablesApart(kernel, base)
  {
    hide Owned, Mirrors, Covered, Laid, NoneLost;
  }

  /** One page more in one of the regions. */
  predicate OneMore(page: nat, k: nat, n: nat, m: nat, k': nat, n': nat, m': nat) {
    || (n == m == 0 && k < KWINDOW && page == k && (k', n', m') == (k + 1, n, m))
    || (m == 0 && n < UWINDOW - KWINDOW && page == KWINDOW + n && (k', n', m') == (k, n + 1, m))
    || (m < 0x1_0000 && page == UWINDOW + m && (k', n', m') == (k, n, m + 1))
  }

  lemma EntryNext(page: nat, k: nat, n: nat, m: nat, k': nat, n': nat, m': nat)
    requires Fits(k, n, m) && OneMore(page, k, n, m, k', n', m')
    ensures EntryOf(page, k, n, m) == EMPTY && EntryOf(page, k', n', m').frame == k + n + m
    ensures EntryOf(page, k', n', m') == Page(true, page >= UWINDOW, true, false, false, k + n + m)
    ensures forall q: nat :: q < 0x10_0000 && q != page ==> EntryOf(q, k', n', m') == EntryOf(q, k, n, m)
    ensures Fits(k', n', m') && page < 0x10_0000 && k' + n' + m' == k + n + m + 1
  {
  }

  lemma BootFilled(v: View, kernel: Directory, base: nat, k: nat, n: nat, m: nat, page: nat, k': nat, n': nat, m': nat)
    requires Booted(v, kernel, base, k, n, m) && OneMore(page, k, n, m, k', n', m') && page / 1024 < 1024
    requires v.tables[kernel][page / 1024] != null
    requires 0 < n' || 0 < m' ==> forall j :: HeapTable(j) ==> v.tables[kernel][j] != null
    ensures var t, p := v.tables[kernel][page / 1024], EntryOf(page, k', n', m');
      && t in v.pages && |v.pages[t]| == 1024 && v.pages[t][page % 1024] == EMPTY && p.frame == k + n + m && p.frame !in v.marks
      && Booted(Filled(v, t, page % 1024, p), kernel, base, k', n', m')
  {
    var t, p := v.tables[kernel][page / 1024], EntryOf(page, k', n', m');
    EntryNext(page, k, n, m, k', n', m');
    OwnedFull(v);
    hide Owned, Mirrors, EntryOf, OneMore, NoneLost;
    assert v.pages[t][page % 1024] == EntryOf(PageIn(page / 1024, page % 1024), k, n, m);
    FilledOwned(v, t, page % 1024, p);
    FilledHeld(v, t, page % 1024, p);
    OwnedFull(Filled(v, t, page % 1024, p));
    LaidNext(v.tables[kernel], v.pages, page, k, n, m, k', n', m');
    hide Laid, Full;
    assert Covered(v.tables[kernel], k', n', m') by { CoveredNext(v.tables[kernel], page, k, n, m, k', n', m'); }
  }

  lemma CoveredNext(tables: seq<Table?>, page: nat, k: nat, n: nat, m: nat, k': nat, n': nat, m': nat)
    requires Covered(tables, k, n, m) && OneMore(page, k, n, m, k', n', m') && page / 1024 < 1024 && tables[page / 1024] != null
    requires 0 < n' || 0 < m' ==> forall j :: HeapTable(j) ==> tables[j] != null
    ensures Covered(tables, k', n', m')
  {
  }

  lemma LaidNext(tables: seq<Table?>, pages: PageMap, page: nat, k: nat, n: nat, m: nat, k': nat, n': nat, m': nat)
    requires |tables| == 1024 && Full(pages) && Laid(tables, pages, k, n, m) && page < 0x10_0000
    requires tables[page / 1024] != null && tables[page / 1024] in pages
    requires forall i, j :: 0 <= i < j < 1024 && tables[i] != null ==> tables[i] != tables[j]
    requires forall q: nat :: q < 0x10_0000 && q != page ==> EntryOf(q, k', n', m') == EntryOf(q, k, n, m)
    ensures var pages' := pages[tables[page / 1024] := pages[tables[page / 1024]][page % 1024 := EntryOf(page, k', n', m')]];
      Full(pages') && Laid(tables, pages', k', n', m')
  {
    hide EntryOf;
    var t := tables[page / 1024];
    var pages' := pages[t := pages[t][page % 1024 := EntryOf(page, k', n', m')]];
    forall j, s | 0 <= j < 1024 && 0 <= s < 1024 && tables[j] != null && tables[j] in pages
      ensures pages'[tables[j]][s] == EntryOf(PageIn(j, s), k', n', m')
    {
      if PageIn(j, s) == page {
        assert j == page / 1024 && s == page % 1024;
      } else {
        assert j != page / 1024 || s != page % 1024;
        assert EntryOf(PageIn(j, s), k', n', m') == EntryOf(PageIn(j, s), k, n, m);
      }
    }
  }

  lemma EmptyElsewhere(j: nat, tables: seq<Table?>, k: nat, n: nat, m: nat)
    requires Covered(tables, k, n, m) && Fits(k, n, m) && j < 1024 && tables[j] == null
    ensures forall s: nat :: s < 1024 ==> EntryOf(PageIn(j, s), k, n, m) == EMPTY
  {
    assert k <= 1024 * j;
    assert (n == 0 && m == 0) || !HeapTable(j);
  }

  /** A new table, where there was none. */
  lemma BootAttached(v: View, kernel: Directory, base: nat, base': nat, k: nat, n: nat, m: nat, j: nat, t: Table)
    requires Booted(v, kernel, base, k, n, m) && j < 1024 && v.tables[kernel][j] == null && t !in v.pages
    requires t.address == t.phys && t.phys % 0x1000 == 0 && base <= t.phys && 0x1000 <= base && t.phys + 0x1000 <= base'
    ensures kernel in WithTable(v, t).tables && kernel in WithTable(v, t).physical
    ensures j < |WithTable(v, t).tables[kernel]| && j < |WithTable(v, t).physical[kernel]|
    ensures Booted(Attached(WithTable(v, t), kernel, j, t), kernel, base', k, n, m)
  {
    hide EntryFor;
    var tables := v.tables[kernel];
    EmptyTableOwned(v, t);
    EmptyTableHeld(v, t);
    OwnedFull(v);
    OwnedFull(WithTable(v, t));
    hide Owned, NoneLost;
    var v' := Attached(WithTable(v, t), kernel, j, t);
    var tables' := v'.tables[kernel];
    assert Mirrors(tables', v'.physical[kernel]);
    assert t !in tables;
    assert Stacked(tables', v'.pages, base');
    EmptyElsewhere(j, tables, k, n, m);
    hide EntryOf;
    assert Laid(tables', v'.pages, k, n, m);
  }

  // What the finished layout means.

  /** The entry a boot-time directory has for an address. */
  lemma EntryAt(v: View, kernel: Directory, base: nat, k: nat, n: nat, m: nat, a: nat)
    requires Booted(v, kernel, base, k, n, m) && a < 0x1_0000_0000
    ensures TableOf(a) < 1024 && |v.tables[kernel]| == 1024 && Full(v.pages)
    ensures v.tables[kernel][TableOf(a)] != null ==> Lookup(v, kernel, a) == {EntryOf(a / 0x1000, k, n, m)}
    ensures FrameAt(v.tables[kernel], v.pages, a) == EntryOf(a / 0x1000, k, n, m).frame
  {
    OwnedFull(v);
    assert a / 0x1000 < 0x10_0000;
    assert PageIn(TableOf(a), SlotOf(a)) == a / 0x1000;
    var t := v.tables[kernel][TableOf(a)];
    if t == null {
      EmptyElsewhere(TableOf(a), v.tables[kernel], k, n, m);
    } else {
      assert v.pages[t][SlotOf(a)] == EntryOf(PageIn(TableOf(a), SlotOf(a)), k, n, m);
    }
  }

  lemma EntryOnAt(v: View, kernel: Directory, base: nat, k: nat, n: nat, m: nat, a: nat)
    requires Booted(v, kernel, base, k, n, m) && a < 0x1_0000_0000
    ensures |v.tables[kernel]| == 1024 && Full(v.pages)
    ensures EntryOn(v.tables[kernel], v.pages, a) == EntryOf(a / 0x1000, k, n, m)
  {
    EntryAt(v, kernel, base, k, n, m, a);
    AddressBits(a);
    hide TableOf, SlotOf, EntryOf, PageIn;
    if v.tables[kernel][TableOf(a)] == null {
      NoTableHere(v, kernel, base, k, n, m, a);
    } else {
      assert v.tables[kernel][TableOf(a)] in v.pages;
      assert v.pages[v.tables[kernel][TableOf(a)]][SlotOf(a)] in Lookup(v, kernel, a);
    }
  }

  lemma NoTableHere(v: View, kernel: Directory, base: nat, k: nat, n: nat, m: nat, a: nat)
    requires Booted(v, kernel, base, k, n, m) && a < 0x1_0000_0000
    requires TableOf(a) < 1024 && v.tables[kernel][TableOf(a)] == null
    ensures EntryOf(a / 0x1000, k, n, m) == EMPTY
  {
    assert PageIn(TableOf(a), SlotOf(a)) == a / 0x1000;
    EmptyElsewhere(TableOf(a), v.tables[kernel], k, n, m);
  }

  /** Everything below the end of the identity mapping is mapped, present, to itself, and the windows
      have the frames that follow, in order. */
  lemma IdentityMapped(v: View, kernel: Directory, base: nat, k: nat, n: nat, m: nat, a: nat)
    requires Booted(v, kernel, base, k, n, m) && a < 0x1_0000_0000
    ensures a < 0x1000 * k ==> exists p :: Lookup(v, kernel, a) == {p} && p.present && 0x1000 * p.frame + a % 0x1000 == a
    ensures KHEAP_START <= a < KHEAP_START + 0x1000 * n ==>
              FrameAt(v.tables[kernel], v.pages, a) == k + (a - KHEAP_START) / 0x1000
    ensures UHEAP_START <= a < UHEAP_START + 0x1000 * m ==>
              FrameAt(v.tables[kernel], v.pages, a) == k + n + (a - UHEAP_START) / 0x1000
  {
    EntryAt(v, kernel, base, k, n, m, a);
    if a < 0x1000 * k {
      assert 1024 * TableOf(a) < k;
      var p := EntryOf(a / 0x1000, k, n, m);
      assert Lookup(v, kernel, a) == {p} && p.present && 0x1000 * p.frame + a % 0x1000 == a;
    }
  }

  lemma WindowReady(v: View, kernel: Directory, base: nat, k: nat, m: nat)
    requires Booted(v, kernel, base, k, 0x100, m) && 0 < k
    ensures |v.tables[kernel]| == 1024 && Full(v.pages) && WindowMapped(v.tables[kernel], v.pages, v.heapEnd)
  {
    OwnedFull(v);
    hide FrameAt, Booted;
    forall a: nat | KHEAP_START <= a < KHEAP_START + KHEAP_INITIAL_SIZE ensures FrameAt(v.tables[kernel], v.pages, a) != 0 {
      IdentityMapped(v, kernel, base, k, 0x100, m, a);
    }
  }

  lemma BootedOwned(v: View, kernel: Directory, base: nat, k: nat, n: nat, m: nat)
    requires Booted(v, kernel, base, k, n, m)
    ensures Owned(v.pages, v.owner, v.marks) && v.tables.Keys == v.physical.Keys == {kernel}
    ensures |v.tables[kernel]| == |v.physical[kernel]| == 1024
  {
  }

  lemma KernelHoused(v: View, kernel: Directory, base: nat, k: nat, n: nat, m: nat)
    requires Booted(v, kernel, base, k, n, m) && base + 0x1000 <= 0x1000 * k
    ensures |v.tables[kernel]| == 1024 && Full(v.pages) && Housed(v.tables[kernel], v.pages, v.used, kernel)
  {
    EntryAt(v, kernel, base, k, n, m, kernel.address + 0x1000);
    hide FrameAt, Owned, Mirrors, Covered, Stacked, Laid;
  }

  lemma TableHome(v: View, kernel: Directory, base: nat, k: nat, n: nat, m: nat, t: Table)
    requires Booted(v, kernel, base, k, n, m) && base + 0x1000 <= 0x1000 * k && t in v.pages
    ensures |v.tables[kernel]| == 1024 && Full(v.pages) && Home(v.tables[kernel], v.pages, v.used, t)
  {
    assert 0x1000 <= t.phys && t.phys + 0x1000 <= base;
    EntryAt(v, kernel, base, k, n, m, t.address);
    hide FrameAt, Owned, Mirrors, Covered, Laid;
  }

  lemma HomesReady(v: View, kernel: Directory, base: nat, k: nat, n: nat, m: nat)
    requires Booted(v, kernel, base, k, n, m) && base + 0x1000 <= 0x1000 * k
    ensures |v.tables[kernel]| == 1024 && Full(v.pages) && Homes(v.tables[kernel], v.pages, v.used, v.tables.Keys)
  {
    hide Booted, Home, Housed, Full, Owned;
    KernelHoused(v, kernel, base, k, n, m);
    BootedOwned(v, kernel, base, k, n, m);
    forall t | t in v.pages ensures Home(v.tables[kernel], v.pages, v.used, t) {
      TableHome(v, kernel, base, k, n, m, t);
    }
  }

  /** Start-up ends in the state that everything after it keeps. */
  lemma BootSound(v: View, kernel: Directory, base: nat, k: nat, m: nat)
    requires Booted(v, kernel, base, k, 0x100, m) && base + 0x1000 <= 0x1000 * k
    ensures Sound(v, kernel)
  {
    WindowReady(v, kernel, base, k, m);
    HomesReady(v, kernel, base, k, 0x100, m);
    hide WindowMapped, Homes, Owned, Laid, NoneLost;
    var tables := v.tables[kernel];
    assert OnePlace(tables, tables, tables, true);
  }

  // The steps of start-up.

  /** How many places of a directory are empty. */
  ghost function Missing(tables: seq<Table?>): (n: nat)
    ensures n <= |tables|
  {
    if tables == [] then 0
    else Missing(tables[..|tables| - 1]) + if tables[|tables| - 1] == null then 1 else 0
  }

  lemma {:induction false} OneFewer(tables: seq<Table?>, j: nat, t: Table)
    requires j < |tables| && tables[j] == null
    ensures Missing(tables[j := t]) + 1 == Missing(tables)
  {
    var last := |tables| - 1;
    if j == last {
      assert tables[j := t][..last] == tables[..last];
    } else {
      assert tables[j := t][..last] == tables[..last][j := t];
      OneFewer(tables[..last], j, t);
    }
  }

  /** Where the bump allocator can get to: two pages for each table still to be made. */
  ghost function Reach(base: nat, tables: seq<Table?>): nat {
    base + 0x2000 * Missing(tables)
  }

  ghost predicate Bounded(base: nat, tables: seq<Table?>) {
    0x1000 <= base && Reach(base, tables) < 0xBFFF_0000
  }

  /** There are no tables but those of the windows and of the first k pages. */
  ghost predicate LowOnly(tables: seq<Table?>, k: nat) {
    |tables| == 1024 && forall j :: 0 <= j < 1024 && tables[j] != null ==> HeapTable(j) || 1024 * j < k
  }

  /** How many of the places from c to n are no window's. */
  function Outside(c: nat, n: nat): int {
    if n <= c then 0 else if n <= 768 then n - c else if n <= 896 then 768 - c else n - c - 128
  }

  lemma {:induction false} MissingAtLeast(tables: seq<Table?>, c: nat)
    requires c <= 768 && forall j :: c <= j < |tables| && !HeapTable(j) ==> tables[j] == null
    ensures Outside(c, |tables|) <= Missing(tables)
  {
    if tables != [] {
      var last := |tables| - 1;
      MissingAtLeast(tables[..last], c);
    }
  }

  lemma BaseBound(base: nat, tables: seq<Table?>, k: nat)
    requires LowOnly(tables, k) && k <= KWINDOW
    ensures base + 0x2000 * (896 - (k + 1023) / 1024) <= Reach(base, tables)
  {
    MissingAtLeast(tables, (k + 1023) / 1024);
  }

  /** So many frames are enough when the allocator can get so far: for the pages up to where it stops,
      with two pages for each table that they need and for each of the windows', and for the initial windows. */
  predicate Enough(reach: int, frames: int) {
    var n := frames - 0x500;
    0 <= n && 0x1000 * n - 0x2000 * (n / 1024) >= reach - 0x2000 * 896 + 0x6000
  }

  lemma FurtherNeedsMore(reach: int, reach': int, frames: int)
    requires reach <= reach' && Enough(reach', frames)
    ensures Enough(reach, frames)
  {
  }

  lemma TooFew(base: nat, tables: seq<Table?>, k: nat, reach: nat, frames: nat)
    requires LowOnly(tables, k) && k <= KWINDOW && Reach(base, tables) <= reach
    requires 0x1000 * k < base + 0x2000 && frames <= k + 0x500
    ensures !Enough(reach, frames)
  {
    BaseBound(base, tables, k);
    var n := frames - 0x500;
    if 0 <= n {
      Slack(n, k);
    }
  }

  lemma Slack(n: nat, k: nat)
    requires n <= k
    ensures 0x1000 * n - 0x2000 * (n / 1024) <= 0x1000 * k - 0x2000 * ((k + 1023) / 1024) + 0x4000
  {
    var a := k - n;
    assert (k + 1023) / 1024 <= n / 1024 + (a + 2046) / 1024;
    assert 0x2000 * ((a + 2046) / 1024) <= 0x1000 * a + 0x4000;
  }

  ghost predicate Starting(m: Memory, k: nat, n: nat, u: nat)
    reads m, m.frames, m.frames.table, m.view.pages.Keys, m.view.tables.Keys, m.kernel
  {
    && m.Basic() && Booted(m.view, m.kernel, m.base, k, n, u) && m.kernel.tables == m.view.tables[m.kernel]
    && Bounded(m.base, m.kernel.tables) && m.current == m.kernel
  }

  lemma StartingParts(m: Memory, k: nat, n: nat, u: nat)
    requires Starting(m, k, n, u)
    ensures Booted(m.view, m.kernel, m.base, k, n, u) && m.current == m.kernel
    ensures m.Basic() && |m.kernel.tables| == 1024 && (forall f: nat :: f in m.view.marks <==> f < k + n + u) && Fits(k, n, u)
    ensures m.kernel in m.view.tables && m.kernel.tables == m.view.tables[m.kernel] && Bounded(m.base, m.kernel.tables)
    ensures forall j :: 0 <= j < 1024 && m.kernel.tables[j] != null ==> m.kernel.tables[j] in m.view.pages
  {
  }

  /** The state follows a table made for an empty place. */
  ghost method FollowTable(m: Memory, base: nat, tables: seq<Table?>, j: nat, t: Table, k: nat, n: nat, u: nat)
    requires m.frames.Valid() && m.frames.members == m.view.marks && m.heapEnd == m.view.heapEnd && m.RamShape()
    requires PagesHold(m.view.pages[t := EmptyPages()]) && t !in m.view.pages
    requires Booted(m.view, m.kernel, base, k, n, u) && m.view.tables[m.kernel] == tables && Bounded(base, tables)
    requires j < |tables| == 1024 && tables[j] == null && m.kernel.tables == tables[j := t]
    requires |m.view.physical[m.kernel]| == 1024 && m.kernel.physical == m.view.physical[m.kernel][j := EntryFor(t)]
    requires m.current == m.kernel
    requires t.address == t.phys && t.phys == PageAfter(base) && m.base == t.phys + 0x1000
    modifies m`view
    ensures Starting(m, k, n, u) && m.view.pages.Keys == old(m.view.pages.Keys) + {t}
  {
    hide Bitset.Valid, Booted, PagesHold, Missing, EntryFor, EmptyPages;
    BootAttached(m.view, m.kernel, base, m.base, k, n, u, j, t);
    OneFewer(tables, j, t);
    BootedOwned(Attached(WithTable(m.view, t), m.kernel, j, t), m.kernel, m.base, k, n, u);
    m.view := Attached(WithTable(m.view, t), m.kernel, j, t);
  }

  /** Puts a table in its place. */
  method PutTable(m: Memory, ghost base: nat, j: nat, t: Table, ghost k: nat, ghost n: nat, ghost u: nat)
    requires m.Basic() && Booted(m.view, m.kernel, base, k, n, u) && m.kernel.tables == m.view.tables[m.kernel]
    requires Bounded(base, m.kernel.tables) && m.current == m.kernel
    requires j < |m.kernel.tables| == 1024 && m.kernel.tables[j] == null && t !in m.view.pages
    requires t.pages == EmptyPages() && t.address == t.phys == PageAfter(base) && m.base == t.phys + 0x1000
    modifies m`view, m.kernel`tables, m.kernel`physical
    ensures Starting(m, k, n, u) && m.kernel.tables == old(m.kernel.tables)[j := t]
    ensures m.view.pages.Keys == old(m.view.pages.Keys) + {t}
  {
    hide Bitset.Valid, Booted, Missing, EntryFor, EmptyPages, Bounded, Owned;
    BootedOwned(m.view, m.kernel, base, k, n, u);
    ghost var tables := m.kernel.tables;
    m.kernel.tables, m.kernel.physical := m.kernel.tables[j := t], m.kernel.physical[j := EntryFor(t)];
    FollowTable(m, base, tables, j, t, k, n, u);
  }

  /** Memory from the bump allocator for a page-aligned request. */
  method BumpAligned(m: Memory, size: nat) returns (address: nat)
    modifies m`base
    ensures address == PageAfter(old(m.base)) && m.base == address + size
    ensures 0x1000 <= old(m.base) ==> old(m.base) < address <= old(m.base) + 0x1000 && address % 0x1000 == 0
  {
    if m.base / 0x1000 * 0x1000 != 0 {
      m.base := m.base / 0x1000 * 0x1000;
      m.base := m.base + 0x1000;
    }
    address := m.base;
    m.base := m.base + size;
  }

  lemma Aligned(base: nat)
    requires 0x1000 <= base
    ensures base < PageAfter(base) <= base + 0x1000 && PageAfter(base) % 0x1000 == 0
  {
  }

  /** The table for an address, made first if need be. */
  method BootPage(m: Memory, address: nat, ghost k: nat, ghost n: nat, ghost u: nat) returns (t: Table)
    requires Starting(m, k, n, u) && address < 0x1_0000_0000
    modifies m`view, m`base, m.kernel`tables, m.kernel`physical
    ensures Starting(m, k, n, u) && |m.kernel.tables| == 1024 && TableOf(address) < 1024 && t == m.kernel.tables[TableOf(address)]
    ensures forall j :: 0 <= j < 1024 && j < |old(m.kernel.tables)| && old(m.kernel.tables)[j] != null ==> m.kernel.tables[j] != null
    ensures TableOf(address) < |old(m.kernel.tables)| && old(m.kernel.tables)[TableOf(address)] != null ==>
              m.kernel.tables == old(m.kernel.tables) && m.base == old(m.base) && m.view == old(m.view)
    ensures || (m.kernel.tables == old(m.kernel.tables) && m.base == old(m.base) && m.view == old(m.view))
            || (Missing(m.kernel.tables) < Missing(old(m.kernel.tables)) && old(m.base) < m.base)
    ensures fresh(m.view.pages.Keys - old(m.view.pages.Keys))
    ensures Reach(m.base, m.kernel.tables) <= old(Reach(m.base, m.kernel.tables)) && |old(m.kernel.tables)| == 1024
    ensures forall j :: 0 <= j < 1024 && j != TableOf(address) ==> m.kernel.tables[j] == old(m.kernel.tables)[j]
  {
    hide Starting, Missing, TableOf, Booted;
    StartingParts(m, k, n, u);
    InTable(address);
    var i := TableOf(address);
    ghost var tables, base := m.kernel.tables, m.base;
    if m.kernel.tables[i] == null {
      Aligned(m.base);
      var tmp := BumpAligned(m, 0x1000);
      t := new Table(tmp, tmp);
      OneFewer(tables, i, t);
      PutTable(m, base, i, t, k, n, u);
    }
    t := m.kernel.tables[i];
  }

  lemma InTable(a: nat)
    requires a < 0x1_0000_0000
    ensures TableOf(a) < 1024
  {
    assert a / 0x1000 < 0x10_0000;
  }

  /** Every table that was there is there still, and so is one for every address in a range. */
  ghost predicate Present(tables: seq<Table?>, tables': seq<Table?>, start: nat, end: nat) {
    && |tables| == |tables'| == 1024
    && (forall j :: 0 <= j < 1024 && tables[j] != null ==> tables'[j] != null)
    && (forall j :: 0 <= j < 1024 && start <= 0x40_0000 * j < end ==> tables'[j] != null)
  }

  /** A page on a table's boundary is that table's first. */
  lemma PresentNext(tables: seq<Table?>, tables1: seq<Table?>, tables2: seq<Table?>, start: nat, i: nat)
    requires Present(tables, tables1, start, i) && |tables2| == 1024 && i % 0x1000 == 0
    requires forall j :: 0 <= j < 1024 && tables1[j] != null ==> tables2[j] != null
    requires TableOf(i) < 1024 && tables2[TableOf(i)] != null
    ensures Present(tables, tables2, start, i + 0x1000)
  {
    forall j: nat | i <= 0x40_0000 * j < i + 0x1000 ensures TableOf(i) == j {
      assert i == 0x40_0000 * j;
    }
  }

  lemma InHeaps(a: nat)
    requires KHEAP_START <= a < UHEAP_END
    ensures HeapTable(TableOf(a))
  {
  }

  /** All tables of a window, before any directory is copied. */
  method MakeTables(m: Memory, start: nat, end: nat)
    requires Starting(m, 0, 0, 0) && KHEAP_START <= start <= end <= UHEAP_END && start % 0x1000 == 0
    modifies m`view, m`base, m.kernel`tables, m.kernel`physical
    ensures Starting(m, 0, 0, 0) && Present(old(m.kernel.tables), m.kernel.tables, start, end)
    ensures fresh(m.view.pages.Keys - old(m.view.pages.Keys))
    ensures Reach(m.base, m.kernel.tables) <= old(Reach(m.base, m.kernel.tables))
    ensures LowOnly(old(m.kernel.tables), 0) ==> LowOnly(m.kernel.tables, 0)
  {
    hide Starting, Missing, TableOf, Booted;
    StartingParts(m, 0, 0, 0);
    var i := start;
    while i < end
      invariant start <= i < end + 0x1000 && i % 0x1000 == 0 && Starting(m, 0, 0, 0)
      invariant Present(old(m.kernel.tables), m.kernel.tables, start, i)
      invariant fresh(m.view.pages.Keys - old(m.view.pages.Keys))
      invariant Reach(m.base, m.kernel.tables) <= old(Reach(m.base, m.kernel.tables))
      invariant LowOnly(old(m.kernel.tables), 0) ==> LowOnly(m.kernel.tables, 0)
    {
      ghost var tables := m.kernel.tables;
      InHeaps(i);
      var t := BootPage(m, i, 0, 0, 0);
      PresentNext(old(m.kernel.tables), tables, m.kernel.tables, start, i);
      i := i + PAGE_SIZE;
    }
  }

  lemma PageIs(m: Memory, t: Table)
    requires m.Basic() && t in m.view.pages
    ensures t.pages == m.view.pages[t]
    ensures (forall f: nat :: f in m.view.marks ==> f < |m.ram|)
  {
    forall f: nat | f in m.view.marks ensures f < |m.ram| {
      m.frames.Range(f);
    }
  }

  /** A frame for the next page of one of the regions. */
  method BootMap(m: Memory, t: Table, page: nat, isWriteable: bool, ghost k: nat, ghost n: nat, ghost u: nat,
                 ghost k': nat, ghost n': nat, ghost u': nat) returns (ok: bool)
    requires Starting(m, k, n, u) && OneMore(page, k, n, u, k', n', u') && page / 1024 < 1024 == |m.kernel.tables|
    requires t == m.kernel.tables[page / 1024] && (isWriteable <==> page >= UWINDOW)
    requires 0 < n' || 0 < u' ==> forall j :: HeapTable(j) ==> m.kernel.tables[j] != null
    modifies m`view, m.view.pages.Keys, m.frames, m.frames.table
    ensures m.view.pages.Keys == old(m.view.pages.Keys)
    ensures !ok ==> m.OutOfFrames() && |m.ram| <= k + n + u
    ensures ok ==> Starting(m, k', n', u')
  {
    hide Bitset.Valid, Booted, Missing, Fills, OneMore, EntryOf, Memory.Basic, Memory.OutOfFrames;
    StartingParts(m, k, n, u);
    EntryNext(page, k, n, u, k', n', u');
    BootFilled(m.view, m.kernel, m.base, k, n, u, page, k', n', u');
    PageIs(m, t);
    ok := m.AllocFrame(t, page % 1024, false, isWriteable);
    if !ok {
      NoneLeft(m, k + n + u);
    }
  }

  lemma NoneLeft(m: Memory, given: nat)
    requires m.OutOfFrames() && forall f: nat :: f in m.view.marks <==> f < given
    ensures |m.ram| <= given
  {
    assert given !in m.view.marks;
  }

  ghost predicate WindowsMade(tables: seq<Table?>) {
    |tables| == 1024 && forall j :: HeapTable(j) ==> tables[j] != null
  }

  /** One turn of the loop below. */
  method MapNextIdentity(m: Memory, i: nat, ghost k: nat) returns (ok: bool)
    requires Starting(m, k, 0, 0) && WindowsMade(m.kernel.tables) && i == 0x1000 * k < m.base + 0x1000
    requires |m.kernel.tables| == 1024
    modifies m`view, m`base, m.kernel`tables, m.kernel`physical, m.view.pages.Keys, m.frames, m.frames.table
    ensures fresh(m.view.pages.Keys - old(m.view.pages.Keys))
    ensures !ok ==> m.OutOfFrames() && |m.ram| <= k
    ensures Reach(m.base, m.kernel.tables) <= old(Reach(m.base, m.kernel.tables))
    ensures LowOnly(old(m.kernel.tables), k) ==> LowOnly(m.kernel.tables, k + 1)
    ensures ok ==> Starting(m, k + 1, 0, 0) && WindowsMade(m.kernel.tables)
    ensures (m.base == old(m.base) && m.kernel.tables == old(m.kernel.tables))
            || (Missing(m.kernel.tables) < Missing(old(m.kernel.tables)) && old(m.base) < m.base)
  {
    hide Starting, Missing, Booted, TableOf, SlotOf, Memory.Basic, Memory.Synced, Memory.OutOfFrames;
    StartingParts(m, k, 0, 0);
    PageAt(k);
    var t := BootPage(m, i, k, 0, 0);
    StartingParts(m, k, 0, 0);
    ok := BootMap(m, t, i / 0x1000, false, k, 0, 0, k + 1, 0, 0);
  }

  lemma StartingSize(m: Memory, k: nat)
    requires Starting(m, k, 0, 0)
    ensures |m.kernel.tables| == 1024 && k <= KWINDOW
  {
  }

  /** The loop whose bound moves: a page may need a table, and a table takes memory that must be mapped too. */
  method MapIdentity(m: Memory) returns (ok: bool, ghost k: nat)
    requires Starting(m, 0, 0, 0) && WindowsMade(m.kernel.tables)
    modifies m`view, m`base, m.kernel`tables, m.kernel`physical, m.view.pages.Keys, m.frames, m.frames.table
    ensures fresh(m.view.pages.Keys - old(m.view.pages.Keys))
    ensures !ok ==> m.OutOfFrames()
    ensures Reach(m.base, m.kernel.tables) <= old(Reach(m.base, m.kernel.tables))
    ensures LowOnly(old(m.kernel.tables), 0) && !ok ==> !Enough(old(Reach(m.base, m.kernel.tables)), |m.ram|)
    ensures LowOnly(old(m.kernel.tables), 0) && ok ==> LowOnly(m.kernel.tables, k) && k <= KWINDOW
    ensures ok ==> Starting(m, k, 0, 0) && WindowsMade(m.kernel.tables) && m.base + 0x1000 <= 0x1000 * k < m.base + 0x2000
  {
    hide Starting, Missing, WindowsMade, Memory.OutOfFrames, Enough, LowOnly, Reach;
    ghost var low, reach := LowOnly(m.kernel.tables, 0), Reach(m.base, m.kernel.tables);
    k := 0;
    var i := 0;
    while i < m.base + PAGE_SIZE
      invariant i == 0x1000 * k < m.base + 0x2000 && Starting(m, k, 0, 0) && WindowsMade(m.kernel.tables)
      invariant fresh(m.view.pages.Keys - old(m.view.pages.Keys))
      invariant Reach(m.base, m.kernel.tables) <= reach && (low ==> LowOnly(m.kernel.tables, k))
      decreases Missing(m.kernel.tables), m.base + 0x1000 - i
    {
      ghost var base, tables := m.base, m.kernel.tables;
      StartingSize(m, k);
      ok := MapNextIdentity(m, i, k);
      if !ok {
        if low {
          TooFew(base, tables, k, reach, |m.ram|);
        }
        return;
      }
      k := k + 1;
      i := i + PAGE_SIZE;
    }
    StartingSize(m, k);
    ok := true;
  }

  lemma PageAt(page: nat)
    ensures 0x1000 * page / 0x1000 == page && TableOf(0x1000 * page) == page / 1024 && SlotOf(0x1000 * page) == page % 1024
  {
  }

  /** The first pages of a window, whose tables are there already. */
  method MapWindow(m: Memory, isUser: bool, ghost k: nat) returns (ok: bool)
    requires Starting(m, k, if isUser then 0x100 else 0, 0) && WindowsMade(m.kernel.tables)
    modifies m`view, m`base, m.kernel`tables, m.kernel`physical, m.view.pages.Keys, m.frames, m.frames.table
    ensures fresh(m.view.pages.Keys - old(m.view.pages.Keys)) && m.base == old(m.base) && m.kernel.tables == old(m.kernel.tables)
    ensures !ok ==> m.OutOfFrames() && |m.ram| <= k + 0x500
    ensures ok ==> Starting(m, k, 0x100, if isUser then 0x400 else 0) && WindowsMade(m.kernel.tables)
  {
    hide Starting, Missing, Booted, TableOf, SlotOf, Memory.Basic, Memory.Synced, Memory.OutOfFrames;
    var start := if isUser then UHEAP_START else KHEAP_START;
    var end := start + if isUser then UHEAP_INITIAL_SIZE else KHEAP_INITIAL_SIZE;
    ghost var c := 0;
    var i := start;
    while i < end
      invariant start <= i <= end && i == start + 0x1000 * c && m.base == old(m.base) && m.kernel.tables == old(m.kernel.tables)
      invariant Starting(m, k, if isUser then 0x100 else c, if isUser then c else 0) && WindowsMade(m.kernel.tables)
      invariant fresh(m.view.pages.Keys - old(m.view.pages.Keys))
    {
      ok := MapNextWindow(m, i, isUser, k, c);
      if !ok {
        return;
      }
      c := c + 1;
      i := i + PAGE_SIZE;
    }
    ok := true;
  }

  /** One turn of the loop above. */
  method MapNextWindow(m: Memory, i: nat, isUser: bool, ghost k: nat, ghost c: nat) returns (ok: bool)
    requires Starting(m, k, if isUser then 0x100 else c, if isUser then c else 0) && WindowsMade(m.kernel.tables)
    requires c < if isUser then 0x400 else 0x100
    requires i == (if isUser then UHEAP_START else KHEAP_START) + 0x1000 * c
    modifies m`view, m`base, m.kernel`tables, m.kernel`physical, m.view.pages.Keys, m.frames, m.frames.table
    ensures fresh(m.view.pages.Keys - old(m.view.pages.Keys)) && m.base == old(m.base) && m.kernel.tables == old(m.kernel.tables)
    ensures !ok ==> m.OutOfFrames() && |m.ram| <= k + 0x500
    ensures ok ==> Starting(m, k, if isUser then 0x100 else c + 1, if isUser then c + 1 else 0) && WindowsMade(m.kernel.tables)
  {
    hide Starting, Missing, Booted, TableOf, SlotOf, Memory.Basic, Memory.Synced, Memory.OutOfFrames;
    ghost var n, u := if isUser then 0x100 else c, if isUser then c else 0;
    StartingParts(m, k, n, u);
    ghost var page := (if isUser then UWINDOW else KWINDOW) + c;
    PageAt(page);
    InWindows(page);
    var t := BootPage(m, i, k, n, u);
    StartingParts(m, k, n, u);
    ok := BootMap(m, t, i / 0x1000, isUser, k, n, u, k, if isUser then n else n + 1, if isUser then u + 1 else u);
  }

  lemma InWindows(page: nat)
    requires KWINDOW <= page < 0xE_0000
    ensures HeapTable(page / 1024) && page / 1024 < 1024
  {
  }

  lemma ReadyToRun(m: Memory, k: nat)
    requires Starting(m, k, 0x100, 0x400) && m.base + 0x1000 <= 0x1000 * k
    ensures m.Valid() && m.heapEnd == KHEAP_START + KHEAP_INITIAL_SIZE && m.view.used == {}
    ensures Booted(m.view, m.kernel, m.base, k, 0x100, 0x400) && k + 0x500 <= |m.ram|
  {
    BootSound(m.view, m.kernel, m.base, k, 0x400);
    hide Sound;
    m.FramesCounted();
  }

  /** The frames that start-up gives out, in order: k pages mapped to themselves (page 0 has frame 0,
      which is also what no frame looks like), then the windows. */
  ghost predicate FramesInOrder(tables: seq<Table?>, pages: PageMap, k: nat)
    requires |tables| == 1024 && Full(pages)
  {
    && (forall a: nat :: 0x1000 <= a < 0x1000 * k ==> FrameAt(tables, pages, a) == a / 0x1000)
    && (forall a: nat :: KHEAP_START <= a < KHEAP_START + KHEAP_INITIAL_SIZE ==>
          FrameAt(tables, pages, a) == k + (a - KHEAP_START) / 0x1000)
    && (forall a: nat :: UHEAP_START <= a < UHEAP_START + UHEAP_INITIAL_SIZE ==>
          FrameAt(tables, pages, a) == k + 0x100 + (a - UHEAP_START) / 0x1000)
  }

  /** What may be done with them: only the user heap's window is writable. */
  ghost predicate RightsInOrder(tables: seq<Table?>, pages: PageMap, k: nat)
    requires |tables| == 1024 && Full(pages)
  {
    && (forall a: nat :: 0x1000 <= a < 0x1000 * k || KHEAP_START <= a < KHEAP_START + KHEAP_INITIAL_SIZE ==>
          var p := EntryOn(tables, pages, a); p.frame != 0 && p.present && !p.rw && p.user)
    && (forall a: nat :: UHEAP_START <= a < UHEAP_START + UHEAP_INITIAL_SIZE ==>
          var p := EntryOn(tables, pages, a); p.frame != 0 && p.present && p.rw && p.user)
  }

  lemma RightsLaid(v: View, kernel: Directory, base: nat, k: nat)
    requires Booted(v, kernel, base, k, 0x100, 0x400) && 0 < k
    ensures |v.tables[kernel]| == 1024 && Full(v.pages) && RightsInOrder(v.tables[kernel], v.pages, k)
  {
    EntryOnAt(v, kernel, base, k, 0x100, 0x400, 0);
    assert k <= KWINDOW;
    hide FrameAt, Booted, EntryOn;
    forall a: nat | a < UHEAP_START + UHEAP_INITIAL_SIZE
      ensures EntryOn(v.tables[kernel], v.pages, a) == EntryOf(a / 0x1000, k, 0x100, 0x400)
    {
      EntryOnAt(v, kernel, base, k, 0x100, 0x400, a);
    }
  }

  lemma RightsKept(tables: seq<Table?>, pages: PageMap, pages': PageMap, k: nat)
    requires |tables| == 1024 && Full(pages) && RightsInOrder(tables, pages, k) && Fills(pages, pages')
    ensures RightsInOrder(tables, pages', k)
  {
    forall a: nat | EntryOn(tables, pages, a).frame != 0 ensures EntryOn(tables, pages', a) == EntryOn(tables, pages, a) {
    }
    hide EntryOn, Fills;
  }

  lemma FramesLaid(v: View, kernel: Directory, base: nat, k: nat)
    requires Booted(v, kernel, base, k, 0x100, 0x400)
    ensures |v.tables[kernel]| == 1024 && Full(v.pages) && FramesInOrder(v.tables[kernel], v.pages, k)
  {
    EntryAt(v, kernel, base, k, 0x100, 0x400, 0);
    assert k <= KWINDOW;
    hide FrameAt, Booted;
    forall a: nat | a < UHEAP_START + UHEAP_INITIAL_SIZE
      ensures FrameAt(v.tables[kernel], v.pages, a) == EntryOf(a / 0x1000, k, 0x100, 0x400).frame
    {
      EntryAt(v, kernel, base, k, 0x100, 0x400, a);
    }
  }

  /** In the window as start-up leaves it, the page after a page has the frame after its frame. */
  lemma NextFrame(tables: seq<Table?>, pages: PageMap, k: nat, a: nat)
    requires |tables| == 1024 && Full(pages) && FramesInOrder(tables, pages, k)
    requires KHEAP_START <= a < a + 0x1000 < KHEAP_START + KHEAP_INITIAL_SIZE
    ensures FrameAt(tables, pages, a + 0x1000) == FrameAt(tables, pages, a) + 1
  {
    hide FrameAt;
  }

  lemma OrderKept(tables: seq<Table?>, pages: PageMap, pages': PageMap, k: nat)
    requires |tables| == 1024 && Full(pages) && FramesInOrder(tables, pages, k) && Fills(pages, pages') && 0 < k
    ensures FramesInOrder(tables, pages', k)
  {
    FillingKeeps(tables, pages, pages', 0, {}, {});
    hide FrameAt, Fills;
  }

  /** Straight after the mapping, two pages of the kernel heap's window get two frames in a row unless
      they lie over the end of its initial part: the user heap's window has had the frames after that. */
  lemma BootRow(v: View, kernel: Directory, base: nat, k: nat, a: nat)
    requires Booted(v, kernel, base, k, 0x100, 0x400) && 0 < k && a % 0x1000 == 0 && KHEAP_START <= a < KHEAP_END
    ensures |v.tables[kernel]| == 1024
    ensures InARow(v.tables[kernel], v, a) <==> a != KHEAP_START + KHEAP_INITIAL_SIZE - 0x1000
  {
    EntryAt(v, kernel, base, k, 0x100, 0x400, a);
    EntryAt(v, kernel, base, k, 0x100, 0x400, a + 0x1000);
    var page := a / 0x1000;
    assert a == 0x1000 * page && (a + 0x1000) / 0x1000 == page + 1;
    hide FrameAt, Booted;
  }

  /** All the mapping that start-up does: the tables of the windows, the identity mapping, and the first
      pages of the windows. It stops only where the frames give out, and not when there are enough. */
  method MapAll(m: Memory) returns (ok: bool, ghost k: nat)
    requires Starting(m, 0, 0, 0)
    modifies m`view, m`base, m.kernel`tables, m.kernel`physical, m.view.pages.Keys, m.frames, m.frames.table
    ensures fresh(m.view.pages.Keys - old(m.view.pages.Keys))
    ensures !ok ==> m.OutOfFrames()
    ensures LowOnly(old(m.kernel.tables), 0) && Enough(old(Reach(m.base, m.kernel.tables)), |m.ram|) ==> ok
    ensures ok ==>
              && m.Valid() && m.heapEnd == KHEAP_START + KHEAP_INITIAL_SIZE && m.view.used == {}
              && m.base + 0x1000 <= 0x1000 * k < m.base + 0x2000 && Booted(m.view, m.kernel, m.base, k, 0x100, 0x400)
              && k + 0x500 <= |m.ram|
  {
    hide Starting, Missing, Booted, Memory.Basic, Memory.Valid, Memory.Synced, Sound, Memory.OutOfFrames, Enough, LowOnly, Reach;
    ghost var low, reach := LowOnly(m.kernel.tables, 0), Reach(m.base, m.kernel.tables);
    MakeTables(m, KHEAP_START, KHEAP_END);
    MakeTables(m, UHEAP_START, UHEAP_END);
    ghost var reach1 := Reach(m.base, m.kernel.tables);
    ok, k := MapIdentity(m);
    if Enough(reach, |m.ram|) {
      FurtherNeedsMore(reach1, reach, |m.ram|);
    }
    if !ok {
      return;
    }
    ghost var base, tables := m.base, m.kernel.tables;
    ok := MapWindow(m, false, k);
    if ok {
      ok := MapWindow(m, true, k);
    }
    if !ok {
      if low {
        TooFew(base, tables, k, reach, |m.ram|);
      }
      return;
    }
    ReadyToRun(m, k);
  }

  /** cr3 is told where the entries of a directory are. */
  ghost predicate Findable(m: Memory, d: Directory)
    reads m`view, m.kernel`tables, d`physicalAddress
  {
    && |m.kernel.tables| == 1024 && Full(m.view.pages)
    && d.physicalAddress == 0x1000 * FrameAt(m.kernel.tables, m.view.pages, d.address + 0x1000)
  }

  lemma KernelFindable(m: Memory, k: nat)
    requires m.Valid() && Booted(m.view, m.kernel, m.base, k, 0x100, 0x400) && m.base + 0x1000 <= 0x1000 * k
    requires m.kernel.physicalAddress == m.kernel.address + 0x1000
    ensures Findable(m, m.kernel) && |m.kernel.tables| == 1024 && FrameAt(m.kernel.tables, m.view.pages, m.kernel.address + 0x1000) != 0
  {
    m.ValidParts();
    EntryAt(m.view, m.kernel, m.base, k, 0x100, 0x400, m.kernel.address + 0x1000);
    hide FrameAt, Memory.Valid, Memory.Basic;
  }

  lemma NoGrants(used: set<nat>, end: nat, used': set<nat>, end': nat)
    requires UsedWithin(map[], used, end, used', end')
    ensures used' <= used && end' == end
  {
    assert TopsBelow(map[], end);
  }

  /** A copy of the kernel's directory, in force from now on. Every table is the kernel's, so none is made. */
  method RunInCopy(m: Memory, g: Grant) returns (ok: bool)
    requires m.Valid() && Granted(g, 8196, m.heapEnd, m.view.used)
    modifies m`view, m`heapEnd, m`ram, m`current, m.view.pages.Keys, m.frames, m.frames.table
    ensures m.Valid()
    ensures !ok ==> m.OutOfFrames() && old(m.heapEnd) < g.top
    ensures ok ==>
              && m.current != m.kernel && fresh(m.current) && m.current.address == g.address
              && Full(m.view.pages) && Fills(old(m.view.pages), m.view.pages)
              && m.view.used <= old(m.view.used) + PagesOf(g.address, 8196) && m.heapEnd == Max(g.top, old(m.heapEnd))
              && (Findable(m, m.current) <==> InARow(old(m.kernel.tables), old(m.view), g.address))
  {
    hide Memory.Valid, Memory.Basic, Fills, PagesOf, Granted, Cloned, FrameAt, Grows, InARow, Memory.OutOfFrames, UsedWithin;
    m.ValidParts();
    ghost var v, ram := m.view, m.ram;
    m.FramesCounted();
    if g.top <= m.heapEnd {
      NoneBare(m.kernel.tables, v, g.top);
    }
    var e := m.Clone(m.kernel, g, map[]);
    ok := e != null;
    if ok {
      ClonedFills(m.kernel, v, ram, m.view, m.ram, m.kernel, e);
      NoGrants(v.used + PagesOf(g.address, 8196), Max(g.top, old(m.heapEnd)), m.view.used, m.heapEnd);
      m.SetCurrent(e);
    }
  }

  /** Start-up as a whole: after the mapping, a copy of the kernel's directory to run in. The hardware
      finds the kernel's directory, and the copy unless that lies over the end of the initial window. */
  method Initialize(m: Memory, g: Grant) returns (ok: bool, ghost k: nat)
    requires Starting(m, 0, 0, 0) && m.kernel.physicalAddress == m.kernel.address + 0x1000
    requires Granted(g, 8196, KHEAP_START + KHEAP_INITIAL_SIZE, {})
    modifies m, m.kernel`tables, m.kernel`physical, m.view.pages.Keys, m.frames, m.frames.table
    ensures !ok ==> m.OutOfFrames()
    ensures (LowOnly(old(m.kernel.tables), 0) && Enough(old(Reach(m.base, m.kernel.tables)), |old(m.ram)|)
             && g.top <= KHEAP_START + KHEAP_INITIAL_SIZE) ==> ok
    ensures ok ==>
              && m.Valid() && m.current != m.kernel && m.base + 0x1000 <= 0x1000 * k < m.base + 0x2000
              && |m.kernel.tables| == 1024 && Full(m.view.pages) && FramesInOrder(m.kernel.tables, m.view.pages, k)
              && RightsInOrder(m.kernel.tables, m.view.pages, k) && TablesApart(m.kernel, m.base)
              && m.current.address == g.address && Findable(m, m.kernel)
              && (Findable(m, m.current) <==> g.address != KHEAP_START + KHEAP_INITIAL_SIZE - 0x1000)
  {
    hide Enough, LowOnly, Reach, RightsInOrder, TablesApart;
    hide Starting, Missing, Booted, FramesInOrder, Memory.Valid, Memory.Basic, Fills, PagesOf, Grows, WindowMapped, FrameAt,
         InARow, Memory.OutOfFrames;
    ok, k := MapAll(m);
    if !ok {
      return;
    }
    FramesLaid(m.view, m.kernel, m.base, k);
    RightsLaid(m.view, m.kernel, m.base, k);
    m.ValidParts();
    BootedApart(m.view, m.kernel, m.base, k, 0x100, 0x400);
    BootRow(m.view, m.kernel, m.base, k, g.address);
    KernelFindable(m, k);
    ghost var pages := m.view.pages;
    ok := RunInCopy(m, g);
    if ok {
      OrderKept(m.kernel.tables, pages, m.view.pages, k);
      RightsKept(m.kernel.tables, pages, m.view.pages, k);
      FillingKeeps(m.kernel.tables, pages, m.view.pages, 0, {}, {});
    }
  }

  lemma EmptyStart(m: Memory)
    requires m.Basic() && m.current == m.kernel && 0x1000 <= m.base < 0xBF70_0000
    requires m.kernel.address % 0x1000 == 0 && m.kernel.address + 8196 == m.base
    requires m.view == View(map[], map[m.kernel := NoTables()], map[m.kernel := NoEntries()], map[], {}, 0,
                            KHEAP_START + KHEAP_INITIAL_SIZE, {})
    ensures Starting(m, 0, 0, 0)
  {
    var tables: seq<Table?> := m.view.tables[m.kernel];
    assert Mirrors(tables, m.view.physical[m.kernel]);
    assert Bounded(m.base, tables);
  }

  /** Where the bump allocator can get to after the frames' bitset and the directory, with every table to be made. */
  function FurthestReach(end: nat, frames: nat): nat {
    end + frames / 8 + 0x3010 + 0x2000 * 1024
  }

  predicate EnoughMemory(end: nat, frames: nat) {
    Enough(FurthestReach(end, frames), frames)
  }

  /** Sixteen megabytes are, for any image that ends in the first eight. */
  lemma SixteenMegabytes(end: nat)
    requires end <= 0x80_0000
    ensures EnoughMemory(end, 0x1000)
  {
  }

  /** From the memory size, in kilobytes, and the end of the kernel's image. */
  method Start(memEnd: nat, end: nat, contents: seq<seq<int>>, g: Grant) returns (m: Memory, ok: bool, ghost k: nat)
    requires memEnd < 0x40_0000 && 0x1000 <= end < 0xBF00_0000
    requires |contents| == 32 * (memEnd * 1024 / 0x1000 / 32) && forall f :: 0 <= f < |contents| ==> |contents[f]| == 1024
    requires Granted(g, 8196, KHEAP_START + KHEAP_INITIAL_SIZE, {})
    ensures fresh(m)
    ensures end + 8 + 4 * (|contents| / 32) <= m.kernel.address <= end + 8 + 4 * (|contents| / 32) + 0x1000  // behind the bitset
    ensures !ok ==> m.OutOfFrames()
    ensures EnoughMemory(end, |contents|) && g.top <= KHEAP_START + KHEAP_INITIAL_SIZE ==> ok
    ensures ok ==>
              && m.Valid() && m.current != m.kernel && m.base + 0x1000 <= 0x1000 * k < m.base + 0x2000
              && |m.kernel.tables| == 1024 && Full(m.view.pages) && FramesInOrder(m.kernel.tables, m.view.pages, k)
              && RightsInOrder(m.kernel.tables, m.view.pages, k) && TablesApart(m.kernel, m.base)
              && m.current.address == g.address && Findable(m, m.kernel)
              && (Findable(m, m.current) <==> g.address != KHEAP_START + KHEAP_INITIAL_SIZE - 0x1000)
  {
    hide Starting, FramesInOrder, RightsInOrder, TablesApart, Memory.Valid, Memory.Basic, Memory.OutOfFrames, Findable, Enough, Missing;
    m := new Memory(memEnd, end, contents);
    EmptyStart(m);
    if EnoughMemory(end, |contents|) {
      FurtherNeedsMore(Reach(m.base, m.kernel.tables), FurthestReach(end, |contents|), |m.ram|);
    }
    ok, k := Initialize(m, g);
  }
}
