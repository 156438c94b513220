/** Page tables and directories, the state they make up, and what one step does to it. */
module PageTables {

  const PAGE_SIZE := 0x1000
  const KHEAP_START := 0xC000_0000
  const KHEAP_INITIAL_SIZE := 0x10_0000
  const KHEAP_END := 0xCFFF_F000
  const UHEAP_START := 0xD000_0000
  const UHEAP_INITIAL_SIZE := 0x40_0000
  const UHEAP_END := 0xDFFF_F000
  const FLAGS := 7  // present, writable, user

  datatype Page = Page(present: bool, rw: bool, user: bool, accessed: bool, dirty: bool, frame: nat)

  const EMPTY := Page(false, false, false, false, false, 0)

  /** The table a 32-bit address selects, and the entry in it. */
  function TableOf(address: nat): nat { address / 0x1000 / 1024 }

  function SlotOf(address: nat): (s: nat)
    ensures s < 1024
  {
    address / 0x1000 % 1024
  }

  /** The tables that both heap windows use. */
  predicate HeapTable(i: int) { 768 <= i < 896 }

  function EmptyPages(): (ps: seq<Page>)
    ensures |ps| == 1024 && forall i :: 0 <= i < 1024 ==> ps[i] == Page(false, false, false, false, false, 0)
  {
    seq(1024, _ => EMPTY)
  }

  class Table {
    const address: nat  // where it is, as the kernel sees it
    const phys: nat     // and in physical memory
    var pages: seq<Page>

    constructor (address: nat, phys: nat)
      ensures this.address == address && this.phys == phys && pages == EmptyPages()
    {
      this.address := address;
      this.phys := phys;
      pages := EmptyPages();
    }
  }

  function NoTables(): (ts: seq<Table?>)
    ensures |ts| == 1024
  {
    seq(1024, _ => null)
  }

  function NoEntries(): (es: seq<int>)
    ensures |es| == 1024
  {
    seq(1024, _ => 0)
  }

  /** The hardware's directory entry for a table. */
  function EntryFor(t: Table): int { t.phys + FLAGS }

  /** `physical` is a page into it, and `physicalAddress`, which cr3 is loaded with, ought to say where
      that is; at first, the address that the kernel sees. */
  class Directory {
    const address: nat
    var tables: seq<Table?>
    var physical: seq<int>
    var physicalAddress: nat

    constructor (address: nat)
      ensures this.address == address && tables == NoTables() && physical == NoEntries()
      ensures physicalAddress == address + 0x1000
    {
      this.address := address;
      tables := NoTables();
      physical := NoEntries();
      physicalAddress := address + 0x1000;
    }
  }

  type PageMap = map<Table, seq<Page>>
  type Owners = map<nat, (Table, nat)>

  /** Everything the kernel keeps, as values: the contents of every table and directory, who has
      which frame, the frames marked used, how many have been given out, the end of the mapped heap
      window, and the window pages that hold a table or a directory. */
  datatype View = View(pages: PageMap, tables: map<Directory, seq<Table?>>, physical: map<Directory, seq<int>>,
                       owner: Owners, marks: set<nat>, given: nat, heapEnd: nat, used: set<nat>)

  ghost predicate PagesHold(pages: PageMap)
    reads pages.Keys
  {
    forall t :: t in pages ==> t.pages == pages[t]
  }

  ghost predicate DirectoriesHold(tables: map<Directory, seq<Table?>>, physical: map<Directory, seq<int>>)
    reads tables.Keys
  {
    && tables.Keys == physical.Keys
    && (forall d :: d in tables ==> d.tables == tables[d])
    && (forall d :: d in tables ==> d.physical == physical[d])
  }

  ghost predicate Full(pages: PageMap) {
    forall t :: t in pages ==> |pages[t]| == 1024
  }

  /** The hardware's entries are the physical pages of the software's tables, or both are empty. */
  ghost predicate Mirrors(tables: seq<Table?>, physical: seq<int>) {
    && |tables| == 1024 == |physical|
    && forall i :: 0 <= i < 1024 ==> physical[i] == if tables[i] == null then 0 else EntryFor(tables[i])
  }

  ghost predicate Linked(v: View) {
    && v.tables.Keys == v.physical.Keys
    && (forall d :: d in v.tables ==> Mirrors(v.tables[d], v.physical[d]))
    && (forall d, i :: d in v.tables && 0 <= i < |v.tables[d]| && v.tables[d][i] != null ==> v.tables[d][i] in v.pages)
  }

  /** No two tables in the same physical page. */
  ghost predicate Apart(pages: PageMap) {
    && (forall t :: t in pages ==> t.phys % 0x1000 == 0)
    && (forall t, u :: t in pages && u in pages && t.phys == u.phys ==> t == u)
  }

  /** Two places that hold the same table are one, in directories that are the same or share the kernel's. */
  ghost predicate OnePlace(tables: seq<Table?>, tables': seq<Table?>, kernels: seq<Table?>, same: bool)
    requires |tables| == |tables'| == |kernels| == 1024
  {
    forall i, j :: 0 <= i < 1024 && 0 <= j < 1024 && tables[i] != null && tables[i] == tables'[j] ==>
                     i == j && (same || tables[i] == kernels[i])
  }

  ghost predicate WindowOf(tables: seq<Table?>, kernels: seq<Table?>)
    requires |tables| == |kernels| == 1024
  {
    forall i :: HeapTable(i) ==> tables[i] != null && tables[i] == kernels[i]
  }

  /** A table has one place, only the kernel's tables are in more than one directory, and those of
      the heap windows are in every one. */
  ghost predicate Shared(tables: map<Directory, seq<Table?>>, kernel: Directory) {
    && kernel in tables && (forall d :: d in tables ==> |tables[d]| == 1024)
    && (forall d, e :: d in tables && e in tables ==> OnePlace(tables[d], tables[e], tables[kernel], d == e))
    && (forall d :: d in tables ==> WindowOf(tables[d], tables[kernel]))
  }

  ghost predicate Held(entries: seq<Page>, t: Table, i: int, owner: Owners, marks: set<nat>)
    requires 0 <= i < |entries|
  {
    var f := entries[i].frame;
    f != 0 ==> f in owner && owner[f] == (t, i) && f in marks
  }

  /** No frame in two entries, and every frame held is marked. */
  ghost predicate Owned(pages: PageMap, owner: Owners, marks: set<nat>) {
    Full(pages) && forall t, i :: t in pages && 0 <= i < 1024 ==> Held(pages[t], t, i, owner, marks)
  }

  /** The frame a directory has at an address, or 0. */
  ghost function FrameAt(tables: seq<Table?>, pages: PageMap, a: nat): nat
    requires |tables| == 1024 && Full(pages)
  {
    var t := if TableOf(a) < 1024 then tables[TableOf(a)] else null;
    if t != null && t in pages then pages[t][SlotOf(a)].frame else 0
  }

  /** The kernel heap's window is mapped up to its end. */
  ghost predicate WindowMapped(tables: seq<Table?>, pages: PageMap, end: nat)
    requires |tables| == 1024 && Full(pages)
  {
    && KHEAP_START <= end <= KHEAP_END && end % 0x1000 == 0
    && (forall a: nat :: KHEAP_START <= a < end ==> FrameAt(tables, pages, a) != 0)
  }

  ghost predicate Home(tables: seq<Table?>, pages: PageMap, used: set<nat>, t: Table)
    requires |tables| == 1024 && Full(pages)
  {
    && t.address % 0x1000 == 0 && FrameAt(tables, pages, t.address) != 0
    && t.phys == 0x1000 * FrameAt(tables, pages, t.address)
    && (KHEAP_START <= t.address ==> t.address in used)
  }

  /** The page of a directory that the hardware reads is mapped, and spoken for. */
  ghost predicate Housed(tables: seq<Table?>, pages: PageMap, used: set<nat>, d: Directory)
    requires |tables| == 1024 && Full(pages)
  {
    && d.address % 0x1000 == 0 && FrameAt(tables, pages, d.address + 0x1000) != 0
    && (KHEAP_START <= d.address + 0x1000 ==> d.address + 0x1000 in used)
  }

  /** Every table is where its physical address says, and every directory is somewhere of its own. */
  ghost predicate Homes(tables: seq<Table?>, pages: PageMap, used: set<nat>, directories: set<Directory>)
    requires |tables| == 1024 && Full(pages)
  {
    && (forall t {:trigger Home(tables, pages, used, t)} :: t in pages ==> Home(tables, pages, used, t))
    && (forall d {:trigger Housed(tables, pages, used, d)} :: d in directories ==> Housed(tables, pages, used, d))
    && (forall d, e :: d in directories && e in directories && d.address == e.address ==> d == e)
  }

  /** Frames are given out in order, and none is given back. */
  ghost predicate InOrder(marks: set<nat>, given: nat) {
    0 < given && forall f: nat :: f in marks <==> f < given
  }

  /** An entry has the frame, the one that owns it. */
  ghost predicate HeldBy(pages: PageMap, owner: Owners, f: nat) {
    f in owner && owner[f].0 in pages && owner[f].1 < |pages[owner[f].0]| && pages[owner[f].0][owner[f].1].frame == f
  }

  /** Every frame given out, except that of page 0, which is also what no frame looks like, is in an entry. */
  ghost predicate NoneLost(pages: PageMap, owner: Owners, given: nat) {
    forall f: nat :: 0 < f < given ==> HeldBy(pages, owner, f)
  }

  ghost predicate Sound(v: View, kernel: Directory) {
    && Shared(v.tables, kernel) && Linked(v) && Owned(v.pages, v.owner, v.marks) && InOrder(v.marks, v.given) && Apart(v.pages)
    && NoneLost(v.pages, v.owner, v.given)
    && WindowMapped(v.tables[kernel], v.pages, v.heapEnd) && Homes(v.tables[kernel], v.pages, v.used, v.tables.Keys)
  }

  lemma NextIsLeast(v: View, kernel: Directory, f: nat)
    requires Sound(v, kernel)
    ensures f !in v.marks && (forall g: nat :: g < f ==> g in v.marks) <==> f == v.given
  {
    hide Shared, Linked, Owned, Apart, WindowMapped, Homes;
  }

  /** Entries that had a frame are as they were. */
  ghost predicate Fills(pages: PageMap, pages': PageMap) {
    && Full(pages) && Full(pages')
    && forall t, i :: t in pages && 0 <= i < 1024 && pages[t][i].frame != 0 ==> t in pages' && pages'[t][i] == pages[t][i]
  }

  lemma FillsTwice(pages: PageMap, pages1: PageMap, pages2: PageMap)
    requires Fills(pages, pages1) && Fills(pages1, pages2)
    ensures Fills(pages, pages2)
  {
  }

  lemma StillHoused(tables: seq<Table?>, tables': seq<Table?>, pages: PageMap, pages': PageMap, used: set<nat>,
                    used': set<nat>, directories: set<Directory>)
    requires |tables| == |tables'| == 1024 && Full(pages) && Full(pages') && used <= used'
    requires forall a: nat :: FrameAt(tables, pages, a) != 0 ==> FrameAt(tables', pages', a) != 0
    requires forall d {:trigger Housed(tables, pages, used, d)} :: d in directories ==> Housed(tables, pages, used, d)
    ensures forall d {:trigger Housed(tables', pages', used', d)} :: d in directories ==> Housed(tables', pages', used', d)
  {
    hide FrameAt;
    forall d | d in directories ensures Housed(tables', pages', used', d) {
      assert Housed(tables, pages, used, d);
    }
  }

  lemma HomesKept(tables: seq<Table?>, tables': seq<Table?>, pages: PageMap, pages': PageMap, used: set<nat>,
                  directories: set<Directory>)
    requires |tables| == |tables'| == 1024 && Full(pages) && Full(pages') && pages.Keys == pages'.Keys
    requires forall a: nat :: FrameAt(tables, pages, a) != 0 ==> FrameAt(tables', pages', a) == FrameAt(tables, pages, a)
    requires Homes(tables, pages, used, directories)
    ensures Homes(tables', pages', used, directories)
  {
    hide FrameAt, Full, Housed;
    forall t | t in pages' ensures Home(tables', pages', used, t) {
      assert Home(tables, pages, used, t);
    }
    StillHoused(tables, tables', pages, pages', used, used, directories);
  }

  lemma FillingKeeps(tables: seq<Table?>, pages: PageMap, pages': PageMap, end: nat, used: set<nat>, directories: set<Directory>)
    requires |tables| == 1024 && Fills(pages, pages')
    ensures forall a: nat :: FrameAt(tables, pages, a) != 0 ==> FrameAt(tables, pages', a) == FrameAt(tables, pages, a)
    ensures WindowMapped(tables, pages, end) ==> WindowMapped(tables, pages', end)
    ensures Homes(tables, pages, used, directories) && pages.Keys == pages'.Keys ==> Homes(tables, pages', used, directories)
  {
    hide TableOf, SlotOf;
    forall a: nat | FrameAt(tables, pages, a) != 0 ensures FrameAt(tables, pages', a) == FrameAt(tables, pages, a) {
      var t := tables[TableOf(a)];
      assert pages[t][SlotOf(a)].frame != 0;
    }
    hide FrameAt, Fills;
    if Homes(tables, pages, used, directories) && pages.Keys == pages'.Keys {
      HomesKept(tables, tables, pages, pages', used, directories);
    }
  }

  lemma SoundParts(v: View, kernel: Directory)
    requires Sound(v, kernel)
    ensures kernel in v.tables && |v.tables[kernel]| == 1024 && Full(v.pages)
  {
  }

  /** The state after a fresh frame goes into an empty entry. */
  ghost function Filled(v: View, t: Table, i: nat, p: Page): View
    requires t in v.pages && i < |v.pages[t]|
  {
    v.(pages := v.pages[t := v.pages[t][i := p]], owner := v.owner[p.frame := (t, i)], marks := v.marks + {p.frame},
       given := p.frame + 1)
  }

  lemma FilledOwned(v: View, t: Table, i: nat, p: Page)
    requires Owned(v.pages, v.owner, v.marks) && t in v.pages && i < 1024
    requires v.pages[t][i].frame == 0 && p.frame !in v.marks
    ensures Owned(Filled(v, t, i, p).pages, Filled(v, t, i, p).owner, Filled(v, t, i, p).marks)
    ensures Fills(v.pages, Filled(v, t, i, p).pages)
  {
    var v' := Filled(v, t, i, p);
    forall u, j {:trigger Held(v'.pages[u], u, j, v'.owner, v'.marks)} | u in v'.pages && 0 <= j < 1024
      ensures Held(v'.pages[u], u, j, v'.owner, v'.marks)
    {
      assert Held(v.pages[u], u, j, v.owner, v.marks);
    }
  }

  lemma FilledHeld(v: View, t: Table, i: nat, p: Page)
    requires NoneLost(v.pages, v.owner, v.given) && t in v.pages && i < |v.pages[t]|
    requires v.pages[t][i].frame == 0 && p.frame == v.given
    ensures NoneLost(Filled(v, t, i, p).pages, Filled(v, t, i, p).owner, Filled(v, t, i, p).given)
  {
    var v' := Filled(v, t, i, p);
    forall f: nat | 0 < f < v'.given ensures HeldBy(v'.pages, v'.owner, f) {
      assert f < v.given ==> HeldBy(v.pages, v.owner, f);
    }
  }

  lemma FilledSound(v: View, kernel: Directory, t: Table, i: nat, p: Page)
    requires Sound(v, kernel) && t in v.pages && i < |v.pages[t]| == 1024
    requires v.pages[t][i].frame == 0 && p.frame == v.given
    ensures Sound(Filled(v, t, i, p), kernel) && Fills(v.pages, Filled(v, t, i, p).pages)
  {
    hide Owned, Fills, Homes, WindowMapped, FrameAt, NoneLost;
    FilledOwned(v, t, i, p);
    FilledHeld(v, t, i, p);
    FillingKeeps(v.tables[kernel], v.pages, Filled(v, t, i, p).pages, v.heapEnd, v.used, v.tables.Keys);
  }

  /** Clearing an entry and some mark keeps the marks right exactly when that mark belongs to nobody. */
  lemma ClearingKeeps(pages: PageMap, owner: Owners, marks: set<nat>, t: Table, i: nat, cleared: nat)
    requires Owned(pages, owner, marks) && 0 in marks && t in pages && i < 1024
    ensures var pages' := pages[t := pages[t][i := pages[t][i].(frame := 0)]];
      (Owned(pages', owner, marks - {cleared}) && 0 in marks - {cleared}
       <==> cleared != 0 && forall u, j :: u in pages' && 0 <= j < 1024 ==> pages'[u][j].frame != cleared)
  {
    var pages' := pages[t := pages[t][i := pages[t][i].(frame := 0)]];
    var marks' := marks - {cleared};
    assert Full(pages');
    forall u, j {:trigger Held(pages'[u], u, j, owner, marks')} | u in pages' && 0 <= j < 1024
      ensures pages'[u][j].frame != cleared ==> Held(pages'[u], u, j, owner, marks')
      ensures cleared != 0 && pages'[u][j].frame == cleared ==> !Held(pages'[u], u, j, owner, marks')
    {
      assert Held(pages[u], u, j, owner, marks);
    }
    if cleared != 0 && !(forall u, j :: u in pages' && 0 <= j < 1024 ==> pages'[u][j].frame != cleared) {
      var u, j :| u in pages' && 0 <= j < 1024 && pages'[u][j].frame == cleared;
      assert !Held(pages'[u], u, j, owner, marks');
    }
  }

  lemma FrameMarked(v: View, t: Table, i: nat)
    requires Owned(v.pages, v.owner, v.marks) && t in v.pages && i < 1024 && v.pages[t][i].frame != 0
    ensures v.pages[t][i].frame in v.marks
  {
    assert Held(v.pages[t], t, i, v.owner, v.marks);
  }

  /** In a sound state no clearing of an entry together with the mark of another frame keeps ownership:
      that frame, if it is not 0, is some entry's. */
  lemma ClearingBreaks(v: View, kernel: Directory, t: Table, i: nat, cleared: nat)
    requires Sound(v, kernel) && t in v.pages && i < 1024 && |v.pages[t]| == 1024
    requires cleared < v.pages[t][i].frame
    ensures var pages' := v.pages[t := v.pages[t][i := v.pages[t][i].(frame := 0)]];
      !(Owned(pages', v.owner, v.marks - {cleared}) && 0 in v.marks - {cleared})
  {
    hide Shared, Linked, Apart, WindowMapped, Homes;
    var pages': PageMap := v.pages[t := v.pages[t][i := v.pages[t][i].(frame := 0)]];
    FrameMarked(v, t, i);
    assert 0 in v.marks;
    if cleared != 0 {
      assert HeldBy(v.pages, v.owner, cleared);
      var u: Table, j: nat := v.owner[cleared].0, v.owner[cleared].1;
      assert pages'[u][j].frame == cleared;
      ClearingKeeps(v.pages, v.owner, v.marks, t, i, cleared);
    }
  }

  lemma OwnedFull(v: View)
    requires Owned(v.pages, v.owner, v.marks)
    ensures Full(v.pages) && Fills(v.pages, v.pages)
  {
  }

  lemma SamePage(p: nat, a: nat)
    requires p % 0x1000 == 0 && p <= a < p + 0x1000
    ensures TableOf(a) == TableOf(p) && SlotOf(a) == SlotOf(p)
  {
    assert a / 0x1000 == p / 0x1000;
  }

  lemma WindowGrows(tables: seq<Table?>, pages: PageMap, pages': PageMap, i: nat)
    requires |tables| == 1024 && Fills(pages, pages')
    requires WindowMapped(tables, pages, i) && i + 0x1000 <= KHEAP_END && FrameAt(tables, pages', i) != 0
    ensures WindowMapped(tables, pages', i + 0x1000)
  {
    FillingKeeps(tables, pages, pages', i, {}, {});
    hide TableOf, SlotOf;
    forall a: nat | i <= a < i + 0x1000 ensures FrameAt(tables, pages', a) == FrameAt(tables, pages', i) {
      SamePage(i, a);
    }
  }

  ghost predicate InWindow(tables: seq<Table?>, t: Table)
    requires |tables| == 1024
  {
    exists w :: HeapTable(w) && tables[w] == t
  }

  /** An entry as before, or with a frame for the kernel to have and everybody to read. */
  predicate SameOrGained(p: Page, p': Page) {
    p' == p || (p.frame == 0 && p' == p.(present := true, rw := false, user := true, frame := p'.frame))
  }

  /** What the kernel does to make room: new frames and new tables, but of the tables that were
      there before only those of the heap windows gain entries. */
  ghost predicate Grows(tables: seq<Table?>, v: View, v': View) {
    && |tables| == 1024 && Fills(v.pages, v'.pages) && v.pages.Keys <= v'.pages.Keys
    && (forall t :: t in v.pages && v'.pages[t] != v.pages[t] ==> InWindow(tables, t))
    && (forall t, i :: t in v.pages && 0 <= i < 1024 ==> SameOrGained(v.pages[t][i], v'.pages[t][i]))
    && v.marks <= v'.marks && v.used <= v'.used && v.heapEnd <= v'.heapEnd
    && v'.tables == v.tables && v'.physical == v.physical
  }

  /** What making room does to the entries there were: one that had no frame may get one, read-only and open
      to user mode. */
  lemma GrowsMeans(tables: seq<Table?>, v: View, v': View, t: Table, i: nat)
    requires Grows(tables, v, v') && t in v.pages && i < 1024
    ensures Full(v.pages) && Full(v'.pages) && t in v'.pages
    ensures var p, p' := v.pages[t][i], v'.pages[t][i];
      p' != p ==> InWindow(tables, t) && p.frame == 0 && p'.present && !p'.rw && p'.user && p'.accessed == p.accessed && p'.dirty == p.dirty
  {
    hide InWindow;
    assert SameOrGained(v.pages[t][i], v'.pages[t][i]);
  }

  lemma GrowsParts(tables: seq<Table?>, v: View, v': View)
    requires Grows(tables, v, v')
    ensures Fills(v.pages, v'.pages) && v.marks <= v'.marks && v'.tables == v.tables && v'.physical == v.physical
  {
  }

  lemma GrowsTwice(tables: seq<Table?>, v: View, v1: View, v2: View)
    requires Grows(tables, v, v1) && Grows(tables, v1, v2)
    ensures Grows(tables, v, v2)
  {
    hide InWindow;
  }

  lemma EndMoved(v: View, v1: View, kernel: Directory, end: nat)
    requires Sound(v1, kernel) && WindowMapped(v1.tables[kernel], v1.pages, end)
    requires Grows(v1.tables[kernel], v, v1) && v1.heapEnd <= end
    ensures Sound(v1.(heapEnd := end), kernel) && Grows(v1.tables[kernel], v, v1.(heapEnd := end))
  {
    hide WindowMapped, Owned, Homes, Apart, Fills, InWindow;
  }

  lemma UsedMore(tables: seq<Table?>, v: View, v1: View, kernel: Directory, used: set<nat>)
    requires Sound(v1, kernel) && v1.used <= used && Grows(tables, v, v1)
    ensures Sound(v1.(used := used), kernel) && Grows(tables, v, v1.(used := used))
  {
    hide WindowMapped, Owned, Apart, Fills, InWindow, FrameAt;
    SoundParts(v1, kernel);
    var tables' := v1.tables[kernel];
    forall t | t in v1.pages ensures Home(tables', v1.pages, used, t) {
      assert Home(tables', v1.pages, v1.used, t);
    }
    StillHoused(tables', tables', v1.pages, v1.pages, v1.used, used, v1.tables.Keys);
  }

  /** Entries of a heap window, or of a table that was not there, may be filled. */
  lemma FilledGrows(tables: seq<Table?>, v: View, v1: View, t: Table, i: nat, p: Page)
    requires Grows(tables, v, v1) && t in v1.pages && i < 1024 && v1.pages[t][i].frame == 0
    requires t !in v.pages || (InWindow(tables, t) && SameOrGained(v1.pages[t][i], p))
    ensures Grows(tables, v, Filled(v1, t, i, p))
  {
    hide InWindow;
  }

  /** Equal frames are the same page of the kernel's. */
  lemma SameFrameSamePage(v: View, kernel: Directory, a: nat, b: nat)
    requires Shared(v.tables, kernel) && Owned(v.pages, v.owner, v.marks) && a % 0x1000 == 0 == b % 0x1000
    requires FrameAt(v.tables[kernel], v.pages, a) == FrameAt(v.tables[kernel], v.pages, b) != 0
    ensures a == b
  {
    var t, u := v.tables[kernel][TableOf(a)], v.tables[kernel][TableOf(b)];
    assert Held(v.pages[t], t, SlotOf(a), v.owner, v.marks) && Held(v.pages[u], u, SlotOf(b), v.owner, v.marks);
    assert a == 0x1000 * (a / 0x1000) && b == 0x1000 * (b / 0x1000);
  }

  /** The state with an empty table more. */
  ghost function WithTable(v: View, t: Table): View {
    v.(pages := v.pages[t := EmptyPages()])
  }

  lemma EmptyTableOwned(v: View, t: Table)
    requires Owned(v.pages, v.owner, v.marks) && t !in v.pages
    ensures Owned(WithTable(v, t).pages, v.owner, v.marks) && Fills(v.pages, WithTable(v, t).pages)
  {
    var pages' := WithTable(v, t).pages;
    forall u, j {:trigger Held(pages'[u], u, j, v.owner, v.marks)} | u in pages' && 0 <= j < 1024
      ensures Held(pages'[u], u, j, v.owner, v.marks)
    {
      assert u != t ==> Held(v.pages[u], u, j, v.owner, v.marks);
    }
  }

  lemma EmptyTableHeld(v: View, t: Table)
    requires NoneLost(v.pages, v.owner, v.given) && t !in v.pages
    ensures NoneLost(WithTable(v, t).pages, v.owner, v.given)
  {
    forall f: nat | 0 < f < v.given ensures HeldBy(WithTable(v, t).pages, v.owner, f) {
      assert HeldBy(v.pages, v.owner, f);
    }
  }

  /** Memory of its own, where the kernel maps it. */
  ghost predicate Fresh(v: View, kernel: Directory, t: Table)
    requires kernel in v.tables && |v.tables[kernel]| == 1024 && Full(v.pages)
  {
    && t !in v.pages && t.address % 0x1000 == 0 && KHEAP_START <= t.address && t.address !in v.used
    && FrameAt(v.tables[kernel], v.pages, t.address) != 0
    && t.phys == 0x1000 * FrameAt(v.tables[kernel], v.pages, t.address)
  }

  lemma NewTableApart(v: View, kernel: Directory, t: Table)
    requires Sound(v, kernel) && Fresh(v, kernel, t)
    ensures Apart(WithTable(v, t).pages)
  {
    hide FrameAt, Owned, WindowMapped;
    SoundParts(v, kernel);
    forall u | u in v.pages ensures u.phys != t.phys {
      if u.phys == t.phys {
        assert Home(v.tables[kernel], v.pages, v.used, u);
        SameFrameSamePage(v, kernel, u.address, t.address);
      }
    }
  }

  lemma NewTableHome(v: View, kernel: Directory, t: Table, used: set<nat>)
    requires Sound(v, kernel) && Fresh(v, kernel, t) && v.used <= used && t.address in used
    requires Fills(v.pages, WithTable(v, t).pages)
    ensures Homes(v.tables[kernel], WithTable(v, t).pages, used, v.tables.Keys)
  {
    hide FrameAt, WindowMapped, EmptyPages, Owned, Linked, Apart;
    SoundParts(v, kernel);
    var tables, pages' := v.tables[kernel], WithTable(v, t).pages;
    FillingKeeps(tables, v.pages, pages', 0, v.used, v.tables.Keys);
    forall u | u in pages' ensures Home(tables, pages', used, u) {
      assert u != t ==> Home(tables, v.pages, v.used, u);
    }
    StillHoused(tables, tables, v.pages, pages', v.used, used, v.tables.Keys);
  }

  lemma NewTableSound(v: View, kernel: Directory, t: Table, used: set<nat>)
    requires Sound(v, kernel) && Fresh(v, kernel, t) && v.used <= used && t.address in used
    ensures Sound(WithTable(v, t).(used := used), kernel) && Fills(v.pages, WithTable(v, t).pages)
  {
    hide FrameAt, Fills, WindowMapped, Owned, Apart, Homes, EmptyPages, NoneLost;
    EmptyTableOwned(v, t);
    EmptyTableHeld(v, t);
    NewTableApart(v, kernel, t);
    NewTableHome(v, kernel, t, used);
    FillingKeeps(v.tables[kernel], v.pages, WithTable(v, t).pages, v.heapEnd, v.used, v.tables.Keys);
  }

  lemma NewTableGrows(tables: seq<Table?>, v: View, v1: View, t: Table, used: set<nat>)
    requires Grows(tables, v, v1) && t !in v1.pages && v1.used <= used && Full(v1.pages)
    ensures Grows(tables, v, WithTable(v1, t).(used := used))
  {
    hide InWindow;
  }
}
