/** What address spaces mean: the hardware's walk, sharing, isolation, and what a copy of one is. */
module AddressSpaces {
  import opened PageTables

  // The walk.

  /** The entry the kernel reads through its own table array. */
  ghost function Lookup(v: View, d: Directory, a: nat): (r: set<Page>)
    requires d in v.tables && |v.tables[d]| == 1024 && Full(v.pages) && TableOf(a) < 1024
  {
    set t | t in v.pages && t == v.tables[d][TableOf(a)] :: v.pages[t][SlotOf(a)]
  }

  /** What both levels allow: writing and user mode have to be allowed by the directory's entry, in bits
      1 and 2, as well as by the table's. */
  function Allowed(entry: int, p: Page): Page {
    p.(rw := p.rw && entry / 2 % 2 == 1, user := p.user && entry / 4 % 2 == 1)
  }

  /** The entry the hardware reads, with the rights it grants: bits 22 to 31 of the address select the
      directory's entry, and bits 12 to 21 the table's; bit 0 of the former says whether a table is
      there, bits 12 to 31 in which physical page. */
  ghost function Walk(v: View, d: Directory, a: nat): (r: set<Page>)
    requires d in v.physical && |v.physical[d]| == 1024 && Full(v.pages) && a < 0x1_0000_0000
  {
    var entry := v.physical[d][a / 0x40_0000];
    set t | t in v.pages && entry % 2 == 1 && t.phys == entry / 0x1000 * 0x1000 :: Allowed(entry, v.pages[t][a / 0x1000 % 0x400])
  }

  lemma EntryDecodes(t: Table)
    requires t.phys % 0x1000 == 0
    ensures EntryFor(t) % 2 == 1 && EntryFor(t) / 0x1000 * 0x1000 == t.phys
    ensures EntryFor(t) / 2 % 2 == 1 && EntryFor(t) / 4 % 2 == 1 && EntryFor(t) / 8 % 0x200 == 0
  {
    var q := t.phys / 0x1000;
    EntryBits(q, EntryFor(t));
    EntryRest(q, EntryFor(t));
  }

  lemma EntryBits(q: int, entry: int)
    requires entry == 0x1000 * q + 7
    ensures entry % 2 == 1 && entry / 2 == 0x800 * q + 3 && entry / 4 == 0x400 * q + 1
    ensures entry / 2 % 2 == 1 && entry / 4 % 2 == 1
  {
    Divided(entry, 2, 0x800 * q + 3, 1);
    Divided(entry, 4, 0x400 * q + 1, 3);
    Divided(0x800 * q + 3, 2, 0x400 * q + 1, 1);
    Divided(0x400 * q + 1, 2, 0x200 * q, 1);
  }

  lemma Divided(n: int, d: int, q: int, r: int)
    requires (d == 2 || d == 4) && n == d * q + r && 0 <= r < d
    ensures n / d == q && n % d == r
  {
  }

  lemma EntryRest(q: int, entry: int)
    requires entry == 0x1000 * q + 7
    ensures entry / 8 % 0x200 == 0 && entry / 0x1000 == q
  {
    assert entry / 8 == 0x200 * q;
  }

  lemma AllAllowed(t: Table, p: Page)
    requires t.phys % 0x1000 == 0
    ensures Allowed(EntryFor(t), p) == p
  {
    EntryDecodes(t);
    hide EntryFor;
  }

  /** The directory's entry for a table: present, writable, open to user mode, none of the other bits. */
  lemma TableOpen(v: View, kernel: Directory, d: Directory, i: nat)
    requires Sound(v, kernel) && d in v.tables && i < |v.tables[d]|
    ensures d in v.physical && |v.physical[d]| == 1024 == |v.tables[d]|
    ensures var t, entry := v.tables[d][i], v.physical[d][i];
      if t == null then entry == 0
      else && entry % 2 == 1 && entry / 2 % 2 == 1 && entry / 4 % 2 == 1 && entry / 8 % 0x200 == 0
           && entry / 0x1000 * 0x1000 == t.phys
  {
    hide WindowMapped, Homes, FrameAt, Shared, Owned, EntryFor;
    assert Mirrors(v.tables[d], v.physical[d]);
    if v.tables[d][i] != null {
      EntryDecodes(v.tables[d][i]);
    }
  }

  lemma AddressBits(a: nat)
    requires a < 0x1_0000_0000
    ensures TableOf(a) == a / 0x40_0000 < 1024 && SlotOf(a) == a / 0x1000 % 0x400
  {
    assert a / 0x1000 < 0x10_0000;
    assert a == 0x1000 * (a / 0x1000) + a % 0x1000;
  }

  lemma HardwareAgrees(v: View, kernel: Directory, d: Directory, a: nat)
    requires Sound(v, kernel) && d in v.tables && a < 0x1_0000_0000
    ensures TableOf(a) < 1024 && |v.tables[d]| == |v.physical[d]| == 1024 && Full(v.pages)
    ensures Walk(v, d, a) == Lookup(v, d, a) && |Lookup(v, d, a)| == if v.tables[d][TableOf(a)] == null then 0 else 1
  {
    hide WindowMapped, Homes, FrameAt, Shared, SlotOf, EntryFor, Allowed;
    assert Mirrors(v.tables[d], v.physical[d]);
    AddressBits(a);
    hide TableOf;
    var entry, table := v.physical[d][TableOf(a)], v.tables[d][TableOf(a)];
    if table == null {
      assert Walk(v, d, a) == Lookup(v, d, a) == {};
    } else {
      EntryDecodes(table);
      AllAllowed(table, v.pages[table][SlotOf(a)]);
      assert forall t :: t in v.pages && t.phys == table.phys ==> t == table;
      assert Walk(v, d, a) == Lookup(v, d, a) == {v.pages[table][SlotOf(a)]};
    }
  }

  /** Where in physical memory a directory has the array that the hardware reads. */
  ghost function EntriesAt(v: View, kernel: Directory, d: Directory): nat
    requires kernel in v.tables && |v.tables[kernel]| == 1024 && Full(v.pages)
  {
    0x1000 * FrameAt(v.tables[kernel], v.pages, d.address + 0x1000)
  }

  /** Whose array that is, when cr3 says where it is. */
  ghost function Loaded(v: View, kernel: Directory, cr3: nat): set<Directory>
    requires kernel in v.tables && |v.tables[kernel]| == 1024 && Full(v.pages)
  {
    set d | d in v.tables && EntriesAt(v, kernel, d) == cr3
  }

  /** What the hardware reads, starting from cr3. */
  ghost function WalkFrom(v: View, kernel: Directory, cr3: nat, a: nat): set<Page>
    requires kernel in v.tables && |v.tables[kernel]| == 1024 && Full(v.pages) && a < 0x1_0000_0000
    requires forall d :: d in v.tables ==> d in v.physical && |v.physical[d]| == 1024
  {
    set d, p | d in Loaded(v, kernel, cr3) && p in Walk(v, d, a) :: p
  }

  /** No two directories have their arrays in one place: cr3 leads to a directory just when it says
      where that one is, and then the walk from it reads what the kernel reads. */
  lemma WalkAgrees(v: View, kernel: Directory, d: Directory, cr3: nat, a: nat)
    requires Sound(v, kernel) && d in v.tables && a < 0x1_0000_0000
    ensures kernel in v.tables && |v.tables[kernel]| == |v.tables[d]| == 1024 && Full(v.pages) && TableOf(a) < 1024
    ensures forall e :: e in v.tables ==> e in v.physical && |v.physical[e]| == 1024
    ensures EntriesAt(v, kernel, d) == 0x1000 * FrameAt(v.tables[kernel], v.pages, d.address + 0x1000)
    ensures cr3 == EntriesAt(v, kernel, d) <==> Loaded(v, kernel, cr3) == {d}
    ensures cr3 == EntriesAt(v, kernel, d) ==> WalkFrom(v, kernel, cr3, a) == Lookup(v, d, a)
  {
    HardwareAgrees(v, kernel, d, a);
    SoundParts(v, kernel);
    assert forall e :: e in v.tables ==> e in v.physical && |v.physical[e]| == 1024 by { EntriesThere(v); }
    if cr3 == EntriesAt(v, kernel, d) {
      forall e | e in v.tables && EntriesAt(v, kernel, e) == cr3 ensures e == d {
        OneHome(v, kernel, d, e);
      }
      hide EntriesAt, Walk, Lookup, Sound;
      assert Loaded(v, kernel, cr3) == {d};
      assert WalkFrom(v, kernel, cr3, a) == Walk(v, d, a);
    } else {
      assert d !in Loaded(v, kernel, cr3);
    }
  }

  lemma EntriesThere(v: View)
    requires Linked(v)
    ensures forall e :: e in v.tables ==> e in v.physical && |v.physical[e]| == 1024
  {
  }

  lemma OneHome(v: View, kernel: Directory, d: Directory, e: Directory)
    requires Sound(v, kernel) && d in v.tables && e in v.tables
    requires kernel in v.tables && |v.tables[kernel]| == 1024 && Full(v.pages)
    requires EntriesAt(v, kernel, d) == EntriesAt(v, kernel, e)
    ensures d == e
  {
    hide Shared, Owned, FrameAt, Linked, Apart, WindowMapped, InOrder;
    assert Housed(v.tables[kernel], v.pages, v.used, d) && Housed(v.tables[kernel], v.pages, v.used, e);
    SameFrameSamePage(v, kernel, d.address + 0x1000, e.address + 0x1000);
  }

  // Sharing and isolation.

  /** Whatever directory is in force, the heap windows are the kernel's. */
  lemma WindowShared(v: View, kernel: Directory, d: Directory, a: nat)
    requires Sound(v, kernel) && d in v.tables && KHEAP_START <= a < UHEAP_END
    ensures Lookup(v, d, a) == Lookup(v, kernel, a) && |Lookup(v, d, a)| == 1
    ensures Walk(v, d, a) == Walk(v, kernel, a)
    ensures FrameAt(v.tables[d], v.pages, a) == FrameAt(v.tables[kernel], v.pages, a)
  {
    HardwareAgrees(v, kernel, d, a);
    HardwareAgrees(v, kernel, kernel, a);
    hide WindowMapped, Homes, FrameAt, Owned, Apart, Lookup, Walk, SlotOf;
    assert HeapTable(TableOf(a));
    assert v.tables[d][TableOf(a)] == v.tables[kernel][TableOf(a)];
    hide Shared;
    assert Lookup(v, d, a) == Lookup(v, kernel, a) by { LookupOf(v, d, kernel, a); }
    FrameOf(v, d, kernel, a);
  }

  lemma LookupOf(v: View, d: Directory, e: Directory, a: nat)
    requires d in v.tables && e in v.tables && |v.tables[d]| == |v.tables[e]| == 1024 && Full(v.pages) && TableOf(a) < 1024
    requires v.tables[d][TableOf(a)] == v.tables[e][TableOf(a)]
    ensures Lookup(v, d, a) == Lookup(v, e, a)
  {
  }

  lemma FrameOf(v: View, d: Directory, e: Directory, a: nat)
    requires d in v.tables && e in v.tables && |v.tables[d]| == |v.tables[e]| == 1024 && Full(v.pages) && TableOf(a) < 1024
    requires v.tables[d][TableOf(a)] == v.tables[e][TableOf(a)]
    ensures FrameAt(v.tables[d], v.pages, a) == FrameAt(v.tables[e], v.pages, a)
  {
  }

  /** One frame at two addresses: the same page of the same table, and if the directories differ that
      table is one of the kernel's. No private page is reachable from two directories. */
  lemma Isolation(v: View, kernel: Directory, d: Directory, e: Directory, a: nat, b: nat)
    requires Sound(v, kernel) && d in v.tables && e in v.tables && |v.tables[d]| == |v.tables[e]| == 1024
    requires FrameAt(v.tables[d], v.pages, a) == FrameAt(v.tables[e], v.pages, b) != 0
    ensures a / 0x1000 == b / 0x1000
    ensures d != e ==> v.tables[d][TableOf(a)] == v.tables[e][TableOf(a)] == v.tables[kernel][TableOf(a)]
  {
    hide WindowMapped, Homes, Apart, Mirrors;
    var t, u := v.tables[d][TableOf(a)], v.tables[e][TableOf(b)];
    assert Held(v.pages[t], t, SlotOf(a), v.owner, v.marks) && Held(v.pages[u], u, SlotOf(b), v.owner, v.marks);
    assert TableOf(a) == TableOf(b) && SlotOf(a) == SlotOf(b);
    assert a / 0x1000 == a / 0x1000 / 1024 * 1024 + a / 0x1000 % 1024;
    assert b / 0x1000 == b / 0x1000 / 1024 * 1024 + b / 0x1000 % 1024;
  }

  /** The pages a process is given for its stack, just under 0xE0000000, are in the last table of the
      user heap's window: every process has the same ones. */
  lemma StackShared(v: View, kernel: Directory, d: Directory, a: nat)
    requires Sound(v, kernel) && d in v.tables && 0xDFFF_E000 <= a < 0xE000_0000
    ensures |v.tables[d]| == 1024 && v.tables[d][TableOf(a)] == v.tables[kernel][TableOf(a)] != null
    ensures FrameAt(v.tables[d], v.pages, a) == FrameAt(v.tables[kernel], v.pages, a)
  {
    hide WindowMapped, Homes, Owned, Apart, Linked, SlotOf;
    SoundParts(v, kernel);
    assert a / 0x1000 == 0xDFFFE || a / 0x1000 == 0xDFFFF;
    assert TableOf(a) == 895;
    assert HeapTable(895);
    FrameOf(v, d, kernel, a);
  }

  // Copies.

  ghost predicate RamKept(marks: set<nat>, ram: seq<seq<int>>, ram': seq<seq<int>>) {
    |ram'| == |ram| && forall f: nat :: f in marks && f < |ram| ==> ram'[f] == ram[f]
  }

  lemma RamKeptTwice(marks: set<nat>, marks1: set<nat>, ram: seq<seq<int>>, ram1: seq<seq<int>>, ram2: seq<seq<int>>)
    requires RamKept(marks, ram, ram1) && marks <= marks1 && RamKept(marks1, ram1, ram2)
    ensures RamKept(marks, ram, ram2)
  {
  }

  /** A copied entry is empty, or has the same flags and the same contents in a frame nobody had. */
  ghost predicate CopiedEntry(p': Page, p: Page, marks: set<nat>, ram: seq<seq<int>>, ram': seq<seq<int>>) {
    if p.frame == 0 then p' == EMPTY
    else
      && p'.frame != 0 && p'.frame !in marks && p' == p.(frame := p'.frame)
      && p.frame < |ram| && p'.frame < |ram'| && ram'[p'.frame] == ram[p.frame]
  }

  lemma CopyKept(p': Page, p: Page, marks: set<nat>, marks1: set<nat>, ram: seq<seq<int>>, ram1: seq<seq<int>>,
                 ram2: seq<seq<int>>)
    requires CopiedEntry(p', p, marks, ram, ram1) && (p'.frame != 0 ==> p'.frame in marks1) && RamKept(marks1, ram1, ram2)
    ensures CopiedEntry(p', p, marks, ram, ram2)
  {
  }

  ghost predicate CopiedPages(ps': seq<Page>, ps: seq<Page>, n: nat, marks: set<nat>, ram: seq<seq<int>>, ram': seq<seq<int>>) {
    && n <= |ps| == |ps'|
    && forall i :: 0 <= i < n ==> CopiedEntry(ps'[i], ps[i], marks, ram, ram')
  }

  /** A table of a copy: absent, the kernel's own, or a new one with a copy of every page. */
  ghost predicate CopiedTable(t': Table?, t: Table?, kernels: Table?, v: View, v': View, ram: seq<seq<int>>, ram': seq<seq<int>>) {
    if t == null || t == kernels then t' == t
    else
      && t' != null && t' !in v.pages && t' in v'.pages && t in v.pages && |v.pages[t]| == 1024
      && CopiedPages(v'.pages[t'], v.pages[t], 1024, v.marks, ram, ram')
  }

  lemma PagesKept(ps': seq<Page>, ps: seq<Page>, n: nat, v1: View, t': Table, marks: set<nat>, ram: seq<seq<int>>,
                  ram1: seq<seq<int>>, ram2: seq<seq<int>>)
    requires CopiedPages(ps', ps, n, marks, ram, ram1) && Owned(v1.pages, v1.owner, v1.marks) && |ps'| == 1024
    requires t' in v1.pages && v1.pages[t'] == ps' && RamKept(v1.marks, ram1, ram2)
    ensures CopiedPages(ps', ps, n, marks, ram, ram2)
  {
    hide CopiedEntry, RamKept;
    forall i | 0 <= i < n ensures CopiedEntry(ps'[i], ps[i], marks, ram, ram2) {
      assert Held(v1.pages[t'], t', i, v1.owner, v1.marks);
      CopyKept(ps'[i], ps[i], marks, v1.marks, ram, ram1, ram2);
    }
  }

  /** Later growth leaves a copied table copied. */
  lemma TableKept(t': Table?, t: Table?, kernels: Table?, window: seq<Table?>, v: View, v1: View, v2: View,
                  ram: seq<seq<int>>, ram1: seq<seq<int>>, ram2: seq<seq<int>>)
    requires CopiedTable(t', t, kernels, v, v1, ram, ram1) && Owned(v1.pages, v1.owner, v1.marks)
    requires Grows(window, v1, v2) && RamKept(v1.marks, ram1, ram2)
    requires forall w :: HeapTable(w) ==> window[w] != null && window[w] in v.pages
    ensures CopiedTable(t', t, kernels, v, v2, ram, ram2)
  {
    hide Owned, Held, CopiedEntry, RamKept, Fills;
    if t != null && t != kernels {
      assert !InWindow(window, t');
      assert v2.pages[t'] == v1.pages[t'];
      assert |v1.pages[t']| == 1024;
      PagesKept(v1.pages[t'], v.pages[t], 1024, v1, t', v.marks, ram, ram1, ram2);
    }
  }

  /** Part way through copying a table: the first n entries are copied, and nothing else is disturbed. */
  ghost predicate Copying(window: seq<Table?>, v0: View, ram0: seq<seq<int>>, v: View, ram: seq<seq<int>>,
                          src: Table, t: Table, n: nat) {
    && Grows(window, v0, v) && t !in v0.pages && t in v.pages && src in v0.pages
    && src in v.pages && v.pages[src] == v0.pages[src]
    && n <= 1024 == |v.pages[t]| == |v0.pages[src]|
    && CopiedPages(v.pages[t], v0.pages[src], n, v0.marks, ram0, ram)
    && (forall j :: n <= j < 1024 ==> v.pages[t][j] == EMPTY)
    && RamKept(v0.marks, ram0, ram)
  }

  lemma CopyingGrows(window: seq<Table?>, v0: View, ram0: seq<seq<int>>, v: View, ram: seq<seq<int>>,
                     src: Table, t: Table, n: nat)
    requires Copying(window, v0, ram0, v, ram, src, t, n)
    ensures Grows(window, v0, v) && RamKept(v0.marks, ram0, ram)
  {
  }

  lemma CopyingParts(window: seq<Table?>, v0: View, ram0: seq<seq<int>>, v: View, ram: seq<seq<int>>,
                     src: Table, t: Table, n: nat)
    requires Copying(window, v0, ram0, v, ram, src, t, n) && n < 1024
    ensures src in v.pages && src in v0.pages && t in v.pages && src != t && |window| == 1024
    ensures v.pages[src] == v0.pages[src] && |v.pages[src]| == |v.pages[t]| == 1024 && v.pages[t][n] == EMPTY
  {
  }

  lemma NotWindow(window: seq<Table?>, v0: View, v: View, t: Table)
    requires Grows(window, v0, v) && t in v0.pages && !InWindow(window, t)
    ensures t in v.pages && v.pages[t] == v0.pages[t]
  {
  }

  lemma SoundOwned(v: View, kernel: Directory)
    requires Sound(v, kernel)
    ensures Owned(v.pages, v.owner, v.marks)
  {
  }

  lemma CopyingStarts(window: seq<Table?>, v0: View, v: View, ram: seq<seq<int>>, src: Table, t: Table)
    requires Grows(window, v0, v) && t !in v0.pages && t in v.pages && src in v0.pages && v.pages[src] == v0.pages[src]
    requires v.pages[t] == EmptyPages()
    ensures Copying(window, v0, ram, v, ram, src, t, 0)
  {
    hide InWindow;
  }

  lemma CopyingSkips(window: seq<Table?>, v0: View, ram0: seq<seq<int>>, v: View, ram: seq<seq<int>>, src: Table, t: Table,
                     n: nat)
    requires Copying(window, v0, ram0, v, ram, src, t, n) && n < 1024 && v0.pages[src][n].frame == 0
    ensures Copying(window, v0, ram0, v, ram, src, t, n + 1)
  {
    hide Grows, RamKept;
  }

  lemma CopyingFills(window: seq<Table?>, v0: View, ram0: seq<seq<int>>, v: View, ram: seq<seq<int>>, ram': seq<seq<int>>,
                     src: Table, t: Table, n: nat, p: Page)
    requires Copying(window, v0, ram0, v, ram, src, t, n) && n < 1024 && v0.pages[src][n].frame != 0
    requires Owned(v0.pages, v0.owner, v0.marks) && Owned(v.pages, v.owner, v.marks)
    requires CopiedEntry(p, v.pages[src][n], v.marks, ram, ram') && RamKept(v.marks, ram, ram')
    ensures Copying(window, v0, ram0, Filled(v, t, n, p), ram', src, t, n + 1)
  {
    hide Grows, RamKept, CopiedEntry, Owned;
    GrowsParts(window, v0, v);
    FrameMarked(v0, src, n);
    assert v.pages[t][n].frame == 0;
    FilledGrows(window, v0, v, t, n, p);
    RamKeptTwice(v0.marks, v.marks, ram0, ram, ram');
    PagesKept(v.pages[t], v0.pages[src], n, v, t, v0.marks, ram0, ram, ram');
    FreshCopy(p, v0.pages[src][n], v0.marks, v.marks, ram0, ram, ram');
  }

  lemma FreshCopy(p': Page, p: Page, marks: set<nat>, marks1: set<nat>, ram: seq<seq<int>>, ram1: seq<seq<int>>,
                  ram2: seq<seq<int>>)
    requires CopiedEntry(p', p, marks1, ram1, ram2) && marks <= marks1 && p.frame in marks && RamKept(marks, ram, ram1)
    ensures CopiedEntry(p', p, marks, ram, ram2)
  {
  }

  /** The state with one directory more. */
  ghost function WithDirectory(v: View, d: Directory, tables: seq<Table?>, physical: seq<int>): View {
    v.(tables := v.tables[d := tables], physical := v.physical[d := physical])
  }

  /** The tables of a new directory: the kernel's in their places, and new ones of its own. */
  ghost predicate Joins(v: View, v0: View, kernel: Directory, tables: seq<Table?>)
    requires kernel in v.tables && |v.tables[kernel]| == 1024
  {
    && |tables| == 1024
    && (forall i :: 0 <= i < 1024 && tables[i] != null ==>
          tables[i] in v.pages && (tables[i] == v.tables[kernel][i] || tables[i] !in v0.pages))
    && (forall i, j :: 0 <= i < j < 1024 && tables[i] != null && tables[i] !in v0.pages ==> tables[i] != tables[j])
    && (forall i :: HeapTable(i) ==> tables[i] == v.tables[kernel][i])
  }

  /** A directory in a place of its own. */
  ghost predicate Settled(v: View, kernel: Directory, d: Directory) {
    && kernel in v.tables && |v.tables[kernel]| == 1024 && Full(v.pages)
    && Housed(v.tables[kernel], v.pages, v.used, d) && forall e :: e in v.tables ==> e.address != d.address
  }

  lemma DirectoryAdded(v: View, v0: View, kernel: Directory, d: Directory, tables: seq<Table?>, physical: seq<int>)
    requires Sound(v, kernel) && Sound(v0, kernel) && v.tables == v0.tables && d !in v.tables
    requires Joins(v, v0, kernel, tables) && Mirrors(tables, physical) && Settled(v, kernel, d)
    ensures Sound(WithDirectory(v, d, tables, physical), kernel)
  {
    hide WindowMapped, Homes, Owned, Apart, Mirrors, Settled;
    AddedShared(v, v0, kernel, d, tables);
    AddedLinked(v, v0, kernel, d, tables, physical);
    hide Shared, Linked;
    SoundParts(v, kernel);
    assert v.tables[d := tables][kernel] == v.tables[kernel];
    AddedHomes(v, kernel, d);
    assert v.tables[d := tables].Keys == v.tables.Keys + {d};
  }

  lemma AddedHomes(v: View, kernel: Directory, d: Directory)
    requires kernel in v.tables && |v.tables[kernel]| == 1024 && Full(v.pages)
    requires Homes(v.tables[kernel], v.pages, v.used, v.tables.Keys) && Settled(v, kernel, d)
    ensures Homes(v.tables[kernel], v.pages, v.used, v.tables.Keys + {d})
  {
    hide Home, Housed;
  }

  lemma StillSettled(v: View, v': View, kernel: Directory, d: Directory)
    requires Settled(v, kernel, d) && v'.tables == v.tables && Fills(v.pages, v'.pages) && v.used <= v'.used
    ensures Settled(v', kernel, d)
  {
    FillingKeeps(v.tables[kernel], v.pages, v'.pages, 0, {}, {});
    hide FrameAt, Fills;
  }

  /** Part way through copying a directory: its first n tables are copied, the others are still absent. */
  ghost predicate Cloning(kernel: Directory, v0: View, ram0: seq<seq<int>>, v: View, ram: seq<seq<int>>, d: Directory,
                          tables: seq<Table?>, n: nat) {
    && kernel in v0.tables && |v0.tables[kernel]| == 1024 && d in v0.tables && |v0.tables[d]| == 1024
    && n <= 1024 == |tables| && Grows(v0.tables[kernel], v0, v) && RamKept(v0.marks, ram0, ram)
    && (forall i :: 0 <= i < n ==> CopiedTable(tables[i], v0.tables[d][i], v0.tables[kernel][i], v0, v, ram0, ram))
    && (forall i :: n <= i < 1024 ==> tables[i] == null)
    && (forall i, j :: 0 <= i < j < 1024 && tables[i] != null && tables[i] !in v0.pages ==> tables[i] != tables[j])
  }

  lemma CloningParts(kernel: Directory, v0: View, ram0: seq<seq<int>>, v: View, ram: seq<seq<int>>, d: Directory,
                     tables: seq<Table?>, n: nat)
    requires Cloning(kernel, v0, ram0, v, ram, d, tables, n)
    ensures kernel in v0.tables && |v0.tables[kernel]| == 1024 && d in v0.tables && |v0.tables[d]| == 1024 == |tables|
    ensures v.tables == v0.tables && v.physical == v0.physical && Grows(v0.tables[kernel], v0, v)
    ensures n < 1024 ==> tables[n] == null
  {
  }

  lemma CloningStarts(kernel: Directory, v0: View, v: View, ram: seq<seq<int>>, d: Directory)
    requires kernel in v0.tables && |v0.tables[kernel]| == 1024 && d in v0.tables && |v0.tables[d]| == 1024
    requires Grows(v0.tables[kernel], v0, v)
    ensures Cloning(kernel, v0, ram, v, ram, d, NoTables(), 0)
    ensures Mirrors(NoTables(), NoEntries())
  {
    hide Grows;
  }

  /** An absent table stays absent; a table of the kernel's is shared. */
  lemma CloningShares(kernel: Directory, v0: View, ram0: seq<seq<int>>, v: View, ram: seq<seq<int>>, d: Directory,
                      tables: seq<Table?>, n: nat)
    requires Cloning(kernel, v0, ram0, v, ram, d, tables, n) && n < 1024 && Sound(v0, kernel)
    requires v0.tables[d][n] == null || v0.tables[d][n] == v0.tables[kernel][n]
    ensures Cloning(kernel, v0, ram0, v, ram, d, tables[n := v0.tables[d][n]], n + 1)
  {
    hide Grows, RamKept, CopiedPages, WindowMapped, Homes, Owned, Apart, Mirrors, Shared;
    var t := v0.tables[d][n];
    assert t != null ==> t in v0.pages;
  }

  /** What stands in a directory is a table; a window's is there, and a private one is not a window's. */
  lemma PlacesFilled(v: View, kernel: Directory, d: Directory, n: nat)
    requires Sound(v, kernel) && d in v.tables && n < 1024
    ensures kernel in v.tables && |v.tables[kernel]| == |v.tables[d]| == 1024
    ensures forall w :: HeapTable(w) ==> v.tables[kernel][w] != null && v.tables[kernel][w] in v.pages
    ensures forall i :: 0 <= i < 1024 && v.tables[d][i] != null ==> v.tables[d][i] in v.pages
    ensures v.tables[d][n] != null && v.tables[d][n] != v.tables[kernel][n] ==> !InWindow(v.tables[kernel], v.tables[d][n])
  {
    hide WindowMapped, Homes, Owned, Apart, Mirrors;
    assert OnePlace(v.tables[d], v.tables[kernel], v.tables[kernel], d == kernel);
    assert WindowOf(v.tables[kernel], v.tables[kernel]);
  }

  lemma TableCopied(window: seq<Table?>, v0: View, ram0: seq<seq<int>>, v: View, ram: seq<seq<int>>,
                    v': View, ram': seq<seq<int>>, src: Table, t: Table, kernels: Table?)
    requires Grows(window, v0, v) && RamKept(v0.marks, ram0, ram) && Owned(v0.pages, v0.owner, v0.marks)
    requires Copying(window, v, ram, v', ram', src, t, 1024) && src in v0.pages && !InWindow(window, src) && src != kernels
    ensures CopiedTable(t, src, kernels, v0, v', ram0, ram')
  {
    hide Owned, RamKept, Fills, InWindow, CopiedEntry;
    OwnedFull(v0);
    assert v.pages[src] == v0.pages[src];
    forall i | 0 <= i < 1024 ensures CopiedEntry(v'.pages[t][i], v0.pages[src][i], v0.marks, ram0, ram') {
      if v0.pages[src][i].frame != 0 {
        FrameMarked(v0, src, i);
        FreshCopy(v'.pages[t][i], v0.pages[src][i], v0.marks, v.marks, ram0, ram, ram');
      } else {
        EmptyCopy(v'.pages[t][i], v0.pages[src][i], v0.marks, v.marks, ram0, ram, ram');
      }
    }
  }

  lemma EmptyCopy(p': Page, p: Page, marks: set<nat>, marks1: set<nat>, ram: seq<seq<int>>, ram1: seq<seq<int>>,
                  ram2: seq<seq<int>>)
    requires CopiedEntry(p', p, marks1, ram1, ram2) && p.frame == 0
    ensures CopiedEntry(p', p, marks, ram, ram2)
  {
  }

  /** A table of its own is copied. */
  lemma CloningCopies(kernel: Directory, v0: View, ram0: seq<seq<int>>, v: View, ram: seq<seq<int>>,
                      v': View, ram': seq<seq<int>>, d: Directory, tables: seq<Table?>, n: nat, t: Table)
    requires Cloning(kernel, v0, ram0, v, ram, d, tables, n) && n < 1024 && Sound(v0, kernel) && Sound(v, kernel)
    requires v0.tables[d][n] != null && v0.tables[d][n] != v0.tables[kernel][n]
    requires Copying(v0.tables[kernel], v, ram, v', ram', v0.tables[d][n], t, 1024)
    ensures Cloning(kernel, v0, ram0, v', ram', d, tables[n := t], n + 1)
  {
    hide Copying, CopiedTable, Sound, RamKept, Owned, Grows, InWindow;
    var window, src := v0.tables[kernel], v0.tables[d][n];
    CopyingGrows(window, v, ram, v', ram', src, t, 1024);
    CopyingNew(window, v, ram, v', ram', src, t, 1024);
    SoundOwned(v, kernel);
    SoundOwned(v0, kernel);
    PlacesFilled(v0, kernel, d, n);
    TableCopied(window, v0, ram0, v, ram, v', ram', src, t, window[n]);
    GrowsParts(window, v0, v);
    GrowsTwice(window, v0, v, v');
    RamKeptTwice(v0.marks, v.marks, ram0, ram, ram');
    forall i | 0 <= i < n
      ensures CopiedTable(tables[i], v0.tables[d][i], window[i], v0, v', ram0, ram') && tables[i] != t
    {
      TableKept(tables[i], v0.tables[d][i], window[i], window, v0, v, v', ram0, ram, ram');
      CopiedThere(tables[i], v0.tables[d][i], window[i], window, v0, v, ram0, ram);
    }
    assert t !in v0.pages by { CopiedThere(null, null, null, window, v0, v, ram0, ram); }
  }

  lemma CopyingNew(window: seq<Table?>, v0: View, ram0: seq<seq<int>>, v: View, ram: seq<seq<int>>,
                   src: Table, t: Table, n: nat)
    requires Copying(window, v0, ram0, v, ram, src, t, n)
    ensures t !in v0.pages && t in v.pages && src in v0.pages
  {
  }

  lemma CopiedThere(t': Table?, t: Table?, kernels: Table?, window: seq<Table?>, v: View, v': View,
                    ram: seq<seq<int>>, ram': seq<seq<int>>)
    requires CopiedTable(t', t, kernels, v, v', ram, ram') && Grows(window, v, v') && (t == null || t in v.pages)
    ensures (t' == null || t' in v'.pages) && v.pages.Keys <= v'.pages.Keys
    ensures t' == t || t' !in v.pages
    ensures t != null && t == kernels ==> t' == t
  {
  }

  /** The tables of a finished copy can be those of a new directory. */
  lemma CloningJoins(kernel: Directory, v0: View, ram0: seq<seq<int>>, v: View, ram: seq<seq<int>>, d: Directory,
                     tables: seq<Table?>)
    requires Cloning(kernel, v0, ram0, v, ram, d, tables, 1024) && Sound(v0, kernel)
    ensures v.tables == v0.tables && Joins(v, v0, kernel, tables)
  {
    CloningParts(kernel, v0, ram0, v, ram, d, tables, 1024);
    hide Sound, RamKept, Grows, CopiedTable, InWindow;
    var window := v0.tables[kernel];
    PlacesFilled(v0, kernel, d, 0);
    forall i | 0 <= i < 1024
      ensures tables[i] != null ==> tables[i] in v.pages && (tables[i] == window[i] || tables[i] !in v0.pages)
      ensures v0.tables[d][i] != null && v0.tables[d][i] == window[i] ==> tables[i] == window[i]
    {
      CopiedThere(tables[i], v0.tables[d][i], window[i], window, v0, v, ram0, ram);
      CopiedWhich(tables[i], v0.tables[d][i], window[i], v0, v, ram0, ram);
    }
    assert WindowOf(v0.tables[d], window) by { WindowsMatch(v0, kernel, d); }
  }

  /** A finished copy: what it has of the original, and what it leaves alone. */
  ghost predicate Cloned(kernel: Directory, v0: View, ram0: seq<seq<int>>, v: View, ram: seq<seq<int>>,
                         d: Directory, e: Directory)
    requires kernel in v0.tables && |v0.tables[kernel]| == 1024 && d in v0.tables && |v0.tables[d]| == 1024
    requires e in v.tables && |v.tables[e]| == 1024
  {
    && (forall i :: 0 <= i < 1024 ==>
          CopiedTable(v.tables[e][i], v0.tables[d][i], v0.tables[kernel][i], v0, v, ram0, ram))
    && RamKept(v0.marks, ram0, ram) && Fills(v0.pages, v.pages)
    && (forall t :: t in v0.pages && (t !in v.pages || v.pages[t] != v0.pages[t]) ==> InWindow(v0.tables[kernel], t))
    && v.tables == v0.tables[e := v.tables[e]]
  }

  lemma CloningDone(kernel: Directory, v0: View, ram0: seq<seq<int>>, v: View, ram: seq<seq<int>>, d: Directory,
                    e: Directory, tables: seq<Table?>, physical: seq<int>)
    requires Cloning(kernel, v0, ram0, v, ram, d, tables, 1024) && Sound(v0, kernel) && Sound(v, kernel)
    requires e !in v.tables && Mirrors(tables, physical) && Settled(v, kernel, e)
    ensures kernel in v0.tables && |v0.tables[kernel]| == 1024 && d in v0.tables && |v0.tables[d]| == 1024 == |tables|
    ensures Sound(WithDirectory(v, e, tables, physical), kernel)
    ensures Cloned(kernel, v0, ram0, WithDirectory(v, e, tables, physical), ram, d, e)
  {
    hide Sound, RamKept, CopiedPages, Fills, InWindow, Joins, Mirrors, Settled;
    CloningParts(kernel, v0, ram0, v, ram, d, tables, 1024);
    CloningJoins(kernel, v0, ram0, v, ram, d, tables);
    DirectoryAdded(v, v0, kernel, e, tables, physical);
    var v' := WithDirectory(v, e, tables, physical);
    forall i | 0 <= i < 1024
      ensures CopiedTable(v'.tables[e][i], v0.tables[d][i], v0.tables[kernel][i], v0, v', ram0, ram)
    {
      assert CopiedTable(tables[i], v0.tables[d][i], v0.tables[kernel][i], v0, v, ram0, ram);
    }
  }

  /** What a finished copy means at an address: nothing where there was no table; the very same entry
      where the table is the kernel's; else an empty entry for an unmapped page, and for a mapped one
      the same flags and the same contents in a frame that nobody had, the original being untouched. */
  lemma CloneAt(kernel: Directory, v0: View, ram0: seq<seq<int>>, v: View, ram: seq<seq<int>>, d: Directory, e: Directory,
                a: nat)
    requires Sound(v0, kernel) && Sound(v, kernel) && d in v0.tables && e in v.tables && a < 0x1_0000_0000
    requires kernel in v0.tables && |v0.tables[kernel]| == |v0.tables[d]| == |v.tables[e]| == 1024
    requires Cloned(kernel, v0, ram0, v, ram, d, e)
    ensures TableOf(a) < 1024
    ensures var t, t' := v0.tables[d][TableOf(a)], v.tables[e][TableOf(a)];
      if t == null || t == v0.tables[kernel][TableOf(a)] then t' == t
      else
        && t' != null && t' in v.pages && t in v.pages && t in v0.pages && t' !in v0.pages
        && |v0.pages[t]| == |v.pages[t]| == |v.pages[t']| == 1024
        && var p0, p, p' := v0.pages[t][SlotOf(a)], v.pages[t][SlotOf(a)], v.pages[t'][SlotOf(a)];
        && p == p0
        && if p0.frame == 0 then p' == Page(false, false, false, false, false, 0)
           else
             && p'.frame != 0 && p'.frame !in v0.marks && p' == p.(frame := p'.frame)
             && p.frame < |ram0| == |ram| && p'.frame < |ram|
             && ram[p'.frame] == ram0[p.frame] == ram[p.frame]
  {
    hide WindowMapped, Homes, Apart, Owned, Shared, Linked, Fills, InWindow, SlotOf;
    assert TableOf(a) < 1024 by { assert a / 0x1000 < 0x10_0000; }
    hide TableOf;
    var i := TableOf(a);
    var t := v0.tables[d][i];
    assert CopiedTable(v.tables[e][i], t, v0.tables[kernel][i], v0, v, ram0, ram);
    PlacesFilled(v0, kernel, d, i);
    if t != null && t != v0.tables[kernel][i] {
      assert t in v0.pages && !InWindow(v0.tables[kernel], t);
      OwnedFull(v0);
      OwnedFull(v);
      assert CopiedEntry(v.pages[v.tables[e][i]][SlotOf(a)], v0.pages[t][SlotOf(a)], v0.marks, ram0, ram);
      if v0.pages[t][SlotOf(a)].frame != 0 {
        FrameMarked(v0, t, SlotOf(a));
      }
    }
  }

  lemma ClonedFills(kernel: Directory, v0: View, ram0: seq<seq<int>>, v: View, ram: seq<seq<int>>, d: Directory, e: Directory)
    requires kernel in v0.tables && |v0.tables[kernel]| == 1024 && d in v0.tables && |v0.tables[d]| == 1024
    requires e in v.tables && |v.tables[e]| == 1024 && Cloned(kernel, v0, ram0, v, ram, d, e)
    ensures Fills(v0.pages, v.pages)
  {
  }

  lemma CopiedWhich(t': Table?, t: Table?, kernels: Table?, v: View, v': View, ram: seq<seq<int>>, ram': seq<seq<int>>)
    requires CopiedTable(t', t, kernels, v, v', ram, ram')
    ensures t' == null || t' == kernels || t' !in v.pages
  {
  }

  lemma WindowsMatch(v: View, kernel: Directory, d: Directory)
    requires Sound(v, kernel) && d in v.tables
    ensures |v.tables[d]| == |v.tables[kernel]| == 1024 && WindowOf(v.tables[d], v.tables[kernel])
  {
  }

  lemma AddedLinked(v: View, v0: View, kernel: Directory, d: Directory, tables: seq<Table?>, physical: seq<int>)
    requires Linked(v) && d !in v.tables && kernel in v.tables && |v.tables[kernel]| == 1024
    requires Joins(v, v0, kernel, tables) && Mirrors(tables, physical)
    ensures Linked(WithDirectory(v, d, tables, physical))
  {
    hide Mirrors;
  }

  lemma AddedShared(v: View, v0: View, kernel: Directory, d: Directory, tables: seq<Table?>)
    requires Shared(v.tables, kernel) && Linked(v0) && v.tables == v0.tables && d !in v.tables
    requires Joins(v, v0, kernel, tables)
    ensures Shared(v.tables[d := tables], kernel)
  {
    hide Mirrors;
    var tables', kernels := v.tables[d := tables], v.tables[kernel];
    assert OnePlace(tables, tables, kernels, true);
    forall e | e in v.tables
      ensures OnePlace(tables, v.tables[e], kernels, false) && OnePlace(v.tables[e], tables, kernels, false)
    {
      assert forall j :: 0 <= j < 1024 && v0.tables[e][j] != null ==> v0.tables[e][j] in v0.pages;
    }
    hide OnePlace, Linked;
  }

  /** The state with a table put in an empty place of a directory. */
  ghost function Attached(v: View, d: Directory, i: nat, t: Table): View
    requires d in v.tables && d in v.physical && i < |v.tables[d]| && i < |v.physical[d]|
  {
    v.(tables := v.tables[d := v.tables[d][i := t]], physical := v.physical[d := v.physical[d][i := EntryFor(t)]])
  }

  lemma NotInDirectories(v: View, kernel: Directory, t: Table)
    requires Sound(v, kernel) && t !in v.pages
    ensures forall d :: d in v.tables ==> t !in v.tables[d]
    ensures forall d :: d in v.tables ==> d in v.physical && |v.tables[d]| == |v.physical[d]| == 1024
  {
    hide WindowMapped, Homes, Owned, Apart;
    forall d | d in v.tables ensures t !in v.tables[d] {
      assert Mirrors(v.tables[d], v.physical[d]);
    }
  }

  lemma AttachedLinked(v: View, d: Directory, i: nat, t: Table)
    requires Linked(v) && d in v.tables && i < 1024 && |v.tables[d]| == |v.physical[d]| == 1024
    requires v.tables[d][i] == null && t in v.pages
    ensures Linked(Attached(v, d, i, t))
  {
    hide EntryFor;
    var v' := Attached(v, d, i, t);
    assert Mirrors(v'.tables[d], v'.physical[d]) by { assert Mirrors(v.tables[d], v.physical[d]); }
    hide Mirrors;
  }

  /** A table of no directory, put where there was none. */
  lemma AttachedSound(v: View, kernel: Directory, d: Directory, i: nat, t: Table)
    requires Sound(v, kernel) && d in v.tables && d in v.physical && i < 1024 && |v.tables[d]| == |v.physical[d]| == 1024
    requires v.tables[d][i] == null && t in v.pages
    requires forall e :: e in v.tables ==> t !in v.tables[e]
    ensures Sound(Attached(v, d, i, t), kernel)
  {
    hide FrameAt, Owned, Apart, WindowMapped, Homes, Linked, Shared;
    var v' := Attached(v, d, i, t);
    AttachedShared(v.tables, kernel, d, i, t);
    AttachedLinked(v, d, i, t);
    SoundParts(v, kernel);
    AttachedFrames(v.tables[kernel], v'.tables[kernel], v.pages, v.heapEnd, v.used, v.tables.Keys);
    assert v'.tables.Keys == v.tables.Keys;
  }

  lemma AttachedPlaces(s: seq<Table?>, s': seq<Table?>, r: seq<Table?>, r': seq<Table?>, k: seq<Table?>, k': seq<Table?>,
                       i: nat, t: Table, same: bool)
    requires |s| == |r| == |k| == 1024 && i < 1024 && OnePlace(s, r, k, same)
    requires t !in s && t !in r && t !in k
    requires s' == s || (s[i] == null && s' == s[i := t])
    requires r' == r || (r[i] == null && r' == r[i := t])
    requires k' == k || (k[i] == null && k' == k[i := t])
    requires if same then s == r && s' == r' else s' == s || r' == r
    ensures OnePlace(s', r', k', same)
  {
  }

  lemma AttachedShared(tables: map<Directory, seq<Table?>>, kernel: Directory, d: Directory, i: nat, t: Table)
    requires Shared(tables, kernel) && d in tables && i < 1024 && tables[d][i] == null
    requires forall e :: e in tables ==> t !in tables[e]
    ensures Shared(tables[d := tables[d][i := t]], kernel)
  {
    hide OnePlace;
    var tables' := tables[d := tables[d][i := t]];
    forall e, f | e in tables' && f in tables' ensures OnePlace(tables'[e], tables'[f], tables'[kernel], e == f) {
      AttachedPlaces(tables[e], tables'[e], tables[f], tables'[f], tables[kernel], tables'[kernel], i, t, e == f);
    }
    assert !HeapTable(i) by { assert WindowOf(tables[d], tables[kernel]); }
    forall e | e in tables' ensures WindowOf(tables'[e], tables'[kernel]) {
      assert WindowOf(tables[e], tables[kernel]);
    }
  }

  /** Neither a new table nor new frames change what was mapped. */
  lemma MappedStays(tables: seq<Table?>, tables': seq<Table?>, pages: PageMap, pages': PageMap, a: nat)
    requires |tables| == |tables'| == 1024 && Fills(pages, pages') && FrameAt(tables, pages, a) != 0
    requires forall i :: 0 <= i < 1024 && tables[i] != null ==> tables'[i] == tables[i]
    ensures FrameAt(tables', pages', a) == FrameAt(tables, pages, a)
  {
    var t := tables[TableOf(a)];
    assert pages[t][SlotOf(a)].frame != 0;
  }

  /** What a directory mapped, it maps still. */
  ghost predicate MapsStill(tables: seq<Table?>, pages: PageMap, tables': seq<Table?>, pages': PageMap)
    requires |tables| == |tables'| == 1024 && Full(pages) && Full(pages')
  {
    forall a: nat :: FrameAt(tables, pages, a) != 0 ==> FrameAt(tables', pages', a) == FrameAt(tables, pages, a)
  }

  lemma StillMapped(tables: seq<Table?>, tables': seq<Table?>, pages: PageMap, pages': PageMap)
    requires |tables| == |tables'| == 1024 && Fills(pages, pages')
    requires forall i :: 0 <= i < 1024 && tables[i] != null ==> tables'[i] == tables[i]
    ensures Full(pages) && Full(pages') && MapsStill(tables, pages, tables', pages')
  {
    forall a: nat | FrameAt(tables, pages, a) != 0 ensures FrameAt(tables', pages', a) == FrameAt(tables, pages, a) {
      MappedStays(tables, tables', pages, pages', a);
    }
  }

  lemma StillTwice(tables: seq<Table?>, pages: PageMap, tables1: seq<Table?>, pages1: PageMap, tables2: seq<Table?>, pages2: PageMap)
    requires |tables| == |tables1| == |tables2| == 1024 && Full(pages) && Full(pages1) && Full(pages2)
    requires MapsStill(tables, pages, tables1, pages1) && MapsStill(tables1, pages1, tables2, pages2)
    ensures MapsStill(tables, pages, tables2, pages2)
  {
    hide FrameAt;
  }

  ghost predicate AllMapped(tables: seq<Table?>, pages: PageMap, start: nat, end: nat)
    requires |tables| == 1024 && Full(pages)
  {
    forall a: nat :: start <= a < end ==> FrameAt(tables, pages, a) != 0
  }

  lemma MoreMapped(tables: seq<Table?>, pages: PageMap, tables': seq<Table?>, pages': PageMap, start: nat, i: nat)
    requires |tables| == |tables'| == 1024 && Full(pages) && Full(pages') && MapsStill(tables, pages, tables', pages')
    requires AllMapped(tables, pages, start, i) && i % 0x1000 == 0 && FrameAt(tables', pages', i) != 0
    ensures AllMapped(tables', pages', start, i + 0x1000)
  {
    hide TableOf, SlotOf;
    forall a: nat | i <= a < i + 0x1000 ensures FrameAt(tables', pages', a) == FrameAt(tables', pages', i) {
      SamePage(i, a);
    }
  }

  /** The entry a directory has for an address, or an empty one. */
  ghost function EntryOn(tables: seq<Table?>, pages: PageMap, a: nat): Page
    requires |tables| == 1024 && Full(pages)
  {
    var t := if a / 0x40_0000 < 1024 then tables[a / 0x40_0000] else null;
    if t != null && t in pages then pages[t][a / 0x1000 % 1024] else EMPTY
  }

  /** An entry with a frame stays, and one without gets one, to write and for user mode. */
  predicate EntryMade(p: Page, p': Page) {
    if p.frame != 0 then p' == p
    else p'.frame != 0 && p' == p.(present := true, rw := true, user := true, frame := p'.frame)
  }

  /** Entries are made from an address on up to another, and no other entry has changed, those in the heap
      windows apart that had no frame. */
  ghost predicate Opened(tables: seq<Table?>, pages: PageMap, tables': seq<Table?>, pages': PageMap, start: int, end: int)
    requires |tables| == |tables'| == 1024 && Full(pages) && Full(pages')
  {
    forall a: nat :: OpenedAt(EntryOn(tables, pages, a), EntryOn(tables', pages', a), a, start, end)
  }

  predicate OpenedAt(p: Page, p': Page, a: int, start: int, end: int) {
    if p.frame == 0 && KHEAP_START <= a < 0xE000_0000 then true
    else if start <= a < end then EntryMade(p, p')
    else p' == p
  }

  /** What that means at an address: in the range a page that had no frame is there to read and write for
      user mode, and one that had keeps its entry; outside it an entry changes only in a heap window, and
      only one without a frame. */
  lemma OpenedMeans(tables: seq<Table?>, pages: PageMap, tables': seq<Table?>, pages': PageMap, start: int, end: int, a: nat)
    requires |tables| == |tables'| == 1024 && Full(pages) && Full(pages') && Opened(tables, pages, tables', pages', start, end)
    ensures var p, p' := EntryOn(tables, pages, a), EntryOn(tables', pages', a);
      && (p.frame != 0 ==> p' == p)
      && (a / 0x1000_0000 == 12 || a / 0x1000_0000 == 13 || (start <= a < end && p.frame == 0) || p' == p)
      && (start <= a < end && p.frame == 0 && a / 0x1000_0000 != 12 && a / 0x1000_0000 != 13 ==>
            p'.frame != 0 && p'.present && p'.rw && p'.user && p'.accessed == p.accessed && p'.dirty == p.dirty)
  {
    hide EntryOn;
    assert OpenedAt(EntryOn(tables, pages, a), EntryOn(tables', pages', a), a, start, end);
  }

  lemma NoneOpened(tables: seq<Table?>, pages: PageMap, start: int)
    requires |tables| == 1024 && Full(pages)
    ensures Opened(tables, pages, tables, pages, start, start)
  {
    hide EntryOn;
  }

  lemma OpenedTwice(tables: seq<Table?>, pages: PageMap, tables1: seq<Table?>, pages1: PageMap, tables2: seq<Table?>, pages2: PageMap,
                    start: int, i: int, end: int)
    requires |tables| == |tables1| == |tables2| == 1024 && Full(pages) && Full(pages1) && Full(pages2) && start <= i <= end
    requires Opened(tables, pages, tables1, pages1, start, i) && Opened(tables1, pages1, tables2, pages2, i, end)
    ensures Opened(tables, pages, tables2, pages2, start, end)
  {
    hide EntryOn;
    forall a: nat ensures OpenedAt(EntryOn(tables, pages, a), EntryOn(tables2, pages2, a), a, start, end) {
      assert OpenedAt(EntryOn(tables, pages, a), EntryOn(tables1, pages1, a), a, start, i);
      assert OpenedAt(EntryOn(tables1, pages1, a), EntryOn(tables2, pages2, a), a, i, end);
    }
  }

  lemma SameEntry(a: nat, b: nat)
    requires a < 0x1_0000_0000
    ensures a / 0x1000 * 0x1000 <= b < a / 0x1000 * 0x1000 + 0x1000 <==> b / 0x1000 == a / 0x1000
    ensures b / 0x40_0000 == TableOf(a) && b / 0x1000 % 1024 == SlotOf(a) <==> b / 0x1000 == a / 0x1000
  {
    assert b / 0x40_0000 == b / 0x1000 / 1024;
    assert b / 0x1000 == 1024 * (b / 0x1000 / 1024) + b / 0x1000 % 1024;
    assert a / 0x1000 == 1024 * (a / 0x1000 / 1024) + a / 0x1000 % 1024;
  }

  /** Another table of the directory has changed only if it is one of the heap windows. */
  lemma OtherTable(v: View, kernel: Directory, d: Directory, pages1: PageMap, t: Table, i: nat, j: nat)
    requires Sound(v, kernel) && d in v.tables && kernel in v.tables && |v.tables[d]| == |v.tables[kernel]| == 1024
    requires i < 1024 && j < 1024 && i != j && v.tables[d][j] != null && (v.tables[d][i] == t || t !in v.pages)
    requires forall u :: u in v.pages && u in pages1 && pages1[u] != v.pages[u] ==> InWindow(v.tables[kernel], u)
    ensures var u := v.tables[d][j]; u in v.pages && u != t && (u in pages1 && pages1[u] != v.pages[u] ==> HeapTable(j))
  {
    hide WindowMapped, Homes, FrameAt, Owned, EntryFor, Apart, InOrder, NoneLost, Mirrors, WindowOf;
    var u := v.tables[d][j];
    assert OnePlace(v.tables[d], v.tables[d], v.tables[kernel], true);
    if u in pages1 && pages1[u] != v.pages[u] {
      var w :| HeapTable(w) && v.tables[kernel][w] == u;
      assert OnePlace(v.tables[d], v.tables[kernel], v.tables[kernel], d == kernel);
    }
  }

  /** A directory's table at a place, old or new, in a state in which only tables of the heap windows have
      changed besides. */
  ghost predicate TableMade(v: View, kernel: Directory, d: Directory, i: nat, t: Table, pages1: PageMap)
    requires d in v.tables && kernel in v.tables && i < |v.tables[d]| && |v.tables[kernel]| == 1024
  {
    && Full(pages1) && t in pages1
    && if v.tables[d][i] != null then v.tables[d][i] == t && pages1 == v.pages
       else t !in v.pages && pages1.Keys == v.pages.Keys + {t} && pages1[t] == EmptyPages() && Fills(v.pages, pages1)
            && forall u :: u in v.pages && pages1[u] != v.pages[u] ==> InWindow(v.tables[kernel], u)
  }

  lemma EntryOpened(v: View, kernel: Directory, d: Directory, pages1: PageMap, t: Table, a: nat, p: Page, b: nat)
    requires Sound(v, kernel) && d in v.tables && kernel in v.tables && |v.tables[d]| == |v.tables[kernel]| == 1024
    requires a < 0x1_0000_0000 && TableOf(a) < 1024 && Full(v.pages) && TableMade(v, kernel, d, TableOf(a), t, pages1)
    requires EntryMade(pages1[t][SlotOf(a)], p)
    ensures var tables', pages' := v.tables[d][TableOf(a) := t], pages1[t := pages1[t][SlotOf(a) := p]];
      Full(pages') && OpenedAt(EntryOn(v.tables[d], v.pages, b), EntryOn(tables', pages', b), b, a / 0x1000 * 0x1000, a / 0x1000 * 0x1000 + 0x1000)
  {
    hide Sound, TableOf, SlotOf, InWindow;
    AddressBits(a);
    SameEntry(a, b);
    var i, j := TableOf(a), b / 0x40_0000;
    if j < 1024 && j != i && v.tables[d][j] != null {
      OtherTable(v, kernel, d, pages1, t, i, j);
    }
  }

  /** A page of a directory mapped: its entry is made, and that is all, but for the heap windows. */
  lemma OneOpened(v: View, kernel: Directory, d: Directory, pages1: PageMap, t: Table, a: nat, p: Page)
    requires Sound(v, kernel) && d in v.tables && kernel in v.tables && |v.tables[d]| == |v.tables[kernel]| == 1024
    requires a < 0x1_0000_0000 && TableOf(a) < 1024 && Full(v.pages) && TableMade(v, kernel, d, TableOf(a), t, pages1)
    requires EntryMade(pages1[t][SlotOf(a)], p)
    ensures var tables', pages' := v.tables[d][TableOf(a) := t], pages1[t := pages1[t][SlotOf(a) := p]];
      Full(pages') && Opened(v.tables[d], v.pages, tables', pages', a / 0x1000 * 0x1000, a / 0x1000 * 0x1000 + 0x1000)
  {
    hide Sound, EntryOn, OpenedAt, TableOf, SlotOf, EntryMade;
    var tables', pages' := v.tables[d][TableOf(a) := t], pages1[t := pages1[t][SlotOf(a) := p]];
    EntryOpened(v, kernel, d, pages1, t, a, p, 0);
    forall b: nat
      ensures OpenedAt(EntryOn(v.tables[d], v.pages, b), EntryOn(tables', pages', b), b, a / 0x1000 * 0x1000, a / 0x1000 * 0x1000 + 0x1000)
    {
      EntryOpened(v, kernel, d, pages1, t, a, p, b);
    }
  }

  lemma AttachedFrames(tables: seq<Table?>, tables': seq<Table?>, pages: PageMap, end: nat, used: set<nat>,
                       directories: set<Directory>)
    requires |tables| == |tables'| == 1024 && Full(pages)
    requires forall i :: 0 <= i < 1024 && tables[i] != null ==> tables'[i] == tables[i]
    ensures WindowMapped(tables, pages, end) ==> WindowMapped(tables', pages, end)
    ensures Homes(tables, pages, used, directories) ==> Homes(tables', pages, used, directories)
  {
    hide TableOf, SlotOf;
    forall a: nat | FrameAt(tables, pages, a) != 0 ensures FrameAt(tables', pages, a) == FrameAt(tables, pages, a) {
    }
    hide FrameAt;
    if Homes(tables, pages, used, directories) {
      HomesKept(tables, tables', pages, pages, used, directories);
    }
  }
}
