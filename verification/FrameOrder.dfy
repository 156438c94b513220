/** Frames go out in order: which of them the growing window's pages get, and when two pages get two in a row. */
module FrameOrder {
  import opened PageTables

  ghost predicate Readable(tables: seq<Table?>, v: View) {
    |tables| == 1024 && Full(v.pages)
  }

  /** How many of n pages have no frame. */
  ghost function Unmapped(tables: seq<Table?>, v: View, from: nat, n: nat): (u: nat)
    requires Readable(tables, v)
    ensures u <= n
  {
    if n == 0 then 0
    else Unmapped(tables, v, from, n - 1) + if FrameAt(tables, v.pages, from + 0x1000 * (n - 1)) == 0 then 1 else 0
  }

  /** The same from one page boundary to another. */
  ghost function Bare(tables: seq<Table?>, v: View, from: nat, end: nat): nat
    requires Readable(tables, v)
  {
    if end < from then 0 else Unmapped(tables, v, from, (end - from) / 0x1000)
  }

  lemma BareNext(tables: seq<Table?>, v: View, from: nat, end: nat)
    requires Readable(tables, v) && from <= end && from % 0x1000 == 0 == end % 0x1000
    ensures Bare(tables, v, from, end + 0x1000)
            == Bare(tables, v, from, end) + if FrameAt(tables, v.pages, end) == 0 then 1 else 0
  {
    var n := (end - from) / 0x1000;
    assert (end + 0x1000 - from) / 0x1000 == n + 1 && from + 0x1000 * n == end;
  }

  lemma BoundariesApart(a: nat, b: nat)
    requires a % 0x1000 == 0 == b % 0x1000 && a < b
    ensures a + 0x1000 <= b
  {
  }

  lemma {:induction false} FewerBare(tables: seq<Table?>, v: View, from: nat, i: nat, end: nat)
    requires Readable(tables, v) && from <= i < end && from % 0x1000 == i % 0x1000 == end % 0x1000 == 0
    requires FrameAt(tables, v.pages, i) == 0
    ensures Bare(tables, v, from, i) < Bare(tables, v, from, end)
    decreases end
  {
    hide FrameAt, Bare, Full;
    BoundariesApart(i, end);
    BareNext(tables, v, from, end - 0x1000);
    if i < end - 0x1000 {
      FewerBare(tables, v, from, i, end - 0x1000);
    }
  }

  /** One page mapped, with the next frame unless it had one. */
  ghost predicate MappedOne(tables: seq<Table?>, v: View, v': View, a: nat) {
    && Readable(tables, v) && Readable(tables, v')
    && (forall b: nat :: b % 0x1000 == 0 && b != a ==> FrameAt(tables, v'.pages, b) == FrameAt(tables, v.pages, b))
    && FrameAt(tables, v'.pages, a) == (if FrameAt(tables, v.pages, a) != 0 then FrameAt(tables, v.pages, a) else v.given)
    && v'.given == v.given + if FrameAt(tables, v.pages, a) == 0 then 1 else 0
  }

  lemma FillsOne(tables: seq<Table?>, v: View, a: nat, p: Page)
    requires Readable(tables, v) && OnePlace(tables, tables, tables, true) && a % 0x1000 == 0 && TableOf(a) < 1024
    requires tables[TableOf(a)] != null && tables[TableOf(a)] in v.pages
    requires v.pages[tables[TableOf(a)]][SlotOf(a)].frame == 0 && p.frame == v.given
    ensures MappedOne(tables, v, Filled(v, tables[TableOf(a)], SlotOf(a), p), a)
  {
    var v' := Filled(v, tables[TableOf(a)], SlotOf(a), p);
    forall b: nat | b % 0x1000 == 0 && b != a ensures FrameAt(tables, v'.pages, b) == FrameAt(tables, v.pages, b) {
      if TableOf(b) == TableOf(a) {
        assert a == 0x1000 * (a / 0x1000) && b == 0x1000 * (b / 0x1000);
        assert SlotOf(b) != SlotOf(a);
      }
    }
  }

  /** The frame a page has or, when frames go in order to the pages without one from some page on, gets. */
  ghost function FrameThen(tables: seq<Table?>, v: View, from: nat, a: nat): nat
    requires Readable(tables, v)
  {
    if FrameAt(tables, v.pages, a) != 0 then FrameAt(tables, v.pages, a) else v.given + Bare(tables, v, from, a)
  }

  /** Frames have gone in order to the pages of a stretch that had none, and to no other page. */
  ghost predicate Stretched(tables: seq<Table?>, v: View, v': View, from: nat, end: nat) {
    && Readable(tables, v) && Readable(tables, v')
    && (forall a: nat :: a % 0x1000 == 0 ==>
          FrameAt(tables, v'.pages, a) == if from <= a < end then FrameThen(tables, v, from, a) else FrameAt(tables, v.pages, a))
    && v'.given == v.given + Bare(tables, v, from, end)
  }

  lemma StretchStarts(tables: seq<Table?>, v: View, from: nat)
    requires Readable(tables, v)
    ensures Stretched(tables, v, v, from, from)
  {
    hide FrameAt;
  }

  lemma StretchedMore(tables: seq<Table?>, v0: View, v: View, v': View, from: nat, i: nat)
    requires Stretched(tables, v0, v, from, i) && MappedOne(tables, v, v', i) && from <= i && from % 0x1000 == 0 == i % 0x1000
    ensures Stretched(tables, v0, v', from, i + 0x1000)
  {
    hide FrameAt, Bare;
    BareNext(tables, v0, from, i);
    forall a: nat | a % 0x1000 == 0
      ensures FrameAt(tables, v'.pages, a)
              == if from <= a < i + 0x1000 then FrameThen(tables, v0, from, a) else FrameAt(tables, v0.pages, a)
    {
      if i < a {
        BoundariesApart(i, a);
      }
    }
  }

  /** Before its memory is granted: two pages will have two frames in a row. */
  ghost predicate InARow(tables: seq<Table?>, v: View, a: nat) {
    && Readable(tables, v)
    && var p, q := FrameAt(tables, v.pages, a), FrameAt(tables, v.pages, a + 0x1000);
    if p == 0 then q == 0
    else if q == 0 then p + 1 == v.given && Bare(tables, v, v.heapEnd, a) == 0
    else q == p + 1
  }

  lemma FrameGiven(v: View, kernel: Directory, a: nat)
    requires Sound(v, kernel) && kernel in v.tables && |v.tables[kernel]| == 1024 && Full(v.pages)
    ensures FrameAt(v.tables[kernel], v.pages, a) < v.given
  {
    hide Shared, Linked, Apart, WindowMapped, Homes;
    var t := if TableOf(a) < 1024 then v.tables[kernel][TableOf(a)] else null;
    if t != null && FrameAt(v.tables[kernel], v.pages, a) != 0 {
      FrameMarked(v, t, SlotOf(a));
    }
  }

  lemma WindowBelow(v: View, kernel: Directory, a: nat)
    requires Sound(v, kernel) && kernel in v.tables && |v.tables[kernel]| == 1024 && Full(v.pages)
    ensures v.heapEnd % 0x1000 == 0 && (KHEAP_START <= a < v.heapEnd ==> FrameAt(v.tables[kernel], v.pages, a) != 0)
  {
    hide Shared, Linked, Owned, Apart, FrameAt, Homes, InOrder;
  }

  lemma NoneBare(tables: seq<Table?>, v: View, end: nat)
    requires Readable(tables, v) && end <= v.heapEnd + 0xFFF
    ensures Bare(tables, v, v.heapEnd, end) == 0 && Bare(tables, v, v.heapEnd, v.heapEnd) == 0
  {
  }

  /** That is exactly when they have, once the window reaches over both. */
  lemma RowOfTwo(v: View, kernel: Directory, v': View, a: nat, end: nat)
    requires Sound(v, kernel) && kernel in v.tables && |v.tables[kernel]| == 1024 && Full(v.pages)
    requires Stretched(v.tables[kernel], v, v', v.heapEnd, end) && a % 0x1000 == 0 && KHEAP_START <= a
    requires a + 0x2000 <= if v.heapEnd < end then end else v.heapEnd
    ensures InARow(v.tables[kernel], v, a)
            <==> FrameAt(v.tables[kernel], v'.pages, a + 0x1000) == FrameAt(v.tables[kernel], v'.pages, a) + 1
  {
    hide FrameAt, Sound, Bare, Full;
    var tables := v.tables[kernel];
    FrameGiven(v, kernel, a);
    FrameGiven(v, kernel, a + 0x1000);
    WindowBelow(v, kernel, a);
    WindowBelow(v, kernel, a + 0x1000);
    assert (a + 0x1000) % 0x1000 == 0;
    if v.heapEnd <= a {
      BareNext(tables, v, v.heapEnd, a);
    } else {
      BoundariesApart(a, v.heapEnd);
      NoneBare(tables, v, a);
    }
  }

  /** It is not so once a frame has gone elsewhere: whatever the state, two pages over the end of the
      mapped window, of which the second has no frame yet, do not get two frames in a row. */
  lemma StraddlingFails(v: View, kernel: Directory, t: Table, i: nat, p: Page)
    requires Sound(v, kernel) && kernel in v.tables && |v.tables[kernel]| == 1024 && Full(v.pages)
    requires t in v.pages && i < 1024 && v.pages[t][i].frame == 0 && p.frame == v.given
    requires KHEAP_START < v.heapEnd && FrameAt(v.tables[kernel], Filled(v, t, i, p).pages, v.heapEnd) == 0
    ensures !InARow(v.tables[kernel], Filled(v, t, i, p), v.heapEnd - 0x1000)
  {
    var tables, v', a := v.tables[kernel], Filled(v, t, i, p), v.heapEnd - 0x1000;
    hide FrameAt, Sound, Fills, Bare, Full;
    FilledSound(v, kernel, t, i, p);
    FrameGiven(v, kernel, a);
    WindowBelow(v, kernel, a);
    BoundariesApart(KHEAP_START, v.heapEnd);
    FillingKeeps(tables, v.pages, v'.pages, v.heapEnd, v.used, {});
  }
}
