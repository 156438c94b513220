/** The simple thing a heap state stands for: blocks that tile an address range. */
module Tiling {
  import opened ByteMemory
  import opened OrderedArrays

  datatype Block = Block(size: int, hole: bool)

  /** A block for every address at which one starts. */
  type Blocks = map<int, Block>

  ghost predicate Linked(m: Blocks, hi: int, a: int)
    requires a in m
  {
    a + m[a].size == hi || a + m[a].size in m
  }

  ghost predicate Chained(m: Blocks, hi: int) {
    forall a {:trigger Linked(m, hi, a)} :: a in m ==> Linked(m, hi, a)
  }

  ghost predicate Ordered(m: Blocks) {
    forall a, b {:trigger m[a], m[b]} :: a in m && b in m && a < b ==> a + m[a].size <= b
  }

  ghost predicate Within(m: Blocks, lo: int, hi: int) {
    forall a {:trigger m[a]} :: a in m ==> lo <= a && 0 < m[a].size && a + m[a].size <= hi
  }

  /** The blocks cover `[lo, hi)` end to end, without overlap. */
  ghost predicate Tiles(m: Blocks, lo: int, hi: int) {
    lo < hi && lo in m && Within(m, lo, hi) && Chained(m, hi) && Ordered(m)
  }

  ghost predicate Touching(m: Blocks, a: int, b: int)
    requires a in m && b in m
  {
    a + m[a].size == b
  }

  ghost predicate NoAdjacentHoles(m: Blocks) {
    forall a, b :: a in m && b in m && m[a].hole && m[b].hole ==> !Touching(m, a, b)
  }

  ghost predicate AllTagged(mem: Memory, m: Blocks) {
    forall a :: a in m ==> Tagged(mem, a, m[a].size, m[a].hole)
  }

  /** The index lists the holes, each once. */
  ghost predicate Indexes(index: seq<int>, m: Blocks) {
    && Distinct(index)
    && (forall a :: a in index <==> a in m && m[a].hole)
  }

  ghost predicate Represents(mem: Memory, index: seq<int>, lo: int, hi: int, m: Blocks) {
    && Tiles(m, lo, hi)
    && NoAdjacentHoles(m)
    && AllTagged(mem, m)
    && Indexes(index, m)
  }

  /** The sizes of the blocks in use. */
  ghost function Live(m: Blocks): map<int, int> {
    map a | a in m && !m[a].hole :: m[a].size
  }

  /** Some tiling of the memory has exactly these blocks in use. */
  ghost predicate Consistent(mem: Memory, index: seq<int>, lo: int, hi: int, live: map<int, int>) {
    exists m :: Represents(mem, index, lo, hi, m) && Live(m) == live
  }

  ghost predicate InPayload(a: int, size: int, i: int) {
    a + 4 <= i < a + size - 4
  }

  /** Every byte strictly between the tags of a block in use is the same in both memories. */
  ghost predicate PayloadsKept(mem: Memory, mem': Memory, live: map<int, int>) {
    forall a, i :: a in live && InPayload(a, live[a], i) && 0 <= i < SPACE ==> mem'[i] == mem[i]
  }

  lemma PayloadsDisjoint(m: Blocks, lo: int, hi: int, a: int, b: int, i: int)
    requires Tiles(m, lo, hi) && a in Live(m) && b in Live(m) && a != b
    ensures !(InPayload(a, Live(m)[a], i) && InPayload(b, Live(m)[b], i))
  {
  }

  /** Every block but the first has one that ends where it starts. */
  lemma {:induction false} Predecessor(m: Blocks, lo: int, hi: int, from: int, a: int) returns (b: int)
    requires Tiles(m, lo, hi) && from in m && a in m && from < a
    ensures b in m && Touching(m, b, a)
    decreases a - from
  {
    assert Linked(m, hi, from);
    if from + m[from].size == a {
      b := from;
    } else {
      b := Predecessor(m, lo, hi, from + m[from].size, a);
    }
  }

  /** Every address of the range lies in a block. */
  lemma {:induction false} Covering(m: Blocks, lo: int, hi: int, from: int, i: int) returns (a: int)
    requires Tiles(m, lo, hi) && from in m && from <= i < hi
    ensures a in m && a <= i < a + m[a].size
    decreases i - from
  {
    assert Linked(m, hi, from);
    if i < from + m[from].size {
      a := from;
    } else {
      a := Covering(m, lo, hi, from + m[from].size, i);
    }
  }

  /** Two coalesced tilings with the same blocks in use give a shared address the same
      block, unless it is a hole that reaches the end of either. */
  lemma SameBlock(m1: Blocks, m2: Blocks, lo: int, hi1: int, hi2: int, a: int)
    requires Tiles(m1, lo, hi1) && Tiles(m2, lo, hi2) && NoAdjacentHoles(m1) && NoAdjacentHoles(m2)
    requires Live(m1) == Live(m2) && a in m1 && a in m2
    ensures m1[a] == m2[a] || (m1[a].hole && m2[a].hole && (a + m1[a].size == hi1 || a + m2[a].size == hi2))
  {
    assert a in Live(m1) <==> a in Live(m2);
    assert Linked(m1, hi1, a) && Linked(m2, hi2, a);
    if m1[a].hole {
      var b1, b2 := a + m1[a].size, a + m2[a].size;
      if b1 != hi1 && b2 != hi2 {
        assert Touching(m1, a, b1) && Touching(m2, a, b2);
        assert b1 in Live(m1) && b2 in Live(m2);
      }
    } else {
      assert Live(m1)[a] == Live(m2)[a];
    }
  }

  lemma BlocksAgree(m1: Blocks, m2: Blocks, lo: int, hi: int, a: int)
    requires Tiles(m1, lo, hi) && Tiles(m2, lo, hi) && NoAdjacentHoles(m1) && NoAdjacentHoles(m2)
    requires Live(m1) == Live(m2) && a in m1 && a in m2
    ensures m1[a] == m2[a]
  {
    SameBlock(m1, m2, lo, hi, hi, a);
    if m1[a].hole {
      HoleEnds(m1, lo, hi, a);
      HoleEnds(m2, lo, hi, a);
      hide NoAdjacentHoles, Linked;
      var b1, b2 := a + m1[a].size, a + m2[a].size;
      assert b1 != hi ==> b1 in Live(m1) && b1 in m2;
      assert b2 != hi ==> b2 in Live(m2) && b2 in m1;
    }
  }

  /** A hole ends at the end of the range or at a block in use. */
  lemma HoleEnds(m: Blocks, lo: int, hi: int, a: int)
    requires Tiles(m, lo, hi) && NoAdjacentHoles(m) && a in m && m[a].hole
    ensures a + m[a].size == hi || a + m[a].size in Live(m)
  {
    assert Linked(m, hi, a);
    var b := a + m[a].size;
    if b != hi {
      assert Touching(m, a, b);
    }
  }

  /** Below another block a block is followed by one. */
  lemma NextBlock(m: Blocks, lo: int, hi: int, a: int, x: int)
    requires Tiles(m, lo, hi) && a in m && x in m && a < x
    ensures a + m[a].size in m && a + m[a].size <= x
  {
    assert Linked(m, hi, a) && m[x].size > 0;
  }

  lemma NextToo(m1: Blocks, m2: Blocks, lo: int, hi: int, a: int)
    requires Tiles(m1, lo, hi) && Tiles(m2, lo, hi) && a in m1 && a in m2 && m1[a] == m2[a] && a + m1[a].size in m1
    ensures a + m1[a].size in m2 && 0 < m1[a].size
  {
    assert Linked(m2, hi, a) && m1[a + m1[a].size].size > 0;
  }

  lemma {:induction false} KeysAgree(m1: Blocks, m2: Blocks, lo: int, hi: int, a: int, x: int)
    requires Tiles(m1, lo, hi) && Tiles(m2, lo, hi) && NoAdjacentHoles(m1) && NoAdjacentHoles(m2)
    requires Live(m1) == Live(m2) && a in m1 && a in m2 && x in m1 && a <= x
    ensures x in m2 && m1[x] == m2[x]
    decreases x - a
  {
    BlocksAgree(m1, m2, lo, hi, a);
    if a < x {
      NextBlock(m1, lo, hi, a, x);
      NextToo(m1, m2, lo, hi, a);
      hide Tiles, NoAdjacentHoles, Live;
      KeysAgree(m1, m2, lo, hi, a + m1[a].size, x);
    }
  }

  /** With coalescing, the blocks in use decide every hole. */
  lemma CanonicalTiling(m1: Blocks, m2: Blocks, lo: int, hi: int)
    requires Tiles(m1, lo, hi) && Tiles(m2, lo, hi) && NoAdjacentHoles(m1) && NoAdjacentHoles(m2)
    requires Live(m1) == Live(m2)
    ensures m1 == m2
  {
    forall x | x in m1 ensures x in m2 && m1[x] == m2[x] {
      KeysAgree(m1, m2, lo, hi, lo, x);
    }
    forall x | x in m2 ensures x in m1 && m1[x] == m2[x] {
      KeysAgree(m2, m1, lo, hi, lo, x);
    }
  }

  /** The tags alone decide the blocks: a walk by header size can only find one tiling. */
  lemma {:induction false} TagsDecide(mem: Memory, m1: Blocks, m2: Blocks, lo: int, hi: int, a: int, x: int)
    requires Tiles(m1, lo, hi) && Tiles(m2, lo, hi) && AllTagged(mem, m1) && AllTagged(mem, m2)
    requires a in m1 && a in m2 && x in m1 && a <= x
    ensures x in m2 && m1[x] == m2[x]
    decreases x - a
  {
    hide Word;
    HeaderTagUnique(mem, a, m1[a].size, m1[a].hole, m2[a].size, m2[a].hole);
    assert Linked(m1, hi, a) && Linked(m2, hi, a);
    if a < x {
      TagsDecide(mem, m1, m2, lo, hi, a + m1[a].size, x);
    }
  }

  lemma RepresentationUnique(mem: Memory, m1: Blocks, m2: Blocks, lo: int, hi: int)
    requires Tiles(m1, lo, hi) && Tiles(m2, lo, hi) && AllTagged(mem, m1) && AllTagged(mem, m2)
    ensures m1 == m2
  {
    forall x | x in m1 ensures x in m2 && m1[x] == m2[x] {
      TagsDecide(mem, m1, m2, lo, hi, lo, x);
    }
    forall x | x in m2 ensures x in m1 {
      TagsDecide(mem, m2, m1, lo, hi, lo, x);
    }
  }

  lemma SingleHole(mem: Memory, index: seq<int>, lo: int, hi: int)
    requires lo < hi && Tagged(mem, lo, hi - lo, true) && index == [lo]
    ensures Represents(mem, index, lo, hi, map[lo := Block(hi - lo, true)])
  {
    var m := map[lo := Block(hi - lo, true)];
    assert forall a :: a in m ==> Linked(m, hi, a);
  }

  /** In any other tiling with the same blocks in use, a hole still starts where one did. */
  lemma StartSurvives(m: Blocks, m': Blocks, lo: int, hi: int, hi': int, a: int)
    requires Tiles(m, lo, hi) && NoAdjacentHoles(m) && a in m && m[a].hole
    requires Tiles(m', lo, hi') && a < hi' && forall x :: x in Live(m) && x < a ==> x in m' && m'[x] == m[x]
    ensures a in m'
    ensures a > lo ==> exists b :: b in Live(m) && b in m' && Touching(m', b, a) && Touching(m, b, a)
  {
    if a > lo {
      var b := Predecessor(m, lo, hi, lo, a);
      assert b in Live(m) && Linked(m', hi', b);
    }
  }

  /** When the header of a hole in front of a block in use claims more than the hole has,
      no tiling keeps the blocks in use. */
  lemma OverreachingHeader(m: Blocks, lo: int, hi: int, h: int, size: int, mem': Memory, index': seq<int>, hi': int)
    requires Tiles(m, lo, hi) && NoAdjacentHoles(m) && h in m && m[h].hole && h + m[h].size < hi <= hi'
    requires m[h].size < size && HeaderTag(mem', h, size, true)
    ensures !Consistent(mem', index', lo, hi', Live(m))
  {
    hide Word;
    assert Linked(m, hi, h) && Touching(m, h, h + m[h].size);
    assert h + m[h].size in Live(m);
    if m': Blocks :| Represents(mem', index', lo, hi', m') && Live(m') == Live(m) {
      assert forall x :: x in Live(m) ==> x in Live(m') && Live(m')[x] == Live(m)[x];
      StartSurvives(m, m', lo, hi, hi', h);
      HeaderTagUnique(mem', h, size, true, m'[h].size, m'[h].hole);
    }
  }

  /** The block at `a` cut in two, `k` bytes in. */
  ghost function Split(m: Blocks, a: int, k: int): Blocks
    requires a in m && 0 <= k <= m[a].size
  {
    if k == 0 || k == m[a].size then m
    else m[a := Block(k, m[a].hole)][a + k := Block(m[a].size - k, m[a].hole)]
  }

  lemma SplitLinked(m: Blocks, lo: int, hi: int, a: int, k: int, x: int)
    requires Tiles(m, lo, hi) && a in m && 0 < k < m[a].size && x in Split(m, a, k)
    ensures Linked(Split(m, a, k), hi, x)
  {
    var m' := Split(m, a, k);
    if x == a {
      assert m'[x].size == k && a + k in m';
    } else if x == a + k {
      assert Linked(m, hi, a);
    } else {
      assert Linked(m, hi, x);
      var y := x + m[x].size;
      assert y in m ==> y in m';
      assert m'[x] == m[x];
    }
  }

  lemma SplitTiles(m: Blocks, lo: int, hi: int, a: int, k: int)
    requires Tiles(m, lo, hi) && a in m && 0 <= k <= m[a].size
    ensures Tiles(Split(m, a, k), lo, hi)
  {
    if 0 < k < m[a].size {
      var m', b := Split(m, a, k), a + k;
      forall x | x in m' ensures lo <= x && 0 < m'[x].size && x + m'[x].size <= hi {
        assert x == b || m[x].size > 0;
      }
      forall x, y | x in m' && y in m' && x < y ensures x + m'[x].size <= y {
        SplitOrdered(m, lo, hi, a, k, x, y);
      }
      forall x | x in m' ensures Linked(m', hi, x) {
        SplitLinked(m, lo, hi, a, k, x);
      }
    }
  }

  lemma SplitOrdered(m: Blocks, lo: int, hi: int, a: int, k: int, x: int, y: int)
    requires Tiles(m, lo, hi) && a in m && 0 < k < m[a].size
    requires x in Split(m, a, k) && y in Split(m, a, k) && x < y
    ensures x + Split(m, a, k)[x].size <= y
  {
    hide Linked;
    var x0, y0 := if x == a + k then a else x, if y == a + k then a else y;
    assert m[x0].size > 0 && m[y0].size > 0;
  }

  /** A lead hole, a block of `taken` in use and a hole of what is left, in place of the hole at `a`. */
  ghost function Carved(m: Blocks, a: int, lead: int, taken: int): Blocks
    requires a in m && 0 <= lead && 0 < taken && lead + taken <= m[a].size
  {
    Split(Split(m, a, lead), a + lead, taken)[a + lead := Block(taken, false)]
  }

  ghost predicate Carvable(m: Blocks, lo: int, hi: int, a: int, lead: int, taken: int) {
    && Tiles(m, lo, hi) && NoAdjacentHoles(m) && a in m && m[a].hole
    && 0 <= lead && 0 < taken && lead + taken <= m[a].size
  }

  /** Where blocks start and end decides whether they are linked. */
  lemma RetaggedLinked(m: Blocks, hi: int, a: int, hole: bool, x: int)
    requires a in m && x in m && Linked(m, hi, x)
    ensures Linked(m[a := Block(m[a].size, hole)], hi, x)
  {
    var m' := m[a := Block(m[a].size, hole)];
    assert m'[x].size == m[x].size;
  }

  lemma RetaggedTiles(m: Blocks, lo: int, hi: int, a: int, hole: bool)
    requires Tiles(m, lo, hi) && a in m
    ensures Tiles(m[a := Block(m[a].size, hole)], lo, hi)
  {
    hide Linked;
    var m' := m[a := Block(m[a].size, hole)];
    forall x | x in m' ensures Linked(m', hi, x) {
      RetaggedLinked(m, hi, a, hole, x);
    }
    forall x | x in m' ensures x in m && m'[x].size == m[x].size {
    }
  }

  lemma CarvedTiles(m: Blocks, lo: int, hi: int, a: int, lead: int, taken: int)
    requires Carvable(m, lo, hi, a, lead, taken)
    ensures Tiles(Carved(m, a, lead, taken), lo, hi)
  {
    hide Tiles;
    var m1 := Split(m, a, lead);
    SplitTiles(m, lo, hi, a, lead);
    SplitTiles(m1, lo, hi, a + lead, taken);
    var m2 := Split(m1, a + lead, taken);
    RetaggedTiles(m2, lo, hi, a + lead, false);
  }

  lemma NothingInside(m: Blocks, lo: int, hi: int, a: int)
    requires Tiles(m, lo, hi) && a in m
    ensures forall x :: a < x < a + m[a].size ==> x !in m
  {
    forall x | x in m && a < x ensures a + m[a].size <= x {
      var block := m[x];
    }
  }

  /** What a carved list has that was there before, and what is new in it. */
  lemma CarvedParts(m: Blocks, a: int, lead: int, taken: int, x: int)
    requires a in m && 0 <= lead && 0 < taken && lead + taken <= m[a].size && x in Carved(m, a, lead, taken)
    ensures var m', e := Carved(m, a, lead, taken), a + m[a].size;
      || (x == a + lead && m'[x] == Block(taken, false))
      || (x == a && 0 < lead && m'[x] == Block(lead, m[a].hole))
      || (x == a + lead + taken < e && m'[x] == Block(e - x, m[a].hole))
      || (x != a && x in m && m'[x] == m[x])
  {
  }

  lemma CarvedStill(m: Blocks, a: int, lead: int, taken: int, x: int)
    requires a in m && 0 <= lead && 0 < taken && lead + taken <= m[a].size
    requires forall y :: a < y < a + m[a].size ==> y !in m
    ensures x == a + lead ==> x in Carved(m, a, lead, taken) && Carved(m, a, lead, taken)[x] == Block(taken, false)
    ensures x in m && x != a ==> x in Carved(m, a, lead, taken) && Carved(m, a, lead, taken)[x] == m[x]
  {
  }

  lemma CarvedLive(m: Blocks, lo: int, hi: int, a: int, lead: int, taken: int)
    requires Carvable(m, lo, hi, a, lead, taken)
    ensures Live(Carved(m, a, lead, taken)) == Live(m)[a + lead := taken]
  {
    NothingInside(m, lo, hi, a);
    hide Tiles, Carved, NoAdjacentHoles;
    var m', live := Carved(m, a, lead, taken), Live(m)[a + lead := taken];
    forall x ensures x in live <==> x in Live(m') {
      CarvedStill(m, a, lead, taken, x);
      if x in m' {
        CarvedParts(m, a, lead, taken, x);
      }
    }
    forall x | x in live ensures Live(m')[x] == live[x] {
      CarvedStill(m, a, lead, taken, x);
    }
  }

  lemma CarvedApart(m: Blocks, lo: int, hi: int, a: int, lead: int, taken: int)
    requires Carvable(m, lo, hi, a, lead, taken)
    ensures NoAdjacentHoles(Carved(m, a, lead, taken))
  {
    hide Linked, Carved;
    var m' := Carved(m, a, lead, taken);
    NothingInside(m, lo, hi, a);
    forall x, y | x in m' && y in m' && m'[x].hole && m'[y].hole ensures !Touching(m', x, y) {
      CarvedParts(m, a, lead, taken, x);
      CarvedParts(m, a, lead, taken, y);
      assert x in m && y in m ==> !Touching(m, x, y);
      assert x in m ==> !Touching(m, x, a);
      assert y in m ==> !Touching(m, a, y);
      assert m[a].size > 0;
    }
  }

  lemma CarvedTagged(mem: Memory, mem': Memory, m: Blocks, lo: int, hi: int, a: int, lead: int, taken: int)
    requires Carvable(m, lo, hi, a, lead, taken) && AllTagged(mem, m)
    requires SameOutside(mem, mem', a, a + m[a].size)
    requires lead > 0 ==> Tagged(mem', a, lead, true)
    requires Tagged(mem', a + lead, taken, false)
    requires var rest := m[a].size - lead - taken; rest > 0 ==> Tagged(mem', a + lead + taken, rest, true)
    ensures AllTagged(mem', Carved(m, a, lead, taken))
  {
    hide Word, Linked, Carved, Tagged, SameOutside, NoAdjacentHoles;
    var m' := Carved(m, a, lead, taken);
    forall x | x in m' ensures Tagged(mem', x, m'[x].size, m'[x].hole) {
      CarvedParts(m, a, lead, taken, x);
      if x in m && x != a && m'[x] == m[x] {
        TagsNeverOverlap(mem, x, m[x].size, m[x].hole);
        TaggedFrame(mem, mem', a, a + m[a].size, x, m[x].size, m[x].hole);
      }
    }
  }

  /** The index of the carved blocks: the hole stays listed only if a lead gap keeps its address. */
  lemma CarvedIndex(m: Blocks, lo: int, hi: int, a: int, lead: int, taken: int, index: seq<int>, index': seq<int>)
    requires Carvable(m, lo, hi, a, lead, taken) && Indexes(index, m) && Distinct(index')
    requires var rest, e := m[a].size - lead - taken, a + lead + taken;
      forall x :: x in index' <==> (x in index && (x != a || lead > 0)) || (x == e && rest > 0)
    ensures Indexes(index', Carved(m, a, lead, taken))
  {
    hide Tiles;
    assert forall x :: a < x < a + m[a].size ==> x !in m by {
      NothingInside(m, lo, hi, a);
    }
  }

  lemma LiveUpdated(m: Blocks, m': Blocks, k: int, size: int)
    requires Live(m') == Live(m)[k := size]
    ensures k in m' && m'[k] == Block(size, false)
    ensures forall x :: x in Live(m) && x != k ==> x in m' && m'[x] == m[x]
  {
    assert k in Live(m') && Live(m')[k] == size;
    forall x | x in Live(m) && x != k ensures x in m' && m'[x] == m[x] {
      assert x in Live(m') && Live(m')[x] == Live(m)[x];
    }
  }

  /** Whatever tiling has the block in use at `a + lead`: the gap in front of it holds two tags. */
  lemma LeadHoldsTags(m: Blocks, lo: int, hi: int, a: int, lead: int, taken: int,
                      mem': Memory, index': seq<int>, m': Blocks)
    requires Tiles(m, lo, hi) && NoAdjacentHoles(m) && a in m && m[a].hole && -4 < lead
    requires forall x :: x in m ==> m[x].size >= 8
    requires lead <= 0 ==> lo < a && a in index'
    requires Represents(mem', index', lo, hi, m') && Live(m') == Live(m)[a + lead := taken]
    ensures a in m' && 8 <= lead
  {
    hide Word, AllTagged, NoAdjacentHoles;
    LiveUpdated(m, m', a + lead, taken);
    StartSurvives(m, m', lo, hi, hi, a);
    assert m'[a].size >= 8 by {
      TaggedSize(mem', m', a);
    }
  }

  lemma TaggedSize(mem: Memory, m: Blocks, a: int)
    requires AllTagged(mem, m) && a in m && 0 < m[a].size
    ensures 8 <= m[a].size
  {
    TagsNeverOverlap(mem, a, m[a].size, m[a].hole);
  }

  lemma BlockIsThere(m: Blocks, lo: int, hi: int, a: int)
    requires Tiles(m, lo, hi) && a in m
    ensures lo <= a && 0 < m[a].size && a + m[a].size <= hi
  {
  }

  /** What follows a block in use, before the next that is known to be there. */
  lemma NextWithin(m: Blocks, lo: int, hi: int, b: int, end: int)
    requires Tiles(m, lo, hi) && b in m && b + m[b].size < end && (end == hi || end in m)
    ensures b + m[b].size in m && 0 < m[b + m[b].size].size && b + m[b].size + m[b + m[b].size].size <= end
  {
    assert Linked(m, hi, b);
    assert end != hi ==> m[end].size > 0;
  }

  lemma RestHoldsTags(m: Blocks, lo: int, hi: int, a: int, lead: int, taken: int,
                      mem': Memory, index': seq<int>, m': Blocks)
    requires Tiles(m, lo, hi) && NoAdjacentHoles(m) && a in m && m[a].hole && 0 < lead
    requires lead + taken < m[a].size
    requires Represents(mem', index', lo, hi, m') && Live(m') == Live(m)[a + lead := taken]
    ensures 8 <= m[a].size - lead - taken
  {
    hide Word, AllTagged, Tiles, NoAdjacentHoles, Indexes, Live;
    HoleEnds(m, lo, hi, a);
    LiveUpdated(m, m', a + lead, taken);
    BlockIsThere(m', lo, hi, a + lead);
    NextWithin(m', lo, hi, a + lead, a + m[a].size);
    TaggedSize(mem', m', a + lead + taken);
  }

  /** When a gap is too small for two tags, no tiling has the blocks in use. */
  lemma MisplacedBlock(m: Blocks, lo: int, hi: int, a: int, lead: int, taken: int, mem': Memory, index': seq<int>)
    requires Tiles(m, lo, hi) && NoAdjacentHoles(m) && a in m && m[a].hole && -4 < lead
    requires forall x :: x in m ==> m[x].size >= 8
    requires lead <= 0 ==> lo < a && a in index'
    requires lead < 8 || 0 < m[a].size - lead - taken < 8
    ensures !Consistent(mem', index', lo, hi, Live(m)[a + lead := taken])
  {
    hide Word, Tiles, NoAdjacentHoles, AllTagged, Live, Represents;
    if m': Blocks :| Represents(mem', index', lo, hi, m') && Live(m') == Live(m)[a + lead := taken] {
      LeadHoldsTags(m, lo, hi, a, lead, taken, mem', index', m');
      if lead >= 8 {
        RestHoldsTags(m, lo, hi, a, lead, taken, mem', index', m');
      }
    }
  }

  /** Everything from `h` up to `e` becomes one hole. */
  ghost function Coalesced(m: Blocks, h: int, e: int): Blocks {
    (map x | x in m && !(h <= x < e) :: m[x])[h := Block(e - h, true)]
  }

  ghost predicate Coalescable(m: Blocks, lo: int, hi: int, h: int, e: int) {
    && Tiles(m, lo, hi) && NoAdjacentHoles(m) && h in m && h < e
    && (e == hi || (e in m && !m[e].hole))
    && (forall x :: x in m && m[x].hole ==> !Touching(m, x, h))
  }

  lemma CoalescedTiles(m: Blocks, lo: int, hi: int, h: int, e: int)
    requires Coalescable(m, lo, hi, h, e)
    ensures Tiles(Coalesced(m, h, e), lo, hi)
  {
    var m' := Coalesced(m, h, e);
    assert lo in m';
    forall x | x in m' ensures lo <= x && 0 < m'[x].size && x + m'[x].size <= hi {
      assert m[x].size > 0;
    }
    forall x, y | x in m' && y in m' && x < y ensures x + m'[x].size <= y {
      assert m[x].size > 0 && m[y].size > 0;
    }
    forall x | x in m' ensures Linked(m', hi, x) {
      CoalescedLinked(m, lo, hi, h, e, x);
    }
  }

  lemma CoalescedLinked(m: Blocks, lo: int, hi: int, h: int, e: int, x: int)
    requires Coalescable(m, lo, hi, h, e) && x in Coalesced(m, h, e)
    ensures Linked(Coalesced(m, h, e), hi, x)
  {
    var m' := Coalesced(m, h, e);
    if x != h {
      assert Linked(m, hi, x) && m'[x] == m[x];
      var y := x + m[x].size;
      assert x < h ==> y <= h;
      assert y in m ==> y in m';
    }
  }

  lemma CoalescedTagged(mem: Memory, mem': Memory, m: Blocks, lo: int, hi: int, h: int, e: int)
    requires Tiles(m, lo, hi) && h in m && h < e && (e == hi || e in m) && AllTagged(mem, m)
    requires SameOutside(mem, mem', h, e) && Tagged(mem', h, e - h, true)
    ensures AllTagged(mem', Coalesced(m, h, e))
  {
    hide Word;
    var m' := Coalesced(m, h, e);
    forall x | x in m' ensures Tagged(mem', x, m'[x].size, m'[x].hole) {
      if x != h {
        TagsNeverOverlap(mem, x, m[x].size, m[x].hole);
        TaggedFrame(mem, mem', h, e, x, m[x].size, m[x].hole);
      }
    }
  }

  lemma CoalescedApart(m: Blocks, lo: int, hi: int, h: int, e: int)
    requires Coalescable(m, lo, hi, h, e)
    ensures NoAdjacentHoles(Coalesced(m, h, e))
  {
    var m' := Coalesced(m, h, e);
    forall x, y | x in m' && y in m' && m'[x].hole && m'[y].hole ensures !Touching(m', x, y) {
      if x != h && Touching(m', x, y) {
        assert Touching(m, x, y);
      }
    }
  }

  lemma CoalescedLive(m: Blocks, lo: int, hi: int, h: int, e: int, a: int)
    requires h in m && h <= a < e && a in m && !m[a].hole
    requires forall x :: x in m && h <= x < e && x != a ==> m[x].hole
    ensures Live(Coalesced(m, h, e)) == Live(m) - {a}
  {
    var live, live' := Live(m) - {a}, Live(Coalesced(m, h, e));
    forall x ensures x in live <==> x in live' {
      assert x in live <==> x in m && !m[x].hole && x != a;
    }
    assert live.Keys == live'.Keys;
    assert forall x :: x in live ==> live'[x] == live[x];
  }

  /** The hole at `h` gets another size, so that the range ends elsewhere. */
  ghost function Resized(m: Blocks, h: int, size: int): Blocks {
    m[h := Block(size, true)]
  }

  lemma ResizedLinked(m: Blocks, lo: int, hi: int, h: int, hi': int, x: int)
    requires Tiles(m, lo, hi) && h in m && h + m[h].size == hi && x in m
    ensures Linked(Resized(m, h, hi' - h), hi', x)
  {
    assert Linked(m, hi, x);
    assert m[h].size > 0;
  }

  lemma ResizedOrdered(m: Blocks, lo: int, hi: int, h: int, hi': int)
    requires Tiles(m, lo, hi) && h in m && h + m[h].size == hi && h < hi'
    ensures Tiles(Resized(m, h, hi' - h), lo, hi')
  {
    hide Linked;
    var m' := Resized(m, h, hi' - h);
    forall x | x in m' ensures Linked(m', hi', x) {
      ResizedLinked(m, lo, hi, h, hi', x);
    }
    forall x | x in m' ensures lo <= x && x <= h && 0 < m'[x].size && x + m'[x].size <= hi' {
      assert m[x].size > 0;
    }
    forall x, y | x in m' && y in m' && x < y ensures x + m'[x].size <= y {
      assert m[x].size > 0 && m[y].size > 0;
    }
  }

  lemma ResizedApart(m: Blocks, h: int, size: int)
    requires NoAdjacentHoles(m) && h in m && m[h].hole && forall x :: x in m ==> x <= h
    requires 0 < size
    ensures NoAdjacentHoles(Resized(m, h, size)) && Live(Resized(m, h, size)) == Live(m)
  {
    var m' := Resized(m, h, size);
    forall x, y | x in m' && y in m' && m'[x].hole && m'[y].hole ensures !Touching(m', x, y) {
      if x != h {
        assert !Touching(m, x, y);
      }
    }
  }

  lemma ResizedTiles(m: Blocks, lo: int, hi: int, h: int, hi': int)
    requires Tiles(m, lo, hi) && NoAdjacentHoles(m) && h in m && m[h].hole && h + m[h].size == hi && h < hi'
    ensures Tiles(Resized(m, h, hi' - h), lo, hi') && NoAdjacentHoles(Resized(m, h, hi' - h))
    ensures Live(Resized(m, h, hi' - h)) == Live(m)
  {
    ResizedOrdered(m, lo, hi, h, hi');
    LastStart(m, lo, hi, h);
    hide Tiles;
    ResizedApart(m, h, hi' - h);
  }

  lemma LastStart(m: Blocks, lo: int, hi: int, h: int)
    requires Tiles(m, lo, hi) && h in m && h + m[h].size == hi
    ensures forall x :: x in m ==> x <= h
  {
    hide Linked;
    forall x | x in m ensures x <= h {
      assert m[x].size > 0;
    }
  }

  lemma ExtendedLinked(m: Blocks, lo: int, hi: int, hi': int, x: int)
    requires Tiles(m, lo, hi) && hi < hi' && x in Resized(m, hi, hi' - hi)
    ensures Linked(Resized(m, hi, hi' - hi), hi', x)
  {
    if x in m && x != hi {
      assert Linked(m, hi, x);
    }
  }

  /** A new hole behind a last block in use. */
  lemma NotAtEnd(m: Blocks, lo: int, hi: int)
    requires Tiles(m, lo, hi)
    ensures hi !in m && forall x :: x in m ==> x < hi
  {
    hide Linked;
    forall x | x in m ensures x < hi {
      assert m[x].size > 0;
    }
  }

  lemma ExtendedOrdered(m: Blocks, lo: int, hi: int, hi': int)
    requires lo < hi < hi' && Within(m, lo, hi) && Ordered(m) && hi !in m
    ensures Within(Resized(m, hi, hi' - hi), lo, hi') && Ordered(Resized(m, hi, hi' - hi))
  {
  }

  lemma ExtendedChained(m: Blocks, lo: int, hi: int, hi': int)
    requires Tiles(m, lo, hi) && hi < hi'
    ensures Chained(Resized(m, hi, hi' - hi), hi')
  {
    hide Linked, Tiles;
    var m' := Resized(m, hi, hi' - hi);
    forall x | x in m' ensures Linked(m', hi', x) {
      ExtendedLinked(m, lo, hi, hi', x);
    }
  }

  lemma ExtendedLive(m: Blocks, a: int, size: int)
    requires a !in m
    ensures Live(Resized(m, a, size)) == Live(m)
  {
  }

  lemma ExtendedTiles(m: Blocks, lo: int, hi: int, hi': int)
    requires Tiles(m, lo, hi) && hi < hi' && forall a :: a in m ==> !m[a].hole
    ensures Tiles(Resized(m, hi, hi' - hi), lo, hi')
    ensures Live(Resized(m, hi, hi' - hi)) == Live(m)
  {
    NotAtEnd(m, lo, hi);
    ExtendedLive(m, hi, hi' - hi);
    ExtendedOrdered(m, lo, hi, hi');
    ExtendedChained(m, lo, hi, hi');
    hide Chained, Ordered, Within, Live;
  }

  lemma ExtendedApart(m: Blocks, lo: int, hi: int, hi': int)
    requires Tiles(m, lo, hi) && hi < hi' && forall a :: a in m ==> !m[a].hole
    ensures NoAdjacentHoles(Resized(m, hi, hi' - hi))
  {
  }
}
