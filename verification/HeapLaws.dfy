/** What the heap's operations do to its blocks, and what they rely on. */
module HeapLaws {
  import opened ByteMemory
  import opened OrderedArrays
  import opened Tiling

  const PAGE := 0x1000
  const INDEX_SIZE := 0x2_0000
  const MIN_SIZE := 0x7_0000
  const TAGS := 8  // one header and one footer

  /** What one call did: the hole it took, the gap in front, and the bytes it used. */
  datatype Placement = Placement(hole: int, holeSize: int, lead: int, taken: int)

  function U32(x: int): int { x % 0x1_0000_0000 }

  /** Rounds up to a page, one page further when already aligned. */
  function PageUp(x: nat): nat {
    x / 0x1000 * 0x1000 + PAGE
  }

  /** What a hole at `a` loses when the payload has to start on a page. */
  function AlignOffset(a: int): int {
    PAGE - (a + 4) % 0x1000
  }

  predicate Fits(a: int, size: int, wanted: int, pageAlign: bool) {
    if pageAlign then size - AlignOffset(a) >= wanted else size >= wanted
  }

  ghost predicate SomeHoleFits(m: Blocks, wanted: int, pageAlign: bool) {
    exists a :: a in m && m[a].hole && Fits(a, m[a].size, wanted, pageAlign)
  }

  /** The space in front and behind is nothing or has room for two tags. */
  predicate GapsHoldTags(w: Placement, pageAlign: bool) {
    var rest := w.holeSize - w.lead - w.taken;
    (pageAlign ==> w.lead >= TAGS) && (rest == 0 || rest >= TAGS)
  }

  /** The gap that puts the payload behind it on a page; too small or negative near the end of a page. */
  function AlignGap(a: int): int {
    PAGE - 4 - a % 0x1000
  }

  /** The bytes used: what was asked plus tags, or the whole hole when less than two tags would be left. */
  predicate TakenFor(w: Placement, size: int) {
    w.taken == if w.holeSize - (size + TAGS) < TAGS then w.holeSize else size + TAGS
  }

  /** The page boundary at `p` and as much behind it as is wanted, tags included, lie in a hole behind
      its header. */
  ghost predicate Holds(a: int, size: int, wanted: int, p: int) {
    p % 0x1000 == 0 && a + 4 < p && p - 4 + wanted <= a + size
  }

  /** There is a hole for a request: a long enough one, or one with a page boundary and room behind it. */
  ghost predicate HasRoom(m: Blocks, wanted: int, pageAlign: bool) {
    if pageAlign then exists a, p :: a in m && m[a].hole && Holds(a, m[a].size, wanted, p)
    else exists a :: a in m && m[a].hole && wanted <= m[a].size
  }

  /** The pages from an address up to another. */
  ghost function PagesBetween(lo: int, hi: int): set<int> {
    set page: int | lo <= page < hi && page % 0x1000 == 0 :: page
  }

  predicate IsHoleTag(h: Header) {
    h.magic == MAGIC && h.isHole
  }

  /** The last block is a hole, or there is no hole at all. */
  ghost predicate TailGrows(m: Blocks, hi: int) {
    (forall a :: a in m ==> !m[a].hole) || (exists a :: a in m && m[a].hole && a + m[a].size == hi)
  }

  function SizeAt(m: Memory, a: int): int {
    if 0 <= a <= SPACE - 4 then HeaderAt(m, a).size else 0
  }

  /** The order of the index: the sizes the tags hold at the moment of the comparison. */
  function HeaderLessThan(m: Memory): (int, int) -> bool {
    (a, b) => SizeAt(m, a) < SizeAt(m, b)
  }

  /** Where a hole starts that ends at an address, or the address itself. */
  ghost function MergedStart(m: Blocks, a: int): int {
    if b :| b in m && m[b].hole && b + m[b].size == a then b else a
  }

  /** Where it ends. */
  ghost function MergedEnd(m: Blocks, a: int): int
    requires a in m
  {
    var e := a + m[a].size;
    if e in m && m[e].hole then e + m[e].size else e
  }

  /** The offset the end moves to when the last hole starts at offset `x`. */
  function ContractedTo(x: int): int {
    if MIN_SIZE <= x && x / 0x1000 % 2 == 0 then x else MIN_SIZE
  }

  /** No neighbour of the block is a hole. */
  ghost predicate JoinsNothing(m: Blocks, a: int)
    requires a in m
  {
    MergedStart(m, a) == a && MergedEnd(m, a) == a + m[a].size
  }

  /** The end of the range stays, or the hole that reaches it starts low enough to keep its tags. */
  ghost predicate EndKeepsTags(m: Blocks, lo: int, hi: int, a: int)
    requires a in m
  {
    MergedEnd(m, a) == hi ==> MergedStart(m, a) - lo + TAGS <= MIN_SIZE
  }

  /** The word behind the freed block, when it is the last one, looks like a hole. */
  ghost predicate FalseHoleAbove(mem: Memory, m: Blocks, hi: int, a: int)
    requires a in m && 0 <= hi <= SPACE - 4
  {
    a + m[a].size == hi && IsHoleTag(HeaderAt(mem, hi))
  }

  ghost function Freed(m: Blocks, lo: int, hi: int, a: int): Blocks
    requires a in m
  {
    var h, e := MergedStart(m, a), MergedEnd(m, a);
    var joined := Coalesced(m, h, e);
    if e == hi then Resized(joined, h, lo + MIN_SIZE - h) else joined
  }

  /** What the writes of a placement leave when every gap has room for its tags. */
  ghost predicate Written(mem: Memory, mem1: Memory, mem2: Memory, mem': Memory, w: Placement,
                          index: seq<int>, index': seq<int>) {
    var rest, b, e := w.holeSize - w.lead - w.taken, w.hole + w.lead, w.hole + w.lead + w.taken;
    && w.lead >= 0 && rest >= 0
    && (if w.lead == 0 then mem1 == mem else SameOutside(mem, mem1, w.hole, b) && Tagged(mem1, w.hole, w.lead, true))
    && SameOutside(mem1, mem2, b, e) && Tagged(mem2, b, w.taken, false)
    && (if rest == 0 then mem' == mem2 else SameOutside(mem2, mem', e, e + rest) && Tagged(mem', e, rest, true))
    && Distinct(index')
    && (forall x :: x in index' <==> (x in index && (x != w.hole || w.lead > 0)) || (x == e && rest > 0))
  }

  ghost predicate PlacementOf(w: Placement, hole: int, holeSize: int, pageAlign: bool) {
    && w.hole == hole && w.holeSize == holeSize && TAGS <= w.taken <= holeSize
    && (TAGS <= w.lead ==> w.lead + w.taken <= holeSize)
    && w.lead == (if pageAlign then AlignGap(hole) else 0)
    && (!pageAlign ==> GapsHoldTags(w, pageAlign))
  }

  ghost predicate InsertedInOrder(mem: Memory, s: seq<int>, x: int, s': seq<int>) {
    exists at: nat :: InsertionPoint(s, HeaderLessThan(mem), x, at) && s' == Inserted(s, at, x)
  }

  ghost predicate RemovedOne(s: seq<int>, s': seq<int>) {
    s' == s || exists at: nat :: at < |s| && s' == Removed(s, at)
  }

  /** In the index, and before it only smaller holes: of equal ones the newest comes first. */
  ghost predicate Foremost(index: seq<int>, m: Blocks, x: int) {
    x in m && exists i :: 0 <= i < |index| && index[i] == x
                       && forall j :: 0 <= j < i ==> index[j] in m && m[index[j]].size < m[x].size
  }

  ghost predicate SortedBySize(index: seq<int>, m: Blocks) {
    && (forall i :: 0 <= i < |index| ==> index[i] in m)
    && (forall i, j :: 0 <= i < j < |index| ==> m[index[i]].size <= m[index[j]].size)
  }

  /** How often the range grows before a hole fits: once if that is enough for the hole at its end. */
  ghost function Retries(m: Blocks, hi: int, wanted: nat, pageAlign: bool): nat {
    if SomeHoleFits(m, wanted, pageAlign) then 0
    else if Fits(MergedStart(m, hi), hi + PageUp(wanted) - MergedStart(m, hi), wanted, pageAlign) then 1
    else 2
  }

  /** How far the end moves in so many growths. */
  function Growth(times: nat, wanted: nat): nat {
    if times == 0 then 0 else PageUp(wanted) + Growth(times - 1, wanted)
  }

  /** Growing, if needed, finds the last block free and stays within what a size field can hold. */
  ghost predicate CanGrow(m: Blocks, lo: int, hi: int, wanted: nat, pageAlign: bool) {
    SomeHoleFits(m, wanted, pageAlign)
    || (TailGrows(m, hi) && hi - lo + Growth(Retries(m, hi, wanted, pageAlign), wanted) < FIELD)
  }

  /** The blocks after so many growths: what ends the range has become longer. */
  ghost function Grown(m: Blocks, hi: int, times: nat, wanted: nat): Blocks {
    if times == 0 then m else Resized(m, MergedStart(m, hi), hi + Growth(times, wanted) - MergedStart(m, hi))
  }

  /** The first hole of an index that fits. */
  ghost function FirstFit(index: seq<int>, m: Blocks, wanted: int, pageAlign: bool): int {
    if index == [] then 0
    else if index[0] in m && Fits(index[0], m[index[0]].size, wanted, pageAlign) then index[0]
    else FirstFit(index[1..], m, wanted, pageAlign)
  }

  /** What a request is given, from the state before it: the first hole of the index that fits, or
      after growth the one at the end. */
  ghost function Chosen(index: seq<int>, m: Blocks, hi: int, size: nat, pageAlign: bool): Placement {
    var wanted := size + TAGS;
    var n := Retries(m, hi, wanted, pageAlign);
    var a := if n == 0 then FirstFit(index, m, wanted, pageAlign) else MergedStart(m, hi);
    var m' := Grown(m, hi, n, wanted);
    var holeSize := if a in m' then m'[a].size else 0;
    Placement(a, holeSize, if pageAlign then AlignGap(a) else 0, if holeSize - wanted < TAGS then holeSize else wanted)
  }

  predicate LeavesRest(w: Placement) {
    w.lead + w.taken != w.holeSize
  }

  /** A request is not served: it is too large, the range would pass its limit, or an aligned one leaves
      two holes in place of one and the index is full. */
  ghost predicate Refused(index: seq<int>, m: Blocks, hi: int, limit: int, size: nat, pageAlign: bool) {
    || size > 0x40_0000 || hi + Growth(Retries(m, hi, size + TAGS, pageAlign), size + TAGS) > limit
    || (pageAlign && LeavesRest(Chosen(index, m, hi, size, pageAlign)) && |index| + 1 >= INDEX_SIZE)
  }

  /** A header has another size, a footer goes with it, and they are all that was written. */
  ghost predicate Retagged(mem: Memory, mem': Memory, header: int, size: int)
    requires 4 <= header <= SPACE - FIELD && 0 <= size < FIELD
  {
    && FooterTag(mem', header + size - 4, size)
    && (TAGS <= size ==> HeaderAt(mem', header) == HeaderAt(mem, header).(size := size))
    && forall k :: 0 <= k < SPACE && !(header <= k < header + 4) && !(header + size - 4 <= k < header + size) ==> mem'[k] == mem[k]
  }

  // Lemmas.

  /** A plain request fits a hole that is long enough, and an aligned one a hole with a page boundary that
      has room behind it. */
  lemma FitsMeans(a: int, size: int, wanted: int)
    ensures Fits(a, size, wanted, false) <==> wanted <= size
    ensures Fits(a, size, wanted, true) <==> exists p :: Holds(a, size, wanted, p)
  {
    var first := a + 4 + AlignOffset(a);
    assert first % 0x1000 == 0 && forall p :: p % 0x1000 == 0 && a + 4 < p ==> first <= p;
    assert Fits(a, size, wanted, true) ==> Holds(a, size, wanted, first);
  }

  lemma OneFits(a: int, size: int, wanted: int, pageAlign: bool)
    ensures HasRoom(map[a := Block(size, true)], wanted, pageAlign) <==> Fits(a, size, wanted, pageAlign)
  {
    FitsMeans(a, size, wanted);
    var one := map[a := Block(size, true)];
    assert a in one && one[a].hole && one[a].size == size;
    hide Fits, Holds;
  }

  /** And whether there is a hole at all. */
  lemma SomeFits(m: Blocks, wanted: int, pageAlign: bool)
    ensures SomeHoleFits(m, wanted, pageAlign) <==> HasRoom(m, wanted, pageAlign)
    ensures forall a :: a in m && m[a].hole ==> (Fits(a, m[a].size, wanted, pageAlign) <==> HasRoom(map[a := m[a]], wanted, pageAlign))
    ensures forall a :: a in m && m[a].hole && wanted <= m[a].size ==> Fits(a, m[a].size, wanted, false)
  {
    hide Fits, Holds, HasRoom;
    forall a | a in m && m[a].hole
      ensures Fits(a, m[a].size, wanted, false) <==> wanted <= m[a].size
      ensures Fits(a, m[a].size, wanted, true) <==> exists p :: Holds(a, m[a].size, wanted, p)
      ensures Fits(a, m[a].size, wanted, pageAlign) <==> HasRoom(map[a := m[a]], wanted, pageAlign)
    {
      FitsMeans(a, m[a].size, wanted);
      OneFits(a, m[a].size, wanted, pageAlign);
      assert m[a] == Block(m[a].size, true);
    }
    RoomMeans(m, wanted, pageAlign);
  }

  lemma RoomMeans(m: Blocks, wanted: int, pageAlign: bool)
    requires forall a :: a in m && m[a].hole ==> (Fits(a, m[a].size, wanted, false) <==> wanted <= m[a].size)
    requires forall a :: a in m && m[a].hole ==> (Fits(a, m[a].size, wanted, true) <==> exists p :: Holds(a, m[a].size, wanted, p))
    ensures SomeHoleFits(m, wanted, pageAlign) <==> HasRoom(m, wanted, pageAlign)
  {
    hide Fits, Holds;
  }

  lemma GapAligns(a: int)
    ensures (a + AlignGap(a) + 4) % 0x1000 == 0 && 0 < AlignGap(a) + 4 <= 0x1000
  {
  }

  lemma RetaggedBy(mem0: Memory, mem1: Memory, mem: Memory, header: int, size: int)
    requires 4 <= header <= SPACE - FIELD && SameOutside(mem0, mem1, header, header + 4)
    requires Word(mem1, header) == EncodeHeader(HeaderAt(mem0, header).(size := size))
    requires var n := HeaderAt(mem1, header).size;
      && 0 <= n < FIELD && SameOutside(mem1, mem, header + n - 4, header + n)
      && Word(mem, header + n - 4) == EncodeFooter(FooterAt(mem1, header + n - 4).(magic := MAGIC, size := n))
    ensures HeaderAt(mem1, header).size == size % 0x40_0000 && Retagged(mem0, mem, header, size % 0x40_0000)
  {
    hide Word, EncodeHeader, EncodeFooter;
    var h := HeaderAt(mem0, header);
    FieldsRoundTrip(h.(size := size), FooterAt(mem0, header));
    var n := size % 0x40_0000;
    TagWords(n, true, FooterAt(mem1, header + n - 4).padding);
    if TAGS <= n {
      WordFrame(mem1, mem, header + n - 4, header + n, header);
    }
  }

  lemma Indexed(index: seq<int>, m: Blocks, i: nat)
    requires Indexes(index, m) && i < |index|
    ensures index[i] in m && m[index[i]].hole && Distinct(index)
  {
    var a := index[i];
    assert a in index;
  }

  lemma HeaderTagSize(mem: Memory, a: int, size: int)
    requires 0 <= a <= SPACE - 4
    ensures HeaderTag(mem, a, size, true) ==> HeaderAt(mem, a).size == size
  {
    HeaderTagReads(mem, a, size, true);
  }

  lemma ThreeWrites(m0: Memory, m1: Memory, m2: Memory, m3: Memory, a: int, lead: int, taken: int, rest: int)
    requires lead >= 0 && taken >= TAGS && rest >= 0
    requires if lead == 0 then m1 == m0 else SameOutside(m0, m1, a, a + lead) && Tagged(m1, a, lead, true)
    requires SameOutside(m1, m2, a + lead, a + lead + taken) && Tagged(m2, a + lead, taken, false)
    requires var e := a + lead + taken;
      if rest == 0 then m3 == m2 else SameOutside(m2, m3, e, e + rest) && Tagged(m3, e, rest, true)
    ensures SameOutside(m0, m3, a, a + lead + taken + rest)
    ensures lead > 0 ==> Tagged(m3, a, lead, true)
    ensures Tagged(m3, a + lead, taken, false)
    ensures rest > 0 ==> Tagged(m3, a + lead + taken, rest, true)
  {
    hide Word;
    var b, e := a + lead, a + lead + taken;
    if lead > 0 {
      TagsNeverOverlap(m1, a, lead, true);
      TaggedFrame(m1, m2, b, e, a, lead, true);
    }
    if rest > 0 {
      if lead > 0 {
        TaggedFrame(m2, m3, e, e + rest, a, lead, true);
      }
      TaggedFrame(m2, m3, e, e + rest, b, taken, false);
    }
  }

  lemma AllBounds(mem: Memory, m: Blocks, lo: int, hi: int)
    requires Tiles(m, lo, hi) && AllTagged(mem, m)
    ensures forall a :: a in m ==> m[a].size >= 8
  {
    hide Word;
    forall a | a in m ensures m[a].size >= 8 {
      TaggedSize(mem, m, a);
    }
  }

  lemma PlacedBlocks(mem: Memory, mem': Memory, m: Blocks, lo: int, hi: int, w: Placement,
                     index: seq<int>, index': seq<int>)
    requires Carvable(m, lo, hi, w.hole, w.lead, w.taken) && w.holeSize == m[w.hole].size
    requires AllTagged(mem, m) && SameOutside(mem, mem', w.hole, w.hole + w.holeSize)
    requires w.lead > 0 ==> Tagged(mem', w.hole, w.lead, true)
    requires Tagged(mem', w.hole + w.lead, w.taken, false)
    requires var rest := w.holeSize - w.lead - w.taken; rest > 0 ==> Tagged(mem', w.hole + w.lead + w.taken, rest, true)
    requires Indexes(index, m) && Distinct(index')
    requires var rest, e := w.holeSize - w.lead - w.taken, w.hole + w.lead + w.taken;
      forall x :: x in index' <==> (x in index && (x != w.hole || w.lead > 0)) || (x == e && rest > 0)
    ensures Represents(mem', index', lo, hi, Carved(m, w.hole, w.lead, w.taken))
    ensures Live(Carved(m, w.hole, w.lead, w.taken)) == Live(m)[w.hole + w.lead := w.taken]
  {
    hide Word, Carved, Tiles, NoAdjacentHoles, AllTagged, Indexes, Live, Tagged;
    CarvedTiles(m, lo, hi, w.hole, w.lead, w.taken);
    CarvedApart(m, lo, hi, w.hole, w.lead, w.taken);
    CarvedLive(m, lo, hi, w.hole, w.lead, w.taken);
    CarvedTagged(mem, mem', m, lo, hi, w.hole, w.lead, w.taken);
    CarvedIndex(m, lo, hi, w.hole, w.lead, w.taken, index, index');
  }

  lemma KeepGapTag(mem: Memory, mem': Memory, a: int, size: int, start: int)
    requires SameOutside(mem, mem', a, a + size) && 4 <= start <= a && start <= SPACE
    ensures FooterAt(mem', start - 4) == FooterAt(mem, start - 4)
  {
    WordFrame(mem, mem', a, a + size, start - 4);
  }

  lemma SortedHas(index: seq<int>, m: Blocks, x: int)
    requires SortedBySize(index, m) && x in index
    ensures x in m
  {
  }

  lemma CarvedKeeps(m: Blocks, a: int, taken: int, x: int)
    requires a in m && 0 < taken <= m[a].size && x in m && !(a <= x < a + m[a].size)
    ensures x in Carved(m, a, 0, taken) && Carved(m, a, 0, taken)[x] == m[x]
  {
  }

  lemma CarvedRest(m: Blocks, a: int, taken: int)
    requires a in m && 0 < taken < m[a].size
    ensures a + taken in Carved(m, a, 0, taken)
  {
  }

  lemma SortedRemoval(index: seq<int>, m: Blocks, at: nat, m': Blocks)
    requires SortedBySize(index, m) && Distinct(index) && at < |index|
    requires forall x :: x in Removed(index, at) ==> x in m' && m'[x] == m[x]
    ensures SortedBySize(Removed(index, at), m')
  {
    hide Removed;
    var s := Removed(index, at);
    assert |s| == |index| - 1 by {
      RemovedMembers(index, at);
    }
    forall i | 0 <= i < |s|
      ensures s[i] in m' && m'[s[i]] == m[index[if i < at then i else i + 1]]
    {
      RemovedAt(index, at, i);
      var x := s[i];
      assert x in s;
    }
  }

  lemma SortedAt(index: seq<int>, m: Blocks, x: int, at: nat)
    requires SortedBySize(index, m) && x in m && at <= |index|
    requires forall i :: 0 <= i < at ==> m[index[i]].size <= m[x].size
    requires at < |index| ==> m[x].size <= m[index[at]].size
    ensures SortedBySize(Inserted(index, at, x), m)
  {
    var s := Inserted(index, at, x);
    assert forall i :: 0 <= i < |s| ==> s[i] == if i < at then index[i] else if i == at then x else index[i - 1];
  }

  lemma HeaderReads(mem: Memory, m: Blocks, a: int)
    requires AllTagged(mem, m) && a in m
    ensures 0 <= a <= SPACE - 4 && HeaderAt(mem, a) == Header(MAGIC, m[a].hole, m[a].size)
  {
    HeaderTagReads(mem, a, m[a].size, m[a].hole);
  }

  /** An ordered insertion keeps the index sorted when the tags say what the blocks are. */
  lemma SortedInsertion(mem: Memory, index: seq<int>, m: Blocks, x: int, index': seq<int>)
    requires SortedBySize(index, m) && x in m && AllTagged(mem, m) && InsertedInOrder(mem, index, x, index')
    ensures SortedBySize(index', m) && Foremost(index', m, x)
  {
    hide Word, DecodeHeader, HeaderAt, Tagged;
    var at: nat :| InsertionPoint(index, HeaderLessThan(mem), x, at) && index' == Inserted(index, at, x);
    HeaderReads(mem, m, x);
    forall i | 0 <= i < |index| ensures HeaderLessThan(mem)(index[i], x) <==> m[index[i]].size < m[x].size {
      HeaderReads(mem, m, index[i]);
    }
    SortedAt(index, m, x, at);
    assert index'[at] == x && forall j :: 0 <= j < at ==> index'[j] == index[j];
  }

  /** Which is to say that no other hole of its size comes first. */
  lemma NewestFirst(index: seq<int>, m: Blocks, x: int, i: nat, j: nat)
    requires Foremost(index, m, x) && Distinct(index) && i < |index| && j < |index| && index[i] == x
    requires i != j && index[j] in m && m[index[j]].size == m[x].size
    ensures i < j
  {
    var k: nat :| k < |index| && index[k] == x && forall l :: 0 <= l < k ==> index[l] in m && m[index[l]].size < m[x].size;
    assert k == i;
  }

  lemma SortedPlacement(mem: Memory, index: seq<int>, m: Blocks, lo: int, hi: int, at: nat, w: Placement, index': seq<int>)
    requires SortedBySize(index, m) && Distinct(index) && at < |index| && index[at] == w.hole && w.hole in m
    requires w.lead == 0 && w.holeSize == m[w.hole].size && 0 < w.taken <= w.holeSize
    requires Represents(mem, index', lo, hi, Carved(m, w.hole, 0, w.taken))
    requires forall x :: w.hole < x < w.hole + w.holeSize ==> x !in index
    requires if w.taken == w.holeSize then index' == Removed(index, at)
             else InsertedInOrder(mem, Removed(index, at), w.hole + w.taken, index')
    ensures SortedBySize(index', Carved(m, w.hole, 0, w.taken))
    ensures w.taken != w.holeSize ==> Foremost(index', Carved(m, w.hole, 0, w.taken), w.hole + w.taken)
  {
    hide Tagged, InsertedInOrder, Tiles, NoAdjacentHoles, Indexes, Removed, Carved, Distinct;
    var m' := Carved(m, w.hole, 0, w.taken);
    RemovedMembers(index, at);
    forall x | x in Removed(index, at) ensures x in m' && m'[x] == m[x] {
      SortedHas(index, m, x);
      CarvedKeeps(m, w.hole, w.taken, x);
    }
    SortedRemoval(index, m, at, m');
    if w.taken != w.holeSize {
      CarvedRest(m, w.hole, w.taken);
      SortedInsertion(mem, Removed(index, at), m', w.hole + w.taken, index');
    }
  }

  lemma BlockBounds(mem: Memory, m: Blocks, lo: int, hi: int, a: int)
    requires Tiles(m, lo, hi) && AllTagged(mem, m) && a in m
    ensures lo <= a && 8 <= m[a].size < FIELD && a + m[a].size <= hi
  {
    TaggedSize(mem, m, a);
  }

  lemma HoleAt(mem: Memory, index: seq<int>, lo: int, hi: int, m: Blocks, i: nat)
    requires Represents(mem, index, lo, hi, m) && i < |index|
    ensures var a := index[i]; a in m && m[a].hole && lo <= a && TAGS <= m[a].size < FIELD && a + m[a].size <= hi
    ensures 0 <= index[i] <= SPACE - 4 && HeaderAt(mem, index[i]) == Header(MAGIC, true, m[index[i]].size)
    ensures Distinct(index) && forall x :: index[i] < x < index[i] + m[index[i]].size ==> x !in index
    ensures index[i] + m[index[i]].size <= hi
  {
    hide Word, DecodeHeader;
    Indexed(index, m, i);
    NothingInside(m, lo, hi, index[i]);
    HeaderReads(mem, m, index[i]);
    BlockBounds(mem, m, lo, hi, index[i]);
  }

  lemma PayloadFrame(mem: Memory, mem': Memory, m: Blocks, lo: int, hi: int)
    requires SameOutside(mem, mem', lo, hi)
    requires forall a :: a in Live(m) ==> a + m[a].size <= lo || hi <= a
    ensures PayloadsKept(mem, mem', Live(m))
  {
  }

  /** A block cut from a hole is none of those in use, and leaves their payloads alone. */
  lemma CutFromHole(mem: Memory, mem': Memory, index: seq<int>, lo: int, hi: int, m: Blocks, a: int, b: int)
    requires Represents(mem, index, lo, hi, m) && a in m && m[a].hole && a <= b < a + m[a].size
    requires SameOutside(mem, mem', a, a + m[a].size)
    ensures b !in Live(m) && PayloadsKept(mem, mem', Live(m)) && SameOutside(mem, mem', lo, hi)
  {
    hide AllTagged, NoAdjacentHoles, Indexes;
    NothingInside(m, lo, hi, a);
    forall x | x in Live(m) ensures x + m[x].size <= a || a + m[a].size <= x {
      assert m[x].size > 0 && m[a].size > 0;
    }
    PayloadFrame(mem, mem', m, a, a + m[a].size);
  }

  /** The block taken has room for what was asked and two tags. */
  lemma RoomTaken(w: Placement, size: nat, pageAlign: bool)
    requires TakenFor(w, size) && Fits(w.hole, w.holeSize, size + TAGS, pageAlign)
    ensures size + 8 <= w.taken < size + 16 && (w.taken == size + 8 || w.taken == w.holeSize)
  {
  }

  lemma GapNotNegative(w: Placement, pageAlign: bool)
    requires GapsHoldTags(w, pageAlign) && (!pageAlign ==> w.lead == 0)
    ensures 0 <= w.lead && w.lead + w.taken <= w.holeSize
  {
  }

  lemma InIndex(mem: Memory, index: seq<int>, lo: int, hi: int, m: Blocks, i: nat)
    requires Represents(mem, index, lo, hi, m) && i < |index|
    ensures index[i] in m && m[index[i]] == Block(m[index[i]].size, true)
  {
    hide Word;
    HoleAt(mem, index, lo, hi, m, i);
  }

  lemma RepresentsIndex(mem: Memory, index: seq<int>, lo: int, hi: int, m: Blocks)
    requires Represents(mem, index, lo, hi, m)
    ensures Indexes(index, m)
  {
  }

  lemma OffsetAligns(a: int, offset: int)
    requires 0x1000 <= a && offset == PAGE - (a + 4) % 0x1000
    ensures offset == AlignOffset(a)
  {
  }

  /** If no entry fits, no hole does. */
  lemma NoneFits(index: seq<int>, m: Blocks, wanted: int, pageAlign: bool)
    requires Indexes(index, m)
    requires forall i :: 0 <= i < |index| ==> index[i] in m && !Fits(index[i], m[index[i]].size, wanted, pageAlign)
    ensures !SomeHoleFits(m, wanted, pageAlign)
  {
    hide Fits;
    forall a | a in m && m[a].hole ensures !Fits(a, m[a].size, wanted, pageAlign) {
      assert a in index;
    }
  }

  /** In an index sorted by size the first entry that fits is the smallest hole that does. */
  lemma SmallestFits(index: seq<int>, m: Blocks, wanted: int, pos: nat)
    requires Indexes(index, m) && SortedBySize(index, m) && pos < |index|
    requires forall i :: 0 <= i < pos ==> index[i] in m && !Fits(index[i], m[index[i]].size, wanted, false)
    ensures forall a :: a in m && m[a].hole && Fits(a, m[a].size, wanted, false) ==> m[index[pos]].size <= m[a].size
  {
    hide Fits;
    forall a | a in m && m[a].hole && Fits(a, m[a].size, wanted, false) ensures m[index[pos]].size <= m[a].size {
      assert a in index;
    }
  }

  lemma KeptTwice(mem: Memory, mem1: Memory, mem2: Memory, live: map<int, int>, lo: int, hi1: int, hi2: int)
    requires PayloadsKept(mem, mem1, live) && PayloadsKept(mem1, mem2, live)
    requires SameOutside(mem, mem1, lo, hi1) && SameOutside(mem1, mem2, lo, hi2) && hi1 <= hi2
    ensures PayloadsKept(mem, mem2, live) && SameOutside(mem, mem2, lo, hi2)
  {
  }

  /** The next page boundary. */
  lemma PageUpExceeds(x: nat)
    ensures x < PageUp(x) <= x + 0x1000 && PageUp(x) % 0x1000 == 0
  {
  }

  lemma {:induction false} FirstFitIs(index: seq<int>, m: Blocks, wanted: int, pageAlign: bool, r: nat)
    requires r < |index| && index[r] in m && Fits(index[r], m[index[r]].size, wanted, pageAlign)
    requires forall i :: 0 <= i < r ==> !(index[i] in m && Fits(index[i], m[index[i]].size, wanted, pageAlign))
    ensures FirstFit(index, m, wanted, pageAlign) == index[r]
    decreases r
  {
    hide Fits;
    if r > 0 {
      FirstFitIs(index[1..], m, wanted, pageAlign, r - 1);
    }
  }

  /** A hole is found if there is one. */
  lemma {:induction false} FirstFitFits(index: seq<int>, m: Blocks, wanted: int, pageAlign: bool)
    requires exists a :: a in index && a in m && Fits(a, m[a].size, wanted, pageAlign)
    ensures var a := FirstFit(index, m, wanted, pageAlign); a in index && a in m && Fits(a, m[a].size, wanted, pageAlign)
    decreases |index|
  {
    hide Fits;
    if !(index[0] in m && Fits(index[0], m[index[0]].size, wanted, pageAlign)) {
      assert index == [index[0]] + index[1..];
      FirstFitFits(index[1..], m, wanted, pageAlign);
    }
  }

  lemma PageUpCovers(x: nat)
    ensures x + PAGE <= PageUp(x) + PageUp(x)
  {
  }

  /** The hole that ends the range, after two growths at most, fits any request. */
  lemma TwiceIsEnough(h: int, hi: int, wanted: nat, pageAlign: bool)
    requires h <= hi
    ensures Fits(h, hi + 2 * PageUp(wanted) - h, wanted, pageAlign)
    ensures !pageAlign ==> Fits(h, hi + PageUp(wanted) - h, wanted, pageAlign)
  {
    PageUpExceeds(wanted);
    PageUpCovers(wanted);
  }

  /** A longer hole at the end and nothing else. */
  lemma TailLonger(m: Blocks, lo: int, hi: int, hi': int)
    requires Tiles(m, lo, hi) && hi < hi'
    ensures var h := MergedStart(m, hi);
      && lo <= h <= hi && MergedStart(Resized(m, h, hi' - h), hi') == h && TailGrows(Resized(m, h, hi' - h), hi')
  {
    var h := MergedStart(m, hi);
    assert h in m ==> m[h].size > 0;
    var m' := Resized(m, h, hi' - h);
    assert h in m' && m'[h].hole && h + m'[h].size == hi';
  }

  /** After growth only the hole at the end can fit. */
  lemma OnlyTailFits(m: Blocks, h: int, size: int, wanted: nat, pageAlign: bool)
    requires !SomeHoleFits(m, wanted, pageAlign)
    ensures SomeHoleFits(Resized(m, h, size), wanted, pageAlign) <==> Fits(h, size, wanted, pageAlign)
    ensures forall a :: a in Resized(m, h, size) && Resized(m, h, size)[a].hole && a != h ==>
              !Fits(a, Resized(m, h, size)[a].size, wanted, pageAlign)
  {
    var m' := Resized(m, h, size);
    assert h in m' && m'[h] == Block(size, true);
  }

  /** One growth brings the next attempt a step closer, and changes nothing of what is chosen in the end. */
  lemma GrowthHelps(m: Blocks, lo: int, hi: int, m': Blocks, hi': int, index: seq<int>, index': seq<int>, size: nat,
                    pageAlign: bool)
    requires Tiles(m, lo, hi) && !SomeHoleFits(m, size + TAGS, pageAlign) && hi' == hi + PageUp(size + TAGS)
    requires m' == Resized(m, MergedStart(m, hi), hi' - MergedStart(m, hi)) && Indexes(index', m')
    ensures TailGrows(m', hi') && MergedStart(m', hi') == MergedStart(m, hi)
    ensures Retries(m, hi, size + TAGS, pageAlign) == Retries(m', hi', size + TAGS, pageAlign) + 1
    ensures Growth(Retries(m, hi, size + TAGS, pageAlign), size + TAGS)
         == PageUp(size + TAGS) + Growth(Retries(m', hi', size + TAGS, pageAlign), size + TAGS)
    ensures Grown(m', hi', Retries(m', hi', size + TAGS, pageAlign), size + TAGS)
         == Grown(m, hi, Retries(m, hi, size + TAGS, pageAlign), size + TAGS)
    ensures Chosen(index', m', hi', size, pageAlign) == Chosen(index, m, hi, size, pageAlign)
  {
    hide PageUp, Fits, Tiles, TailGrows;
    var wanted, h := size + TAGS, MergedStart(m, hi);
    PageUpExceeds(wanted);
    TailLonger(m, lo, hi, hi');
    hide MergedStart;
    OnlyTailFits(m, h, hi' - h, wanted, pageAlign);
    TwiceIsEnough(h, hi, wanted, pageAlign);
    if SomeHoleFits(m', wanted, pageAlign) {
      assert h in m' && m'[h].hole && h in index';
      FirstFitFits(index', m', wanted, pageAlign);
    }
  }

  lemma NeedsGrowth(m: Blocks, hi: int, wanted: nat, pageAlign: bool)
    requires !SomeHoleFits(m, wanted, pageAlign)
    ensures 1 <= Retries(m, hi, wanted, pageAlign)
    ensures PageUp(wanted) <= Growth(Retries(m, hi, wanted, pageAlign), wanted)
  {
    assert Growth(2, wanted) == PageUp(wanted) + Growth(1, wanted);
  }

  /** The same, of the state that a heap represents. */
  lemma Growing(mem: Memory, index: seq<int>, lo: int, hi: int, m: Blocks,
                mem': Memory, index': seq<int>, hi': int, m': Blocks, size: nat, pageAlign: bool)
    requires Represents(mem, index, lo, hi, m) && Represents(mem', index', lo, hi', m')
    requires !SomeHoleFits(m, size + TAGS, pageAlign) && hi' == hi + PageUp(size + TAGS)
    requires m' == Resized(m, MergedStart(m, hi), hi' - MergedStart(m, hi))
    ensures TailGrows(m', hi')
    ensures Growth(Retries(m, hi, size + TAGS, pageAlign), size + TAGS)
         == PageUp(size + TAGS) + Growth(Retries(m', hi', size + TAGS, pageAlign), size + TAGS)
    ensures Grown(m', hi', Retries(m', hi', size + TAGS, pageAlign), size + TAGS)
         == Grown(m, hi, Retries(m, hi, size + TAGS, pageAlign), size + TAGS)
    ensures Chosen(index', m', hi', size, pageAlign) == Chosen(index, m, hi, size, pageAlign)
  {
    hide Retries, Growth, Grown, Chosen, Resized, MergedStart, TailGrows;
    GrowthHelps(m, lo, hi, m', hi', index, index', size, pageAlign);
  }

  /** A hole taken without growth is the chosen one. */
  lemma FirstIsChosen(index: seq<int>, m: Blocks, hi: int, size: nat, pageAlign: bool, w: Placement)
    requires SomeHoleFits(m, size + TAGS, pageAlign) && w.hole == FirstFit(index, m, size + TAGS, pageAlign)
    requires w.hole in m && w.holeSize == m[w.hole].size && TakenFor(w, size)
    requires w.lead == if pageAlign then AlignGap(w.hole) else 0
    ensures w == Chosen(index, m, hi, size, pageAlign)
    ensures Retries(m, hi, size + TAGS, pageAlign) == 0
  {
  }

  lemma FirstIsCarvable(mem: Memory, index: seq<int>, lo: int, hi: int, m: Blocks, size: nat, pageAlign: bool, w: Placement)
    requires Represents(mem, index, lo, hi, m) && SomeHoleFits(m, size + TAGS, pageAlign)
    requires w == Chosen(index, m, hi, size, pageAlign) && GapsHoldTags(w, pageAlign)
    ensures Grown(m, hi, Retries(m, hi, size + TAGS, pageAlign), size + TAGS) == m
    ensures Carvable(m, lo, hi, w.hole, w.lead, w.taken) && m[w.hole] == Block(w.holeSize, true)
  {
    hide Tiles, NoAdjacentHoles, AllTagged;
    FirstFitFits(index, m, size + TAGS, pageAlign);
  }

  /** The block above, as the tags have it. */
  lemma BlockAbove(mem: Memory, index: seq<int>, lo: int, hi: int, m: Blocks, a: int)
    requires Represents(mem, index, lo, hi, m) && a in m && a + m[a].size != hi && hi <= SPACE
    ensures var e := a + m[a].size;
      && e in m && 0 <= e <= SPACE - 4 && HeaderAt(mem, e) == Header(MAGIC, m[e].hole, m[e].size) && TAGS <= m[e].size
      && FooterTag(mem, e + m[e].size - 4, m[e].size) && (e in index <==> m[e].hole)
      && e + m[e].size <= hi && MergedEnd(m, a) == (if m[e].hole then e + m[e].size else e)
      && (MergedEnd(m, a) == hi || MergedEnd(m, a) in m)
  {
    hide Word, DecodeHeader, NoAdjacentHoles;
    var e := a + m[a].size;
    assert Linked(m, hi, a);
    assert Linked(m, hi, e);
    hide Linked, Ordered;
    BlockBounds(mem, m, lo, hi, e);
    HeaderReads(mem, m, e);
  }

  lemma NothingAbove(index: seq<int>, lo: int, hi: int, m: Blocks, a: int)
    requires Tiles(m, lo, hi) && Indexes(index, m) && a in m && a + m[a].size == hi
    ensures MergedEnd(m, a) == hi && hi !in index
  {
    NotAtEnd(m, lo, hi);
  }

  /** What the word above a block says is what the block above it is. */
  lemma AboveByHeader(mem0: Memory, mem: Memory, index: seq<int>, lo: int, hi: int, m: Blocks, h: int, a: int)
    requires Represents(mem0, index, lo, hi, m) && a in m && h in m && h <= a && hi <= SPACE - 0x2000
    requires SameOutside(mem0, mem, h, a + m[a].size) && AllTagged(mem, Coalesced(m, h, a + m[a].size))
    ensures lo <= h && h + TAGS <= a + m[a].size <= hi && HeaderTag(mem, h, a + m[a].size - h, true)
    ensures (MergedEnd(m, a) == hi || MergedEnd(m, a) in m) && Distinct(index)
    ensures var e := a + m[a].size;
      && (e == hi ==> HeaderAt(mem, e) == HeaderAt(mem0, e) && MergedEnd(m, a) == e && e !in index)
      && (e != hi ==>
            && e in m && HeaderAt(mem, e) == Header(MAGIC, m[e].hole, m[e].size) && TAGS <= m[e].size
            && FooterTag(mem, e + m[e].size - 4, m[e].size) && (e in index <==> m[e].hole)
            && e + m[e].size <= hi && MergedEnd(m, a) == if m[e].hole then e + m[e].size else e)
  {
    hide Word, DecodeHeader, MergedEnd, Linked;
    var e := a + m[a].size;
    BlockBounds(mem0, m, lo, hi, a);
    BlockBounds(mem0, m, lo, hi, h);
    assert h in Coalesced(m, h, e);
    WordFrame(mem0, mem, h, e, e);
    if e == hi {
      NothingAbove(index, lo, hi, m, a);
    } else {
      BlockAbove(mem0, index, lo, hi, m, a);
      WordFrame(mem0, mem, h, e, e + m[e].size - 4);
    }
  }

  lemma SameOutsideTwice(mem: Memory, mem1: Memory, mem2: Memory, lo: int, hi1: int, hi2: int)
    requires SameOutside(mem, mem1, lo, hi1) && SameOutside(mem1, mem2, lo, hi2) && hi1 <= hi2
    ensures SameOutside(mem, mem2, lo, hi2)
  {
  }

  lemma JoinedTags(mem: Memory, mem1: Memory, mem2: Memory, header: int, footer: int, added: int,
                   size: int, footerSize: int)
    requires HeaderTag(mem, header, size, true) && FooterTag(mem, footer, footerSize)
    requires footer == header + size + added - 4 && header + 4 <= footer && 0 <= size + added < FIELD
    requires SameOutside(mem, mem1, header, header + 4) && SameOutside(mem1, mem2, footer, footer + 4)
    requires Word(mem1, header) == EncodeHeader(HeaderAt(mem, header).(size := HeaderAt(mem, header).size + added))
    requires Word(mem2, footer) == EncodeFooter(FooterAt(mem1, footer).(size := HeaderAt(mem1, header).size))
    ensures Tagged(mem2, header, size + added, true)
  {
    hide Word, DecodeHeader, EncodeHeader, DecodeFooter, EncodeFooter;
    HeaderTagReads(mem, header, size, true);
    TagWords(size + added, true, FooterAt(mem1, footer).padding);
    HeaderTagReads(mem1, header, size + added, true);
    WordFrame(mem, mem1, header, header + 4, footer);
    FooterTagReads(mem1, footer, footerSize);
    WordFrame(mem1, mem2, footer, footer + 4, header);
  }

  lemma AllTaggedFrame(mem: Memory, mem': Memory, m: Blocks, lo: int, hi: int, a: int)
    requires AllTagged(mem, m) && SameOutside(mem, mem', lo, hi)
    requires a in m && 0 < m[a].size && (a + m[a].size <= lo || hi <= a)
    ensures Tagged(mem', a, m[a].size, m[a].hole)
  {
    TagsNeverOverlap(mem, a, m[a].size, m[a].hole);
    TaggedFrame(mem, mem', lo, hi, a, m[a].size, m[a].hole);
  }

  lemma ExtendedTagged(mem: Memory, mem': Memory, m: Blocks, lo: int, hi: int, hi': int)
    requires Tiles(m, lo, hi) && AllTagged(mem, m)
    requires SameOutside(mem, mem', hi, hi') && Tagged(mem', hi, hi' - hi, true)
    ensures AllTagged(mem', Resized(m, hi, hi' - hi))
  {
    var m' := Resized(m, hi, hi' - hi);
    forall x | x in m' ensures Tagged(mem', x, m'[x].size, m'[x].hole) {
      if x != hi {
        assert m[x].size > 0;
        AllTaggedFrame(mem, mem', m, hi, hi', x);
      }
    }
  }

  lemma RangeOrdered(m: Blocks, lo: int, hi: int)
    requires Tiles(m, lo, hi)
    ensures lo < hi
  {
  }

  lemma ExtendedIndex(index: seq<int>, m: Blocks, a: int, size: int)
    requires index == [a] && forall x :: x in m ==> !m[x].hole
    ensures Indexes(index, Resized(m, a, size))
  {
  }

  lemma ResizedTagged(mem: Memory, mem': Memory, m: Blocks, lo: int, hi: int, h: int, size: int)
    requires Tiles(m, lo, hi) && AllTagged(mem, m) && h in m && h + m[h].size == hi
    requires SameOutside(mem, mem', h, h + size) && Tagged(mem', h, size, true)
    ensures AllTagged(mem', Resized(m, h, size))
  {
    var m' := Resized(m, h, size);
    forall x | x in m' ensures Tagged(mem', x, m'[x].size, m'[x].hole) {
      if x != h {
        assert m[x].size > 0;
        AllTaggedFrame(mem, mem', m, h, h + size, x);
      }
    }
  }

  /** A last hole that reaches a new end, once its tags say so. */
  lemma ReachesEnd(mem: Memory, mem': Memory, m: Blocks, lo: int, hi: int, h: int, hi': int)
    requires Tiles(m, lo, hi) && NoAdjacentHoles(m) && AllTagged(mem, m) && h in m && m[h] == Block(hi - h, true)
    requires h < hi' && SameOutside(mem, mem', h, hi') && Tagged(mem', h, hi' - h, true) && 4 <= lo <= SPACE
    ensures var m' := Resized(m, h, hi' - h);
      Tiles(m', lo, hi') && NoAdjacentHoles(m') && AllTagged(mem', m') && Live(m') == Live(m)
    ensures FooterAt(mem', lo - 4) == FooterAt(mem, lo - 4)
  {
    BlockBounds(mem, m, lo, hi, h);
    hide Resized, Tagged, NoAdjacentHoles, AllTagged, Live, Word, DecodeFooter;
    ResizedTiles(m, lo, hi, h, hi');
    ResizedTagged(mem, mem', m, lo, hi, h, hi' - h);
    hide Tiles;
    KeepGapTag(mem, mem', h, hi' - h, lo);
  }

  lemma ContractedSize(x: int)
    ensures MIN_SIZE <= ContractedTo(x)
    ensures x + TAGS <= MIN_SIZE ==> ContractedTo(x) == MIN_SIZE
    ensures x + TAGS > MIN_SIZE ==> ContractedTo(x) < x + TAGS
  {
  }

  lemma OnePageMore(page: int, hi: int)
    requires page % 0x1000 == 0 && page < hi
    ensures PagesBetween(page - 0x1000 + 1, hi) == PagesBetween(page + 1, hi) + {page}
  {
    assert forall p {:trigger p in PagesBetween(page + 1, hi)} :: p % 0x1000 == 0 && page - 0x1000 < p < hi ==> p == page || page < p;
  }

  /** No page lies strictly between an address and the boundary below it. */
  lemma SamePages(page: int, a: int, hi: int)
    requires page % 0x1000 == 0 == hi % 0x1000 && page <= a && (a < page + 0x1000 || page + 0x1000 == hi)
    ensures a <= page + 0x1000 ==> PagesBetween(page + 1, hi) == PagesBetween(a + 1, hi)
  {
    assert forall p {:trigger p in PagesBetween(page + 1, hi)} :: p % 0x1000 == 0 && page < p ==> page + 0x1000 <= p;
  }

  lemma NoPages(lo: int, hi: int)
    requires hi % 0x1000 == 0 && hi - 0x1000 < lo
    ensures PagesBetween(lo, hi) == {}
  {
    assert forall p {:trigger p in PagesBetween(lo, hi)} :: p % 0x1000 == 0 && p < hi ==> p <= hi - 0x1000;
  }

  lemma PagesAre(lo: int, hi: int)
    ensures forall p {:trigger p in PagesBetween(lo, hi)} :: p in PagesBetween(lo, hi) <==> lo <= p < hi && p % 0x1000 == 0
  {
  }

  lemma NextPage(lo: int, page: int)
    requires page % 0x1000 == 0 && lo <= page
    ensures PagesBetween(lo, page + 0x1000) == PagesBetween(lo, page) + {page}
  {
    assert forall p {:trigger p in PagesBetween(lo, page)} :: p % 0x1000 == 0 && page <= p < page + 0x1000 ==> p == page;
  }

  /** Pages below one boundary and those from it on. */
  lemma MorePages(lo: int, mid: int, hi: int)
    requires lo <= mid <= hi
    ensures PagesBetween(lo, hi) == PagesBetween(lo, mid) + PagesBetween(mid, hi)
  {
  }

  lemma JoinBounds(m: Blocks, lo: int, hi: int, a: int)
    requires Tiles(m, lo, hi) && NoAdjacentHoles(m) && a in m && !m[a].hole
    ensures Coalescable(m, lo, hi, MergedStart(m, a), MergedEnd(m, a))
    ensures lo <= MergedStart(m, a) <= a < a + m[a].size <= MergedEnd(m, a) <= hi
  {
    var h, e, b := MergedStart(m, a), MergedEnd(m, a), a + m[a].size;
    assert Linked(m, hi, a) && (b in m ==> Linked(m, hi, b));
    assert b in m && m[b].hole ==> e == hi || (Touching(m, b, e) && e in m);
    assert b in m ==> m[b].size > 0;
    assert h != a ==> Touching(m, h, a);
  }

  lemma JoinedHoles(m: Blocks, lo: int, hi: int, a: int)
    requires Tiles(m, lo, hi) && a in m && !m[a].hole
    ensures forall x :: x in m && MergedStart(m, a) <= x < MergedEnd(m, a) && x != a ==> m[x].hole
    ensures forall x :: x in Live(m) && x != a ==> x + m[x].size <= MergedStart(m, a) || MergedEnd(m, a) <= x
  {
    var h, e, b := MergedStart(m, a), MergedEnd(m, a), a + m[a].size;
    assert b in m ==> m[b].size > 0;
    forall x | x in m && x != a && x != h && x != b ensures x + m[x].size <= h || e <= x {
      assert m[x].size > 0 && m[h].size > 0;
    }
  }

  /** The blocks after the joins. */
  lemma JoinedBlocks(mem: Memory, index: seq<int>, lo: int, hi: int, m: Blocks, a: int)
    requires Represents(mem, index, lo, hi, m) && a in m && !m[a].hole
    ensures var h, e := MergedStart(m, a), MergedEnd(m, a);
      && h in m && lo <= h <= a < e <= hi && a in Live(m)
      && Tiles(Coalesced(m, h, e), lo, hi) && NoAdjacentHoles(Coalesced(m, h, e))
      && Live(Coalesced(m, h, e)) == Live(m) - {a}
      && (forall x :: x in Live(m) && x != a ==> x + m[x].size <= h || e <= x)
  {
    hide AllTagged, Tiles, NoAdjacentHoles, Indexes, Coalesced, MergedStart, MergedEnd;
    var h, e := MergedStart(m, a), MergedEnd(m, a);
    JoinBounds(m, lo, hi, a);
    JoinedHoles(m, lo, hi, a);
    CoalescedTiles(m, lo, hi, h, e);
    CoalescedApart(m, lo, hi, h, e);
    CoalescedLive(m, lo, hi, h, e, a);
  }

  lemma MergedStartIndexed(mem: Memory, index: seq<int>, lo: int, hi: int, m: Blocks, a: int)
    requires Represents(mem, index, lo, hi, m) && a in m && !m[a].hole
    ensures a !in index && (MergedStart(m, a) != a ==> MergedStart(m, a) in index)
    ensures MergedStart(m, a) != a + m[a].size
  {
    hide AllTagged, NoAdjacentHoles, Word;
  }

  /** The index after the joins and the insertion. */
  lemma JoinedIndex(mem: Memory, index: seq<int>, lo: int, hi: int, m: Blocks, a: int, index': seq<int>)
    requires Represents(mem, index, lo, hi, m) && a in m && !m[a].hole && Distinct(index')
    requires forall x :: x in index' <==> x == MergedStart(m, a) || (x in index && x != a + m[a].size)
    ensures Indexes(index', Coalesced(m, MergedStart(m, a), MergedEnd(m, a)))
  {
    hide AllTagged, NoAdjacentHoles, Word;
  }

  lemma ResizedIndex(index: seq<int>, m: Blocks, h: int, size: int)
    requires Indexes(index, m) && h in m && m[h].hole
    ensures Indexes(index, Resized(m, h, size))
  {
  }

  /** What stays when everything written lies in the freed hole. */
  lemma FreedPayloads(mem: Memory, mem1: Memory, mem2: Memory, m: Blocks, lo: int, hi: int, a: int, h: int, e: int)
    requires SameOutside(mem, mem1, h, e) && SameOutside(mem1, mem2, h, e) && lo <= h && e <= hi
    requires forall x :: x in Live(m) && x != a ==> x + m[x].size <= h || e <= x
    ensures PayloadsKept(mem, mem2, Live(m) - {a}) && SameOutside(mem, mem2, lo, hi)
  {
  }

  /** An index entry too close to the end is no hole of any tiling. */
  lemma DanglingEntry(mem: Memory, index: seq<int>, lo: int, hi: int, live: map<int, int>, h: int)
    requires h in index && hi < h + TAGS
    ensures !Consistent(mem, index, lo, hi, live)
  {
    hide Word, Tagged, Live, NoAdjacentHoles, AllTagged;
    if m: Blocks :| Represents(mem, index, lo, hi, m) && Live(m) == live {
      TaggedSize(mem, m, h);
    }
  }

  /** Freeing without a join on the left keeps a sorted index sorted. */
  lemma SortedRelease(mem0: Memory, mem: Memory, index: seq<int>, index1: seq<int>, index': seq<int>,
                      lo: int, hi: int, m: Blocks, a: int)
    requires Represents(mem0, index, lo, hi, m) && a in m && !m[a].hole && MergedStart(m, a) == a
    requires SortedBySize(index, m) && RemovedOne(index, index1)
    requires forall x :: x in index1 <==> x in index && x != a + m[a].size
    requires AllTagged(mem, Freed(m, lo, hi, a)) && InsertedInOrder(mem, index1, a, index')
    ensures SortedBySize(index', Freed(m, lo, hi, a)) && Foremost(index', Freed(m, lo, hi, a), a)
  {
    hide Word, Tagged, InsertedInOrder, NoAdjacentHoles, Distinct;
    var m' := Freed(m, lo, hi, a);
    JoinedHoles(m, lo, hi, a);
    forall x | x in index1 ensures x in m' && m'[x] == m[x] {
      var b := a + m[a].size;
      assert x in m && m[x].hole && m[x].size > 0 && m[a].size > 0;
      assert b in m ==> m[b].size > 0;
    }
    if index1 == index {
      assert forall i :: 0 <= i < |index| ==> index[i] in index1;
    } else {
      var at: nat :| at < |index| && index1 == Removed(index, at);
      SortedRemoval(index, m, at, m');
    }
    hide Freed;
    SortedInsertion(mem, index1, m', a, index');
  }

  /** What a footer below a block says is what the block below it is. */
  lemma BelowByFooter(mem: Memory, index: seq<int>, lo: int, hi: int, m: Blocks, a: int)
    requires Represents(mem, index, lo, hi, m) && a in m && 0x100_0000 <= lo
    requires FooterAt(mem, lo - 4).magic != MAGIC
    ensures lo <= a && TAGS <= m[a].size < FIELD && a + m[a].size <= hi && Linked(m, hi, a)
    ensures MergedStart(m, a) != a ==>
              var b := MergedStart(m, a);
              && b in m && m[b].hole && lo <= b && TAGS <= m[b].size && b + m[b].size == a
              && FooterAt(mem, a - 4).magic == MAGIC && b == a - FooterAt(mem, a - 4).size
              && HeaderTag(mem, b, m[b].size, true) && HeaderAt(mem, b).isHole
    ensures MergedStart(m, a) == a ==> FooterAt(mem, a - 4).magic == MAGIC ==>
              var b := a - FooterAt(mem, a - 4).size; lo <= b && b + 4 <= a - 4 && !HeaderAt(mem, b).isHole
  {
    hide Word, DecodeHeader, DecodeFooter;
    BlockBounds(mem, m, lo, hi, a);
    if a > lo {
      var b := Predecessor(m, lo, hi, lo, a);
      BlockBounds(mem, m, lo, hi, b);
      HeaderReads(mem, m, b);
      FooterTagReads(mem, a - 4, m[b].size);
    }
  }

  lemma U32Range(x: int)
    ensures 0 <= U32(x) < SPACE
  {
  }

  lemma U32Small(x: int)
    requires 0 <= x < SPACE
    ensures U32(x) == x
  {
  }

  lemma AlignedFit(a: int, size: int, wanted: int, pageAlign: bool)
    requires Fits(a, size, wanted, pageAlign)
    ensures wanted <= size && -4 < AlignGap(a) < PAGE && (a + AlignGap(a) + 4) % 0x1000 == 0
    ensures pageAlign && TAGS <= AlignGap(a) ==> wanted + AlignGap(a) <= size
  {
  }

  lemma PlacementOutcome(mem: Memory, mem1: Memory, mem2: Memory, mem': Memory, m: Blocks, lo: int, hi: int,
                         w: Placement, pageAlign: bool, index: seq<int>, index': seq<int>)
    requires Represents(mem, index, lo, hi, m) && w.hole in m && m[w.hole].hole
    requires PlacementOf(w, w.hole, m[w.hole].size, pageAlign)
    requires pageAlign ==> lo % 0x1000 == 0 && w.hole in index'
    requires GapsHoldTags(w, pageAlign) ==> Written(mem, mem1, mem2, mem', w, index, index')
    ensures GapsHoldTags(w, pageAlign) ==>
              && 0 <= w.lead && w.lead + w.taken <= w.holeSize
              && Represents(mem', index', lo, hi, Carved(m, w.hole, w.lead, w.taken))
              && Live(Carved(m, w.hole, w.lead, w.taken)) == Live(m)[w.hole + w.lead := w.taken]
              && SameOutside(mem, mem', w.hole, w.hole + w.holeSize)
    ensures !GapsHoldTags(w, pageAlign) ==>
              !Consistent(mem', index', lo, hi, Live(m)[w.hole + w.lead := w.taken])
  {
    hide Word, Tiles, NoAdjacentHoles, AllTagged, Indexes, Live, Consistent, Carved, SameOutside, Tagged, Distinct;
    if GapsHoldTags(w, pageAlign) {
      ThreeWrites(mem, mem1, mem2, mem', w.hole, w.lead, w.taken, w.holeSize - w.lead - w.taken);
      PlacedBlocks(mem, mem', m, lo, hi, w, index, index');
    } else {
      AllBounds(mem, m, lo, hi);
      BlockBounds(mem, m, lo, hi, w.hole);
      MisplacedBlock(m, lo, hi, w.hole, w.lead, w.taken, mem', index');
    }
  }

  lemma FooterReads(mem: Memory, m: Blocks, a: int)
    requires AllTagged(mem, m) && a in m
    ensures var f := a + m[a].size - 4;
      0 <= f <= SPACE - 4 && FooterAt(mem, f).magic == MAGIC && FooterAt(mem, f).size == m[a].size
  {
    FooterTagReads(mem, a + m[a].size - 4, m[a].size);
  }

  lemma NoHolesNoIndex(index: seq<int>, m: Blocks)
    requires Indexes(index, m) && forall a :: a in m ==> !m[a].hole
    ensures |index| == 0
  {
    assert |index| > 0 ==> index[0] in index;
    assert forall a :: a !in index;
  }

  lemma TailIs(m: Blocks, lo: int, hi: int, h: int)
    requires Tiles(m, lo, hi) && h in m && m[h].hole && h + m[h].size == hi
    ensures MergedStart(m, hi) == h
  {
    var b := MergedStart(m, hi);
    assert b in m && m[b].size > 0 && m[h].size > 0;
  }

  lemma NoTail(m: Blocks, hi: int)
    requires forall a :: a in m ==> !m[a].hole
    ensures TailGrows(m, hi) && MergedStart(m, hi) == hi
  {
  }

  lemma HighestIsTail(m: Blocks, lo: int, hi: int, h: int)
    requires Tiles(m, lo, hi) && h in m && m[h].hole && forall a :: a in m && m[a].hole ==> a <= h
    ensures TailGrows(m, hi) <==> h + m[h].size == hi
  {
  }

  lemma LiveBelow(m: Blocks, lo: int, hi: int, h: int)
    requires Tiles(m, lo, hi) && (h == hi || (h in m && m[h].hole && h + m[h].size == hi))
    ensures lo <= h && forall a :: a in Live(m) ==> a + m[a].size <= h
  {
  }
}
