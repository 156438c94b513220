/** Aligned requests one after another: when a heap serves them all. */
module HeapRoom {
  import opened Tiling
  import opened HeapLaws
  import opened HeapRuns

  /** The blocks after an aligned request, given what it takes. */
  ghost function Allotted(m: Blocks, hi: int, size: nat, w: Placement): Blocks {
    var g := Grown(m, hi, Retries(m, hi, size + TAGS, true), size + TAGS);
    if w.hole in g && 0 <= w.lead && 0 < w.taken && w.lead + w.taken <= g[w.hole].size
    then Carved(g, w.hole, w.lead, w.taken) else g
  }

  lemma AllottedIs(m: Blocks, hi: int, size: nat, w: Placement, lo: int, end: int)
    requires Carvable(Grown(m, hi, Retries(m, hi, size + TAGS, true), size + TAGS), lo, end, w.hole, w.lead, w.taken)
    ensures Allotted(m, hi, size, w)
         == Carved(Grown(m, hi, Retries(m, hi, size + TAGS, true), size + TAGS), w.hole, w.lead, w.taken)
  {
  }

  /** Aligned requests of these sizes, one after another, are all served, whatever the order of the index. */
  ghost predicate AllServed(m: Blocks, lo: int, hi: int, limit: int, sizes: seq<nat>)
    decreases |sizes|
  {
    sizes == [] ||
      (CanGrow(m, lo, hi, sizes[0] + TAGS, true)
       && forall index :: Indexes(index, m) ==>
            var w := Chosen(index, m, hi, sizes[0], true);
            && GapsHoldTags(w, true) && !Refused(index, m, hi, limit, sizes[0], true)
            && AllServed(Allotted(m, hi, sizes[0], w), lo,
                         hi + Growth(Retries(m, hi, sizes[0] + TAGS, true), sizes[0] + TAGS), limit, sizes[1..]))
  }

  /** How long a hole has to be for aligned requests of these sizes, one after another. */
  function Needed(sizes: seq<nat>): (n: nat)
    ensures TAGS <= n
  {
    if sizes == [] then TAGS else PAGE + 4 + sizes[0] + Needed(sizes[1..])
  }

  /** At least a page, and what a block of that size leaves of the next page has room for tags. */
  predicate Paged(size: nat) {
    0x1000 <= size <= 0x40_0000 && (size + 4) % 0x1000 <= 0xFF4
  }

  predicate AllPaged(sizes: seq<nat>) {
    forall i :: 0 <= i < |sizes| ==> Paged(sizes[i])
  }

  ghost predicate OthersShort(m: Blocks, h: int) {
    forall x :: x in m && m[x].hole && x != h ==> m[x].size < 0x1000
  }

  /** The hole at the end is long enough for all, and no other is long enough for any. */
  ghost predicate Roomy(m: Blocks, lo: int, hi: int, h: int, sizes: seq<nat>) {
    && Tiles(m, lo, hi) && NoAdjacentHoles(m) && h in m && m[h].hole && h + m[h].size == hi
    && OthersShort(m, h) && 0 <= h && h % 0x1000 <= 0xFF4 && Needed(sizes) <= m[h].size && AllPaged(sizes)
    && |Holes(m)| + |sizes| < INDEX_SIZE - 1
  }

  /** What such a hole gives a request, whatever the order of the index. */
  lemma RoomyChosen(m: Blocks, lo: int, hi: int, limit: int, h: int, sizes: seq<nat>, index: seq<int>)
    requires Roomy(m, lo, hi, h, sizes) && sizes != [] && hi <= limit && Indexes(index, m)
    ensures SomeHoleFits(m, sizes[0] + TAGS, true) && !Refused(index, m, hi, limit, sizes[0], true)
    ensures Chosen(index, m, hi, sizes[0], true) == Placement(h, m[h].size, AlignGap(h), sizes[0] + TAGS)
    ensures GapsHoldTags(Chosen(index, m, hi, sizes[0], true), true)
  {
    hide Tiles, NoAdjacentHoles;
    var wanted := sizes[0] + TAGS;
    assert Fits(h, m[h].size, wanted, true);
    assert forall x :: x in m && m[x].hole && x != h ==> !Fits(x, m[x].size, wanted, true);
    hide Fits;
    assert h in index;
    FirstFitFits(index, m, wanted, true);
    IndexCounts(index, m);
  }

  lemma CarvedEnd(m: Blocks, h: int, lead: int, taken: int)
    requires h in m && 0 < lead && 0 < taken && lead + taken < m[h].size
    ensures var m' := Carved(m, h, lead, taken);
      && h in m' && h + lead + taken in m' && m'[h + lead + taken] == Block(m[h].size - lead - taken, m[h].hole)
      && m'[h] == Block(lead, m[h].hole)
  {
  }

  lemma {:induction false} SubsetSize<T>(a: set<T>, b: set<T>)
    requires a <= b
    ensures |a| <= |b|
    decreases |a|
  {
    if a != {} {
      var x :| x in a;
      SubsetSize(a - {x}, b - {x});
    }
  }

  /** The holes after such a request: the one in front, the rest, and the others. */
  lemma HolesAfter(m: Blocks, h: int, lead: int, taken: int)
    requires h in m && m[h].hole && 0 < lead && 0 < taken && lead + taken < m[h].size
    ensures var m' := Carved(m, h, lead, taken);
      && (forall x :: x in m' && m'[x].hole ==>
            x == h + lead + taken || (x == h && m'[x].size == lead) || (x != h && x in m && m[x].hole && m'[x] == m[x]))
      && |Holes(m')| <= |Holes(m)| + 1
  {
    hide Carved;
    var m', h' := Carved(m, h, lead, taken), h + lead + taken;
    CarvedEnd(m, h, lead, taken);
    forall x | x in m' && m'[x].hole
      ensures x == h' || (x == h && m'[x].size == lead) || (x != h && x in m && m[x].hole && m'[x] == m[x])
    {
      CarvedParts(m, h, lead, taken, x);
    }
    assert Holes(m') <= Holes(m) + {h'};
    SubsetSize(Holes(m'), Holes(m) + {h'});
  }

  lemma OthersAfter(m: Blocks, h: int, lead: int, taken: int)
    requires h in m && m[h].hole && 0 < lead < 0x1000 && 0 < taken && lead + taken < m[h].size && OthersShort(m, h)
    ensures OthersShort(Carved(m, h, lead, taken), h + lead + taken) && |Holes(Carved(m, h, lead, taken))| <= |Holes(m)| + 1
  {
    HolesAfter(m, h, lead, taken);
    hide Carved, Holes;
  }

  lemma NextBoundary(h: int, size: nat)
    requires 0 <= h && h % 0x1000 <= 0xFF4
    ensures TAGS <= AlignGap(h) < 0x1000 && (h + AlignGap(h) + size + TAGS) % 0x1000 == (size + 4) % 0x1000
  {
    assert h + AlignGap(h) + 4 == 0x1000 * (h / 0x1000 + 1);
  }

  lemma RoomLeft(h: int, size: nat, holeSize: int, rest: int)
    requires 0 <= h && h % 0x1000 <= 0xFF4 && PAGE + 4 + size + rest <= holeSize && TAGS <= rest && Paged(size)
    ensures TAGS <= AlignGap(h) < 0x1000 && AlignGap(h) + size + TAGS + rest <= holeSize
    ensures (h + AlignGap(h) + size + TAGS) % 0x1000 <= 0xFF4
  {
    NextBoundary(h, size);
  }

  lemma RestPaged(sizes: seq<nat>)
    requires AllPaged(sizes) && sizes != []
    ensures AllPaged(sizes[1..])
  {
    hide Paged;
  }

  /** And what is left of it is such a hole for the rest. */
  lemma RoomyAfter(m: Blocks, lo: int, hi: int, h: int, sizes: seq<nat>)
    requires Roomy(m, lo, hi, h, sizes) && sizes != []
    ensures Carvable(m, lo, hi, h, AlignGap(h), sizes[0] + TAGS)
    ensures Roomy(Carved(m, h, AlignGap(h), sizes[0] + TAGS), lo, hi, h + AlignGap(h) + sizes[0] + TAGS, sizes[1..])
  {
    hide Tiles, NoAdjacentHoles, Carved, Holes, OthersShort, AlignGap, Paged;
    assert Paged(sizes[0]);
    hide AllPaged;
    var lead, taken := AlignGap(h), sizes[0] + TAGS;
    RoomLeft(h, sizes[0], m[h].size, Needed(sizes[1..]));
    CarvedTiles(m, lo, hi, h, lead, taken);
    CarvedApart(m, lo, hi, h, lead, taken);
    CarvedEnd(m, h, lead, taken);
    OthersAfter(m, h, lead, taken);
    RestPaged(sizes);
  }

  lemma NotGrown(m: Blocks, hi: int, wanted: nat)
    ensures Grown(m, hi, 0, wanted) == m
  {
  }

  lemma RoomyAllotted(m: Blocks, lo: int, hi: int, h: int, sizes: seq<nat>)
    requires Roomy(m, lo, hi, h, sizes) && sizes != []
    requires Carvable(m, lo, hi, h, AlignGap(h), sizes[0] + TAGS)
    ensures SomeHoleFits(m, sizes[0] + TAGS, true) && Growth(Retries(m, hi, sizes[0] + TAGS, true), sizes[0] + TAGS) == 0
    ensures Allotted(m, hi, sizes[0], Placement(h, m[h].size, AlignGap(h), sizes[0] + TAGS))
         == Carved(m, h, AlignGap(h), sizes[0] + TAGS)
  {
    hide Tiles, NoAdjacentHoles, Carved;
    assert Fits(h, m[h].size, sizes[0] + TAGS, true);
    NotGrown(m, hi, sizes[0] + TAGS);
  }

  lemma ServedStep(m: Blocks, lo: int, hi: int, limit: int, sizes: seq<nat>, m': Blocks)
    requires sizes != [] && CanGrow(m, lo, hi, sizes[0] + TAGS, true)
    requires Growth(Retries(m, hi, sizes[0] + TAGS, true), sizes[0] + TAGS) == 0
    requires forall index :: Indexes(index, m) ==>
               var w := Chosen(index, m, hi, sizes[0], true);
               GapsHoldTags(w, true) && !Refused(index, m, hi, limit, sizes[0], true) && Allotted(m, hi, sizes[0], w) == m'
    requires AllServed(m', lo, hi, limit, sizes[1..])
    ensures AllServed(m, lo, hi, limit, sizes)
  {
    hide CanGrow, Growth, Retries, Chosen, GapsHoldTags, Refused, Allotted, Indexes;
  }

  /** A heap that ends in a long enough hole, its other holes being short, serves them all. */
  lemma {:induction false} RoomServes(m: Blocks, lo: int, hi: int, limit: int, h: int, sizes: seq<nat>)
    requires Roomy(m, lo, hi, h, sizes) && hi <= limit
    ensures AllServed(m, lo, hi, limit, sizes)
    decreases |sizes|
  {
    if sizes != [] {
      hide Roomy, Carved, Chosen, GapsHoldTags, Refused, Allotted, Growth, Retries, SomeHoleFits, TailGrows, Indexes;
      RoomyAfter(m, lo, hi, h, sizes);
      var m' := Carved(m, h, AlignGap(h), sizes[0] + TAGS);
      RoomServes(m', lo, hi, limit, h + AlignGap(h) + sizes[0] + TAGS, sizes[1..]);
      RoomyAllotted(m, lo, hi, h, sizes);
      hide AllServed;
      forall index | Indexes(index, m)
        ensures var w := Chosen(index, m, hi, sizes[0], true);
          GapsHoldTags(w, true) && !Refused(index, m, hi, limit, sizes[0], true) && Allotted(m, hi, sizes[0], w) == m'
      {
        RoomyChosen(m, lo, hi, limit, h, sizes, index);
      }
      ServedStep(m, lo, hi, limit, sizes, m');
    }
  }
}
