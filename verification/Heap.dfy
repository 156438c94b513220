/** The boundary-tag heap: allocation, release, and the movable end of its address range. */
module Heaps {
  import opened Wrappers
  import opened ByteMemory
  import opened OrderedArrays
  import opened Tiling
  import opened HeapLaws

  class Heap {
    var mem: Memory
    const index: OrderedArray<int>
    const startAddress: int
    const maxAddress: int
    var endAddress: int
    var mapped: set<int>  // pages with a frame
    ghost var blocks: Blocks

    ghost predicate Configured()
      reads this, index
    {
      && index.Valid() && index.items.Length == INDEX_SIZE
      && startAddress % 0x1000 == 0 && endAddress % 0x1000 == 0
      && 0x100_0000 <= startAddress && maxAddress <= 0xF000_0000 && endAddress <= maxAddress
      && MIN_SIZE <= endAddress - startAddress < FIELD
      && FooterAt(mem, startAddress - 4).magic != MAGIC
      && (forall page :: startAddress <= page < endAddress && page % 0x1000 == 0 ==> page in mapped)
    }

    ghost predicate Valid()
      reads this, index, index.items
    {
      Configured() && Represents(mem, index.Contents(), startAddress, endAddress, blocks)
    }

    /** One hole over the whole range. The index array ends a page or more below it; the last word of
        that gap must not look like a footer. */
    constructor (start: int, end: int, max: int, contents: Memory, frames: set<int>)
      requires start % 0x1000 == 0 && end % 0x1000 == 0
      requires 0x100_0000 <= start && end <= max <= 0xF000_0000
      requires MIN_SIZE <= end - (start + 0x8_1000) < FIELD
      requires forall page :: start <= page < end && page % 0x1000 == 0 ==> page in frames
      ensures Valid() <==> FooterAt(contents, start + 0x8_1000 - 4).magic != MAGIC
      ensures index.Valid() && fresh(index) && fresh(index.items)
      ensures Represents(mem, index.Contents(), startAddress, endAddress, blocks)
      ensures startAddress == start + 4 * INDEX_SIZE + PAGE && endAddress == end && maxAddress == max
      ensures blocks == map[startAddress := Block(end - startAddress, true)]
      ensures SameOutside(contents, mem, startAddress, end) && mapped == frames
    {
      hide Word, DecodeFooter;
      var first := start + 4 * INDEX_SIZE;
      if first / 0x1000 * 0x1000 != 0 {
        first := first / 0x1000 * 0x1000 + PAGE;
      }
      assert first == start + 0x8_1000;
      startAddress := first;
      endAddress := end;
      maxAddress := max;
      mapped := frames;
      mem := contents;
      blocks := map[first := Block(end - first, true)];
      index := new OrderedArray<int>(INDEX_SIZE, 0);
      new;
      Tag(startAddress, endAddress - 4, endAddress - startAddress, true);
      WordFrame(contents, mem, startAddress, end, startAddress - 4);
      var ok, at := index.Insert(startAddress, HeaderLessThan(mem));
      SingleHole(mem, index.Contents(), startAddress, end);
    }

    /** Magic, hole bit and size of a header, then magic and size of a footer. */
    method Tag(header: int, footer: int, size: int, hole: bool)
      requires 0 <= header <= SPACE - 4 && 0 <= footer <= SPACE - 4
      modifies `mem
      ensures forall i :: 0 <= i < SPACE && !(header <= i < header + 4) && !(footer <= i < footer + 4) ==>
                            mem[i] == old(mem)[i]
      ensures header <= footer ==> SameOutside(old(mem), mem, header, footer + 4)
      ensures footer == header + size - 4 && TAGS <= size < FIELD ==> Tagged(mem, header, size, hole)
    {
      hide Word, EncodeHeader, EncodeFooter, DecodeHeader, DecodeFooter;
      mem := PutHeader(mem, header, Header(MAGIC, hole, size));
      ghost var m1 := mem;
      mem := PutFooter(mem, footer, FooterAt(mem, footer).(magic := MAGIC, size := size));
      if footer == header + size - 4 && TAGS <= size < FIELD {
        TagWords(size, hole, FooterAt(m1, footer).padding);
        WordFrame(m1, mem, footer, footer + 4, header);
      }
    }

    method FindSmallestHole(wanted: int, pageAlign: bool) returns (r: int)
      requires Valid()
      ensures -1 <= r < index.size
      ensures r == -1 <==> !SomeHoleFits(blocks, wanted, pageAlign)
      ensures r == -1 <==> !HasRoom(blocks, wanted, pageAlign)
      ensures r >= 0 ==> var a := index.Contents()[r]; Fits(a, blocks[a].size, wanted, pageAlign)
      ensures r >= 0 ==> index.Contents()[r] == FirstFit(index.Contents(), blocks, wanted, pageAlign)
      ensures r >= 0 && !pageAlign && SortedBySize(index.Contents(), blocks) ==>
                forall a :: a in blocks && blocks[a].hole && wanted <= blocks[a].size ==>
                              blocks[index.Contents()[r]].size <= blocks[a].size
    {
      hide Word, DecodeHeader, Represents, Tagged, FirstFit, SortedBySize, AlignOffset, DecodeFooter, Holds;
      SomeFits(blocks, wanted, pageAlign);
      var pos := 0;
      while pos < index.size
        invariant pos <= index.size
        invariant forall i :: 0 <= i < pos ==> index.Contents()[i] in blocks
        invariant forall i :: 0 <= i < pos ==>
          var a := index.Contents()[i]; !Fits(a, blocks[a].size, wanted, pageAlign)
      {
        var location := index.Lookup(pos);
        HoleAt(mem, index.Contents(), startAddress, endAddress, blocks, pos);
        var size := HeaderAt(mem, location).size;
        if pageAlign {
          var offset := 0;
          if (location + 4) / 0x1000 * 0x1000 != 0 {
            offset := PAGE - (location + 4) % 0x1000;
          }
          OffsetAligns(location, offset);
          if size - offset >= wanted {
            break;
          }
        } else if size >= wanted {
          break;
        }
        pos := pos + 1;
      }
      r := if pos == index.size then -1 else pos;
      hide Fits;
      RepresentsIndex(mem, index.Contents(), startAddress, endAddress, blocks);
      if r == -1 {
        NoneFits(index.Contents(), blocks, wanted, pageAlign);
      } else {
        Indexed(index.Contents(), blocks, pos);
        FirstFitIs(index.Contents(), blocks, wanted, pageAlign, pos);
        if !pageAlign && SortedBySize(index.Contents(), blocks) {
          SmallestFits(index.Contents(), blocks, wanted, pos);
        }
      }
    }

    /** Maps pages until the range holds `newSize` bytes; false when that passes `maxAddress`. */
    method Expand(newSize: int) returns (ok: bool)
      requires Configured() && endAddress - startAddress < newSize
      modifies `endAddress, `mapped
      ensures ok <==> startAddress + PageUp(newSize) <= maxAddress
      ensures endAddress == if ok then startAddress + PageUp(newSize) else old(endAddress)
      ensures ok ==> endAddress % 0x1000 == 0 && newSize < endAddress - startAddress <= newSize + 0x1000
      ensures mapped == old(mapped) + PagesBetween(old(endAddress), endAddress)
      ensures forall page :: startAddress <= page < endAddress && page % 0x1000 == 0 ==> page in mapped
    {
      hide Word, DecodeFooter, PagesBetween;
      NoPages(endAddress, endAddress);
      assert forall page :: startAddress <= page < endAddress && page % 0x1000 == 0 ==> page in mapped;
      var size := newSize;
      if size / 0x1000 * 0x1000 != 0 {
        size := size / 0x1000 * 0x1000 + PAGE;
      }
      assert size == PageUp(newSize) by { PageUpExceeds(newSize); }
      PageUpExceeds(newSize);
      hide PageUp;
      if startAddress + size > maxAddress {
        return false;
      }
      var i := endAddress - startAddress;
      while i < size
        invariant i % 0x1000 == 0 && i <= size
        invariant old(endAddress) <= startAddress + i && mapped == old(mapped) + PagesBetween(old(endAddress), startAddress + i)
      {
        NextPage(old(endAddress), startAddress + i);
        mapped := mapped + {startAddress + i};
        i := i + PAGE;
      }
      PagesAre(old(endAddress), startAddress + size);
      endAddress := startAddress + size;
      ok := true;
    }

    /** A state whose end has just moved up while the blocks still end at `oldEnd`. */
    ghost predicate Stretched(oldEnd: int)
      reads this, index, index.items
    {
      && Configured() && oldEnd + TAGS <= endAddress
      && Represents(mem, index.Contents(), startAddress, oldEnd, blocks)
    }

    /** The position of the highest address in the index, or -1. */
    method HighestHole(ghost oldEnd: int) returns (idx: int)
      requires Stretched(oldEnd)
      ensures -1 <= idx < index.size
      ensures idx == -1 <==> forall a :: a in blocks ==> !blocks[a].hole
      ensures idx >= 0 ==> forall a :: a in blocks && blocks[a].hole ==> a <= index.Contents()[idx]
    {
      hide Word, DecodeFooter;
      var pos, value := 0, 0;
      idx := -1;
      while pos < index.size
        invariant pos <= index.size
        invariant -1 <= idx < pos || idx == -1 == pos - 1
        invariant idx == -1 ==> value == 0 && pos == 0
        invariant idx >= 0 ==> value == index.Contents()[idx]
        invariant forall i :: 0 <= i < pos ==> index.Contents()[i] <= value
      {
        var tmp := index.Lookup(pos);
        assert tmp in index.Contents() && tmp in blocks;
        if tmp > value {
          value := tmp;
          idx := pos;
        }
        pos := pos + 1;
      }
      forall a | a in blocks && blocks[a].hole ensures idx >= 0 && a <= index.Contents()[idx] {
        assert a in index.Contents();
      }
      if idx >= 0 {
        assert index.Contents()[idx] in index.Contents();
      }
    }

    /** A new size in an existing header, and a footer to match. */
    method Resize(header: int, size: int, ghost oldSize: int)
      requires 4 <= header <= SPACE - FIELD
      modifies `mem
      ensures HeaderTag(old(mem), header, oldSize, true) && TAGS <= size < FIELD ==>
                Tagged(mem, header, size, true) && SameOutside(old(mem), mem, header, header + size)
      ensures Retagged(old(mem), mem, header, size % 0x40_0000)
    {
      hide Word, DecodeFooter, DecodeHeader, EncodeHeader, EncodeFooter;
      ghost var mem0 := mem;
      mem := PutHeader(mem, header, HeaderAt(mem, header).(size := size));
      ghost var mem1 := mem;
      SizesFit(mem, header);
      var footer := header + HeaderAt(mem, header).size - 4;
      mem := PutFooter(mem, footer, FooterAt(mem, footer).(magic := MAGIC, size := HeaderAt(mem, header).size));
      RetaggedBy(mem0, mem1, mem, header, size);
      if HeaderTag(mem0, header, oldSize, true) && TAGS <= size < FIELD {
        HeaderTagReads(mem0, header, oldSize, true);
        TagWords(size, true, FooterAt(mem1, header + size - 4).padding);
        HeaderTagReads(mem1, header, size, true);
        WordFrame(mem1, mem, footer, footer + 4, header);
      }
    }

    /** The new space becomes a hole of its own. */
    method AddTailHole(oldEnd: int)
      requires Stretched(oldEnd) && forall a :: a in blocks ==> !blocks[a].hole
      modifies this, index, index.items
      ensures endAddress == old(endAddress) && mapped == old(mapped)
      ensures Valid() && blocks == Resized(old(blocks), oldEnd, endAddress - oldEnd)
      ensures Live(blocks) == Live(old(blocks))
      ensures |old(index.Contents())| == 0 && |index.Contents()| == 1
      ensures SameOutside(old(mem), mem, oldEnd, endAddress)
    {
      hide Word, DecodeFooter, Tiles, NoAdjacentHoles, Indexes, Live, Tagged, InsertionPoint, SameOutside, HeaderTag;
      ghost var mem0, m := mem, blocks;
      var growth := endAddress - oldEnd;
      RangeOrdered(m, startAddress, oldEnd);
      Tag(oldEnd, oldEnd + growth - 4, growth, true);
      WordFrame(mem0, mem, oldEnd, endAddress, startAddress - 4);
      var inserted, at := index.Insert(oldEnd, HeaderLessThan(mem));
      blocks := Resized(m, oldEnd, growth);
      ExtendedTiles(m, startAddress, oldEnd, endAddress);
      ExtendedApart(m, startAddress, oldEnd, endAddress);
      ExtendedTagged(mem0, mem, m, startAddress, oldEnd, endAddress);
      NoHolesNoIndex(old(index.Contents()), m);
      InsertedMembers([], at, oldEnd);
      ExtendedIndex(index.Contents(), m, oldEnd, growth);
    }

    /** The highest hole takes the new space, wherever it is. */
    method WidenHole(idx: nat, oldEnd: int)
      requires Stretched(oldEnd) && idx < index.size
      requires forall a :: a in blocks && blocks[a].hole ==> a <= index.Contents()[idx]
      modifies `mem, `blocks
      ensures var h := index.Contents()[idx]; if h + old(blocks)[h].size == oldEnd
        then Valid() && blocks == Resized(old(blocks), h, endAddress - h)
          && Live(blocks) == Live(old(blocks)) && SameOutside(old(mem), mem, h, endAddress)
        else !Consistent(mem, index.Contents(), startAddress, endAddress, Live(old(blocks)))
    {
      hide Word, DecodeFooter, DecodeHeader, Tiles, NoAdjacentHoles, AllTagged, Live, SameOutside, Consistent;
      ghost var mem0, m := mem, blocks;
      var growth := endAddress - oldEnd;
      var header := index.Lookup(idx);
      Indexed(index.Contents(), m, idx);
      HeaderReads(mem, m, header);
      HeaderTagReads(mem, header, m[header].size, true);
      BlockBounds(mem, m, startAddress, oldEnd, header);
      var size := HeaderAt(mem, header).size + growth;
      Resize(header, size, m[header].size);
      if m[header].size + header == oldEnd {
        KeepGapTag(mem0, mem, header, size, startAddress);
        blocks := Resized(m, header, size);
        ResizedTiles(m, startAddress, oldEnd, header, endAddress);
        ResizedTagged(mem0, mem, m, startAddress, oldEnd, header, size);
        ResizedIndex(index.Contents(), m, header, size);
      } else {
        OverreachingHeader(m, startAddress, oldEnd, header, size, mem, index.Contents(), endAddress);
      }
    }

    /** Adds room for `wanted` bytes at the end and gives it to the highest hole. */
    method Grow(wanted: int) returns (ok: bool)
      requires Valid() && 0 < wanted && endAddress - startAddress + PageUp(wanted) < FIELD
      modifies this, index, index.items
      ensures ok <==> old(endAddress) + PageUp(wanted) <= maxAddress
      ensures ok ==> endAddress == old(endAddress) + PageUp(wanted) && index.Valid()
      ensures ok ==> wanted < endAddress - old(endAddress) <= wanted + 0x1000
      ensures mapped == old(mapped) + PagesBetween(old(endAddress), endAddress)
      ensures ok ==> |index.Contents()| == if |old(index.Contents())| == 0 then 1 else |old(index.Contents())|
      ensures ok && TailGrows(old(blocks), old(endAddress)) ==>
        && Valid() && Live(blocks) == Live(old(blocks))
        && blocks == Resized(old(blocks), MergedStart(old(blocks), old(endAddress)),
                             endAddress - MergedStart(old(blocks), old(endAddress)))
        && PayloadsKept(old(mem), mem, Live(blocks)) && SameOutside(old(mem), mem, startAddress, endAddress)
      ensures ok && !TailGrows(old(blocks), old(endAddress)) ==>
        !Consistent(mem, index.Contents(), startAddress, endAddress, Live(old(blocks)))
    {
      hide Word, DecodeFooter, Tiles, NoAdjacentHoles, AllTagged, Indexes, TailGrows, MergedStart, Resized, Live, Consistent;
      ghost var mem0, m := mem, blocks;
      var oldLength, oldEnd := endAddress - startAddress, endAddress;
      ok := Expand(oldLength + wanted);
      if !ok {
        return;
      }
      var idx := HighestHole(oldEnd);
      if idx == -1 {
        NoTail(m, oldEnd);
        AddTailHole(oldEnd);
        LiveBelow(m, startAddress, oldEnd, oldEnd);
        PayloadFrame(mem0, mem, m, oldEnd, endAddress);
      } else {
        ghost var h := index.Contents()[idx];
        Indexed(index.Contents(), m, idx);
        HighestIsTail(m, startAddress, oldEnd, h);
        WidenHole(idx, oldEnd);
        if h + m[h].size == oldEnd {
          TailIs(m, startAddress, oldEnd, h);
          LiveBelow(m, startAddress, oldEnd, h);
          PayloadFrame(mem0, mem, m, h, endAddress);
        }
      }
    }

    /** The hole behind a new block, if anything is left; sizes count modulo 2^32, as everything here. */
    method LeaveRest(holeHeader: int, size: int) returns (ok: bool)
      requires index.Valid() && 0 <= holeHeader <= SPACE - 4 && endAddress <= SPACE - 4
      modifies `mem, index, index.items
      ensures ok <==> U32(size) == 0 || |old(index.Contents())| + 1 < index.items.Length
      ensures ok ==> index.Valid()
      ensures ok ==> forall x :: x in index.Contents() <==> (x == holeHeader && U32(size) > 0) || x in old(index.Contents())
      ensures ok && Distinct(old(index.Contents())) && (U32(size) == 0 || holeHeader !in old(index.Contents())) ==>
                Distinct(index.Contents())
      ensures U32(size) == 0 ==> ok && mem == old(mem) && index.Contents() == old(index.Contents())
      ensures ok && U32(size) > 0 ==> InsertedInOrder(mem, old(index.Contents()), holeHeader, index.Contents())
      ensures TAGS <= size < FIELD && holeHeader + size <= endAddress ==>
                SameOutside(old(mem), mem, holeHeader, holeHeader + size) && Tagged(mem, holeHeader, size, true)
    {
      hide Word, Tagged, SameOutside, DecodeFooter, U32;
      if TAGS <= size < FIELD && holeHeader + size <= endAddress {
        U32Small(size);
        U32Small(holeHeader + size - 4);
      }
      U32Range(size);
      U32Range(holeHeader + size - 4);
      if U32(size) == 0 {
        return true;
      }
      ghost var index0 := index.Contents();
      var holeFooter := U32(holeHeader + size - 4);
      if holeFooter < endAddress {
        Tag(holeHeader, holeFooter, size, true);
      } else {
        mem := PutHeader(mem, holeHeader, Header(MAGIC, true, size));
      }
      hide Inserted, Distinct, HeaderLessThan;
      ghost var spot;
      ok, spot := index.Insert(holeHeader, HeaderLessThan(mem));
      InsertedMembers(index0, spot, holeHeader);
    }

    /** When aligning, the gap in front becomes a hole that keeps the index entry; otherwise the
        entry goes. */
    method LeaveLead(at: nat, header: int, size: int, pageAlign: bool) returns (origPos: int, origSize: int)
      requires index.Valid() && Distinct(index.Contents()) && at < index.size
      requires 0x1000 <= header <= SPACE - 0x2000 && TAGS <= size < FIELD
      modifies `mem, index, index.items
      ensures index.Valid() && Distinct(index.Contents()) && |index.Contents()| <= |old(index.Contents())|
      ensures origPos == header + if pageAlign then AlignGap(header) else 0
      ensures pageAlign ==> index.Contents() == old(index.Contents())
      ensures !pageAlign ==> mem == old(mem) && origSize == size
      ensures !pageAlign ==> index.Contents() == Removed(old(index.Contents()), at)
      ensures !pageAlign ==> |index.Contents()| + 1 == |old(index.Contents())|
      ensures !pageAlign ==>
                forall x :: x in index.Contents() <==> x in old(index.Contents()) && x != old(index.Contents())[at]
      ensures pageAlign && TAGS <= AlignGap(header) ==>
                && origSize == U32(size - AlignGap(header))
                && SameOutside(old(mem), mem, header, origPos) && Tagged(mem, header, AlignGap(header), true)
    {
      hide Word, DecodeFooter, DecodeHeader, SameOutside;
      origPos, origSize := header, size;
      if pageAlign && header / 0x1000 * 0x1000 != 0 {
        var delta := PAGE - header % 0x1000;
        var newLocation := header + delta - 4;
        Tag(header, newLocation - 4, delta - 4, true);
        origPos := newLocation;
        HeaderTagSize(mem, header, delta - 4);
        origSize := U32(origSize - HeaderAt(mem, header).size);
      } else {
        RemovedMembers(index.Contents(), at);
        index.Remove(at);
      }
    }

    /** Splits off what is too little for a hole, then writes gap, block and rest. */
    method Carve(at: nat, header: int, size0: int, pageAlign: bool, ghost holeSize: int)
      returns (r: Option<int>, ghost w: Placement, ghost mem1: Memory, ghost mem2: Memory)
      requires index.Valid() && Distinct(index.Contents()) && at < index.size && index.Contents()[at] == header
      requires 0x1000 <= header && header + holeSize <= endAddress <= SPACE - 0x2000 && TAGS <= holeSize < FIELD
      requires HeaderAt(mem, header).size == holeSize && 0 <= size0 && Fits(header, holeSize, size0 + TAGS, pageAlign)
      requires forall x :: header < x < header + holeSize ==> x !in index.Contents()
      modifies `mem, index, index.items
      ensures r == None ==> pageAlign && |old(index.Contents())| + 1 >= index.items.Length
      ensures GapsHoldTags(w, pageAlign) ==>
                (r == None <==> pageAlign && LeavesRest(w) && |old(index.Contents())| + 1 >= index.items.Length)
      ensures PlacementOf(w, header, holeSize, pageAlign) && TakenFor(w, size0)
      ensures r != None ==> r.value == header + w.lead + 4 && index.Valid() && (pageAlign ==> header in index.Contents())
      ensures r != None && GapsHoldTags(w, pageAlign) ==>
                Written(old(mem), mem1, mem2, mem, w, old(index.Contents()), index.Contents())
      ensures r != None && !pageAlign ==>
                if w.taken == w.holeSize then index.Contents() == Removed(old(index.Contents()), at)
                else InsertedInOrder(mem, Removed(old(index.Contents()), at), w.hole + w.taken, index.Contents())
    {
      hide Word, DecodeHeader, DecodeFooter, SameOutside, Tagged, Distinct, Fits, AlignOffset, AlignGap, U32, InsertionPoint,
        InsertedInOrder, Removed;
      AlignedFit(header, holeSize, size0 + TAGS, pageAlign);
      var origSize := HeaderAt(mem, header).size;
      var size, newSize := size0, size0 + TAGS;
      if origSize - newSize < TAGS {
        size := size + (origSize - newSize);
        newSize := origSize;
      }
      var origPos;
      origPos, origSize := LeaveLead(at, header, origSize, pageAlign);
      w := Placement(header, holeSize, origPos - header, newSize);
      ghost var rest := holeSize - w.lead - newSize;
      if GapsHoldTags(w, pageAlign) {
        U32Small(holeSize - w.lead);
        U32Small(rest);
        U32Small(0);
        assert origSize - newSize == rest;
      }
      mem1 := mem;
      Tag(origPos, origPos + 4 + size, newSize, false);
      mem2 := mem;
      var ok := LeaveRest(origPos + 4 + size + 4, origSize - newSize);
      r := if ok then Some(origPos + 4) else None;
    }

    /** Takes the hole at position `at` of the index: a lead gap when aligning, the block, the rest. */
    method Place(at: nat, size0: int, pageAlign: bool) returns (r: Option<int>, ghost w: Placement)
      requires Valid() && at < index.size && 0 <= size0
      requires var a := index.Contents()[at]; Fits(a, blocks[a].size, size0 + TAGS, pageAlign)
      modifies `mem, `blocks, index, index.items
      ensures r.None? ==> pageAlign && |old(index.Contents())| + 1 >= INDEX_SIZE
      ensures GapsHoldTags(w, pageAlign) ==> (r.None? <==> pageAlign && LeavesRest(w) && |old(index.Contents())| + 1 >= INDEX_SIZE)
      ensures w.hole == old(index.Contents())[at] && w.holeSize == old(blocks)[w.hole].size
      ensures TakenFor(w, size0) && (if pageAlign then w.lead == AlignGap(w.hole) else w.lead == 0)
      ensures !pageAlign ==> GapsHoldTags(w, pageAlign)
      ensures r.Some? ==> r.value == w.hole + w.lead + 4 && index.Valid()
      ensures r.Some? && pageAlign ==> r.value % 0x1000 == 0 && w.hole < r.value <= w.hole + 0x1000
      ensures r.Some? && GapsHoldTags(w, pageAlign) ==>
        && Valid() && blocks == Carved(old(blocks), w.hole, w.lead, w.taken)
        && Live(blocks) == Live(old(blocks))[w.hole + w.lead := w.taken]
        && w.hole + w.lead !in Live(old(blocks))
        && PayloadsKept(old(mem), mem, Live(old(blocks)))
        && SameOutside(old(mem), mem, startAddress, endAddress)
      ensures r.Some? && !GapsHoldTags(w, pageAlign) ==>
        !Consistent(mem, index.Contents(), startAddress, endAddress, Live(old(blocks))[w.hole + w.lead := w.taken])
      ensures r.Some? && !pageAlign && SortedBySize(old(index.Contents()), old(blocks)) ==>
        && SortedBySize(index.Contents(), blocks)
        && (w.taken != w.holeSize ==> Foremost(index.Contents(), blocks, w.hole + w.taken))
    {
      hide Word, DecodeFooter, DecodeHeader, Represents, Live, Consistent, Carved, SameOutside, Tagged, Distinct, Written,
        SortedBySize, InsertedInOrder, Removed, GapsHoldTags, PayloadsKept, AlignGap, AlignOffset, Fits;
      ghost var mem0, m, index0 := mem, blocks, index.Contents();
      var header := index.Lookup(at);
      HoleAt(mem, index0, startAddress, endAddress, m, at);
      ghost var holeSize := m[header].size;
      var p;
      ghost var mem1, mem2;
      p, w, mem1, mem2 := Carve(at, header, size0, pageAlign, holeSize);
      r := p;
      if p == None {
        return;
      }
      GapAligns(w.hole);
      PlacementOutcome(mem0, mem1, mem2, mem, m, startAddress, endAddress, w, pageAlign, index0, index.Contents());
      if GapsHoldTags(w, pageAlign) {
        KeepGapTag(mem0, mem, header, holeSize, startAddress);
        GapNotNegative(w, pageAlign);
        CutFromHole(mem0, mem, index0, startAddress, endAddress, m, w.hole, w.hole + w.lead);
        blocks := Carved(m, w.hole, w.lead, w.taken);
        if !pageAlign && SortedBySize(index0, m) {
          SortedPlacement(mem, index0, m, startAddress, endAddress, at, w, index.Contents());
        }
      }
    }

    /** A request that Alloc refuses for its size, or for which it grows the heap as it should, if it
        grows it, and finds a hole with room for tags. */
    ghost predicate Served(size: nat, pageAlign: bool)
      requires index.Valid()
      reads this, index, index.items
    {
      || size > 0x40_0000
      || (CanGrow(blocks, startAddress, endAddress, size + TAGS, pageAlign)
          && GapsHoldTags(Chosen(index.Contents(), blocks, endAddress, size, pageAlign), pageAlign))
    }

    /** The payload address of a block of at least `size` bytes, or None on a failed assertion. Which hole
        it comes from, and whether what is left of that hole has room for its tags, `Chosen` says from
        the state before the call. */
    method Alloc(size: int, pageAlign: bool) returns (r: Option<int>, ghost w: Placement)
      requires Valid() && 0 <= size
      requires size > 0x40_0000 || CanGrow(blocks, startAddress, endAddress, size + TAGS, pageAlign)
      modifies this, index, index.items
      ensures w == Chosen(old(index.Contents()), old(blocks), old(endAddress), size, pageAlign)
      ensures r != None ==>
                && endAddress == old(endAddress) + Growth(Retries(old(blocks), old(endAddress), size + TAGS, pageAlign), size + TAGS)
                && r.value == w.hole + w.lead + 4 && size + TAGS <= w.taken && index.Valid()
                && (!pageAlign ==> GapsHoldTags(w, pageAlign) && w.lead == 0)
      ensures r != None && pageAlign ==> r.value % 0x1000 == 0 && w.hole < r.value <= w.hole + 0x1000
      ensures r != None ==> w.taken < size + 16 && (w.taken == size + 8 || w.taken == w.holeSize)
      ensures r != None ==> mapped == old(mapped) + PagesBetween(old(endAddress), endAddress)
      ensures !pageAlign && size <= 0x40_0000 && HasRoom(old(blocks), size + 8, pageAlign) ==> r != None
      ensures r != None ==> (endAddress == old(endAddress) <==> HasRoom(old(blocks), size + 8, pageAlign))
      ensures r != None && endAddress == old(endAddress) ==>
                && w.hole in old(blocks) && old(blocks)[w.hole] == Block(w.holeSize, true)
                && HasRoom(map[w.hole := Block(w.holeSize, true)], size + 8, pageAlign)
      ensures r != None && GapsHoldTags(w, pageAlign) ==>
                var m := Grown(old(blocks), old(endAddress), Retries(old(blocks), old(endAddress), size + TAGS, pageAlign), size + TAGS);
                && Valid() && Carvable(m, startAddress, endAddress, w.hole, w.lead, w.taken) && m[w.hole] == Block(w.holeSize, true)
                && blocks == Carved(m, w.hole, w.lead, w.taken) && Live(blocks) == Live(old(blocks))[w.hole + w.lead := w.taken]
                && w.hole + w.lead !in Live(old(blocks))
                && PayloadsKept(old(mem), mem, Live(old(blocks)))
                && SameOutside(old(mem), mem, startAddress, endAddress)
      ensures r != None && !GapsHoldTags(w, pageAlign) ==>
                !Consistent(mem, index.Contents(), startAddress, endAddress, Live(old(blocks))[w.hole + w.lead := w.taken])
      ensures size > 0x40_0000 ==> r == None && mem == old(mem) && Valid() && blocks == old(blocks)
      ensures r == None ==>
                size > 0x40_0000 || (pageAlign && |old(index.Contents())| + 1 >= INDEX_SIZE)
                || old(endAddress) + Growth(Retries(old(blocks), old(endAddress), size + TAGS, pageAlign), size + TAGS) > maxAddress
      ensures size > 0x40_0000 || GapsHoldTags(w, pageAlign) ==>
                (r == None <==> Refused(old(index.Contents()), old(blocks), old(endAddress), maxAddress, size, pageAlign))
      ensures r != None && !pageAlign && endAddress == old(endAddress) && SortedBySize(old(index.Contents()), old(blocks)) ==>
                && SortedBySize(index.Contents(), blocks)
                && (w.taken != w.holeSize ==> Foremost(index.Contents(), blocks, w.hole + w.taken))
                && forall a :: a in old(blocks) && old(blocks)[a].hole && size + 8 <= old(blocks)[a].size ==>
                                 w.holeSize <= old(blocks)[a].size
      decreases maxAddress - endAddress
    {
      hide Word, DecodeFooter, Represents, Tiles, NoAdjacentHoles, AllTagged, Indexes, Live, Consistent, Carved, SameOutside, Tagged,
        PayloadsKept, Retries, SomeHoleFits, TailGrows, PageUp, GapsHoldTags, SortedBySize, TakenFor, AlignGap, Grown,
        FooterAt, Fits, MergedStart, Chosen, HasRoom, PagesBetween, Foremost;
      NoPages(endAddress, endAddress);
      SomeFits(blocks, size + TAGS, pageAlign);
      w := Chosen(index.Contents(), blocks, endAddress, size, pageAlign);
      ghost var mem0, m := mem, blocks;
      if size > 0x40_0000 {
        return None, w;
      }
      var pos := FindSmallestHole(size + TAGS, pageAlign);
      if pos == -1 {
        PageUpExceeds(size + TAGS);
        NeedsGrowth(m, endAddress, size + TAGS, pageAlign);
        var ok := Grow(size + TAGS);
        if !ok {
          return None, w;
        }
        ghost var mem1, end1 := mem, endAddress;
        Growing(mem0, old(index.Contents()), startAddress, old(endAddress), m, mem, index.Contents(), endAddress, blocks, size, pageAlign);
        r, w := Alloc(size, pageAlign);
        if r != None {
          MorePages(old(endAddress), end1, endAddress);
          if GapsHoldTags(w, pageAlign) {
            KeptTwice(mem0, mem1, mem, Live(m), startAddress, end1, endAddress);
          }
        }
        return;
      }
      InIndex(mem, index.Contents(), startAddress, endAddress, m, pos);
      ghost var w1;
      r, w1 := Place(pos, size, pageAlign);
      RoomTaken(w1, size, pageAlign);
      FirstIsChosen(old(index.Contents()), m, old(endAddress), size, pageAlign, w1);
      if GapsHoldTags(w, pageAlign) {
        FirstIsCarvable(mem0, old(index.Contents()), startAddress, old(endAddress), m, size, pageAlign, w);
      }
    }

    /** Sets the hole bit of a header and nothing else. */
    method MarkFree(header: int, ghost size: int)
      requires HeaderTag(mem, header, size, false)
      modifies `mem
      ensures HeaderTag(mem, header, size, true) && SameOutside(old(mem), mem, header, header + 4)
    {
      hide Word, DecodeHeader, EncodeHeader;
      HeaderTagReads(mem, header, size, false);
      TagWords(size, true, false);
      mem := PutHeader(mem, header, HeaderAt(mem, header).(isHole := true));
    }

    /** Adds to the size in a header and copies the sum to a footer. */
    method Join(header: int, footer: int, added: int, ghost size: int, ghost footerSize: int)
      requires 0 <= header <= SPACE - 4 && 0 <= footer <= SPACE - 4
      modifies `mem
      ensures HeaderTag(old(mem), header, size, true) && FooterTag(old(mem), footer, footerSize)
              && footer == header + size + added - 4 && header + 4 <= footer && size + added < FIELD ==>
                Tagged(mem, header, size + added, true) && SameOutside(old(mem), mem, header, footer + 4)
    {
      hide Word, DecodeHeader, EncodeHeader, DecodeFooter, EncodeFooter, HeaderTag, FooterTag;
      ghost var mem0 := mem;
      mem := PutHeader(mem, header, HeaderAt(mem, header).(size := HeaderAt(mem, header).size + added));
      ghost var mem1 := mem;
      mem := PutFooter(mem, footer, FooterAt(mem, footer).(size := HeaderAt(mem, header).size));
      if HeaderTag(mem0, header, size, true) && FooterTag(mem0, footer, footerSize)
        && footer == header + size + added - 4 && header + 4 <= footer && size + added < FIELD {
        JoinedTags(mem0, mem1, mem, header, footer, added, size, footerSize);
      }
    }

    /** The position of `x` in the index, or its size. */
    method PositionOf(x: int) returns (pos: nat)
      requires index.Valid()
      ensures pos <= index.size && (pos == index.size <==> x !in index.Contents())
      ensures pos < index.size ==> index.Contents()[pos] == x
    {
      pos := 0;
      while pos < index.size && index.items[pos] != x
        invariant pos <= index.size && forall i :: 0 <= i < pos ==> index.items[i] != x
      {
        pos := pos + 1;
      }
    }

    /** Marks the block free and, when the block below is a hole, joins it. */
    method MergeLeft(header0: int, footer: int) returns (header: int, doAdd: bool)
      requires Valid() && header0 in blocks && !blocks[header0].hole && footer == header0 + blocks[header0].size - 4
      modifies `mem, `blocks
      ensures header == MergedStart(old(blocks), header0) && (doAdd <==> header == header0)
      ensures blocks == Coalesced(old(blocks), header, footer + 4) && SameOutside(old(mem), mem, header, footer + 4)
      ensures AllTagged(mem, blocks) && Configured()
    {
      hide Word, DecodeHeader, DecodeFooter, Tiles, NoAdjacentHoles, Indexes, Coalesced, MergedStart;
      ghost var mem0, m := mem, blocks;
      ghost var size := m[header0].size;
      header := header0;
      BelowByFooter(mem, index.Contents(), startAddress, endAddress, m, header);
      SizesFit(mem, header - 4);
      MarkFree(header, size);
      ghost var mem1 := mem;
      WordFrame(mem0, mem1, header, header + 4, header - 4);
      WordFrame(mem0, mem1, header, header + 4, footer);
      doAdd := true;
      var leftFooter := FooterAt(mem, header - 4);
      var leftHeader := header - leftFooter.size;
      if leftFooter.magic == MAGIC {
        WordFrame(mem0, mem1, header, header + 4, leftHeader);
      }
      if leftFooter.magic == MAGIC && HeaderAt(mem, leftHeader).isHole {
        HeaderTagReads(mem, header, size, true);
        var cacheSize := HeaderAt(mem, header).size;
        header := leftHeader;
        Join(header, footer, cacheSize, m[leftHeader].size, size);
        doAdd := false;
      }
      blocks := Coalesced(m, header, footer + 4);
      CoalescedTagged(mem0, mem, m, startAddress, endAddress, header, footer + 4);
      KeepGapTag(mem0, mem, header, footer + 4 - header, startAddress);
    }

    /** Joins the hole above, if the word there is the header of one; false when that hole is not
        in the index. */
    method MergeRight(header: int, footer0: int, ghost mem0: Memory, ghost m: Blocks, ghost a: int)
      returns (footer: int, ok: bool)
      requires Configured() && Represents(mem0, index.Contents(), startAddress, endAddress, m) && a in m && !m[a].hole
      requires header == MergedStart(m, a) && header in m && header <= a && footer0 == a + m[a].size - 4
      requires blocks == Coalesced(m, header, footer0 + 4) && AllTagged(mem, blocks)
      requires SameOutside(mem0, mem, header, footer0 + 4)
      modifies `mem, `blocks, index, index.items
      ensures ok <==> !(footer0 + 4 == endAddress && IsHoleTag(HeaderAt(mem0, endAddress)))
      ensures ok ==> footer + 4 == MergedEnd(m, a) && blocks == Coalesced(m, header, footer + 4) && AllTagged(mem, blocks)
      ensures ok ==> Configured() && Distinct(index.Contents()) && SameOutside(mem0, mem, header, footer + 4)
      ensures ok ==> RemovedOne(old(index.Contents()), index.Contents())
      ensures ok ==> |index.Contents()| + (if footer == footer0 then 0 else 1) == |old(index.Contents())|
      ensures ok ==> forall x :: x in index.Contents() <==> x in old(index.Contents()) && x != footer0 + 4
    {
      hide Word, DecodeHeader, DecodeFooter, NoAdjacentHoles, Coalesced, MergedStart, MergedEnd, Tiles, AllTagged, Indexes,
        SameOutside, Distinct, HeaderTag, FooterTag, Removed;
      footer, ok := footer0, true;
      var right := footer + 4;
      ghost var mem1 := mem;
      AboveByHeader(mem0, mem, index.Contents(), startAddress, endAddress, m, header, a);
      KeepGapTag(mem0, mem, header, footer + 4 - header, startAddress);
      if IsHoleTag(HeaderAt(mem, right)) {
        SizesFit(mem, right);
        var rightSize := HeaderAt(mem, right).size;
        footer := right + rightSize - 4;
        Join(header, footer, rightSize, footer0 + 4 - header, rightSize);
        if right != endAddress {
          SameOutsideTwice(mem0, mem1, mem, header, right, footer + 4);
        }
        var pos := PositionOf(right);
        if pos == index.size {
          return footer, false;
        }
        Indexed(index.Contents(), m, pos);
        RemovedMembers(index.Contents(), pos);
        index.Remove(pos);
        blocks := Coalesced(m, header, footer + 4);
        CoalescedTagged(mem0, mem, m, startAddress, endAddress, header, footer + 4);
        KeepGapTag(mem0, mem, header, footer + 4 - header, startAddress);
      }
    }

    /** Moves the end down to offset `newSize0` at best, and unmaps pages above it. */
    method Contract(newSize0: int) returns (newSize: int)
      requires Configured() && 0 <= newSize0 < endAddress - startAddress
      modifies `endAddress, `mapped
      ensures newSize == ContractedTo(newSize0) && newSize <= old(endAddress) - startAddress
      ensures newSize == if 0x7_0000 <= newSize0 && newSize0 / 0x1000 % 2 == 0 then newSize0 else 0x7_0000
      ensures mapped == old(mapped) - PagesBetween(endAddress + 1, old(endAddress))
      ensures endAddress == startAddress + newSize
      ensures forall page :: startAddress <= page < endAddress && page % 0x1000 == 0 ==> page in mapped
    {
      hide Word, DecodeFooter, PagesBetween;
      PagesAre(startAddress + ContractedTo(newSize0) + 1, endAddress);
      newSize := newSize0;
      if newSize / 0x1000 % 2 == 1 {
        newSize := PAGE;
        newSize := newSize + PAGE;
      }
      if newSize < MIN_SIZE {
        newSize := MIN_SIZE;
      }
      Unmap(newSize);
      endAddress := startAddress + newSize;
    }

    /** The loop that takes pages away, from the end down. */
    method Unmap(newSize: int)
      requires Configured() && newSize <= endAddress - startAddress
      modifies `mapped
      ensures mapped == old(mapped) - PagesBetween(startAddress + newSize + 1, endAddress)
    {
      hide Word, DecodeFooter, PagesBetween;
      var oldSize := endAddress - startAddress;
      var i := oldSize - PAGE;
      NoPages(startAddress + i + 1, endAddress);
      while newSize < i
        invariant i % 0x1000 == 0 && i <= oldSize - PAGE && (newSize < i + PAGE || i == oldSize - PAGE)
        invariant mapped == old(mapped) - PagesBetween(startAddress + i + 1, endAddress)
      {
        OnePageMore(startAddress + i, endAddress);
        mapped := mapped - {startAddress + i};
        i := i - PAGE;
      }
      SamePages(startAddress + i, startAddress + newSize, endAddress);
    }

    /** Gives the end of the range back when the freed hole reaches it. */
    method Shrink(header: int, footer: int, right: int)
      requires Configured() && Tiles(blocks, startAddress, endAddress) && NoAdjacentHoles(blocks) && AllTagged(mem, blocks)
      requires header in blocks && blocks[header] == Block(footer + 4 - header, true)
      modifies this, index, index.items
      ensures index.Valid() && (right !in old(index.Contents()) ==> index.Contents() == old(index.Contents()))
      ensures footer + 4 != old(endAddress) ==>
                blocks == old(blocks) && mem == old(mem) && endAddress == old(endAddress) && mapped == old(mapped)
      ensures footer + 4 == old(endAddress) ==> endAddress == startAddress + ContractedTo(header - startAddress)
      ensures mapped == old(mapped) - PagesBetween(endAddress + 1, old(endAddress))
      ensures footer + 4 == old(endAddress) && endAddress != header ==>  // the size may be negative, and wraps
                index.Contents() == old(index.Contents()) && Retagged(old(mem), mem, header, (endAddress - header) % 0x40_0000)
      ensures footer + 4 == old(endAddress) && endAddress == header ==>
                && mem == old(mem)
                && (right in old(index.Contents()) ==> exists i :: 0 <= i < |old(index.Contents())| && old(index.Contents())[i] == right
                                                         && index.Contents() == Removed(old(index.Contents()), i))
      ensures footer + 4 == old(endAddress) && header - startAddress + TAGS <= MIN_SIZE ==>
                && Configured() && blocks == Resized(old(blocks), header, endAddress - header)
                && Tiles(blocks, startAddress, endAddress) && NoAdjacentHoles(blocks) && AllTagged(mem, blocks)
                && Live(blocks) == Live(old(blocks)) && SameOutside(old(mem), mem, header, old(endAddress))
    {
      hide Word, DecodeHeader, DecodeFooter, Indexes, Tiles, NoAdjacentHoles, AllTagged, Live, Tagged, Resized, Retagged, ContractedTo, Distinct;
      if footer + 4 != endAddress {
        return;
      }
      ghost var mem0, m, end0 := mem, blocks, endAddress;
      ghost var size := m[header].size;
      HeaderReads(mem, m, header);
      HeaderTagReads(mem, header, size, true);
      BlockBounds(mem, m, startAddress, endAddress, header);
      var oldLength := endAddress - startAddress;
      var newLength := Contract(header - startAddress);
      ContractedSize(header - startAddress);
      if U32(HeaderAt(mem, header).size - (oldLength - newLength)) > 0 {
        Resize(header, HeaderAt(mem, header).size - (oldLength - newLength), size);
        if header - startAddress + TAGS <= MIN_SIZE {
          blocks := Resized(m, header, endAddress - header);
          ReachesEnd(mem0, mem, m, startAddress, end0, header, endAddress);
        }
      } else {
        var pos := PositionOf(right);
        if pos < index.size {
          index.Remove(pos);
        }
      }
    }

    /** Gives back what it can of the end, then lists the hole if it is a new one. */
    method Settle(header: int, footer: int, right: int, doAdd: bool,
                  ghost mem0: Memory, ghost index0: seq<int>, ghost m: Blocks, ghost a: int)
      returns (ok: bool)
      requires Configured() && Represents(mem0, index0, startAddress, endAddress, m) && a in m && !m[a].hole
      requires header == MergedStart(m, a) && (doAdd <==> header == a)
      requires footer + 4 == MergedEnd(m, a) && right == a + m[a].size
      requires blocks == Coalesced(m, header, footer + 4) && AllTagged(mem, blocks)
      requires SameOutside(mem0, mem, header, footer + 4) && Distinct(index.Contents())
      requires forall x :: x in index.Contents() <==> x in index0 && x != right
      requires RemovedOne(index0, index.Contents())
      modifies this, index, index.items
      ensures ok <==> !(doAdd && |old(index.Contents())| + 1 >= INDEX_SIZE)
      ensures ok ==> index.Valid()
      ensures endAddress == if footer + 4 == old(endAddress) then startAddress + ContractedTo(header - startAddress) else old(endAddress)
      ensures mapped == old(mapped) - PagesBetween(endAddress + 1, old(endAddress))
      ensures ok && EndKeepsTags(m, startAddress, old(endAddress), a) ==>
                && Valid() && blocks == Freed(m, startAddress, old(endAddress), a) && Live(blocks) == Live(m) - {a}
                && PayloadsKept(mem0, mem, Live(blocks)) && SameOutside(mem0, mem, startAddress, old(endAddress))
      ensures ok && !EndKeepsTags(m, startAddress, old(endAddress), a) ==>
                !Consistent(mem, index.Contents(), startAddress, endAddress, Live(m) - {a})
      ensures ok && EndKeepsTags(m, startAddress, old(endAddress), a) && doAdd && SortedBySize(index0, m) ==>
                SortedBySize(index.Contents(), blocks) && Foremost(index.Contents(), blocks, a)
    {
      hide Word, DecodeHeader, DecodeFooter, Tiles, NoAdjacentHoles, AllTagged, Indexes, Live, Consistent,
        SameOutside, PayloadsKept, MergedStart, MergedEnd, Distinct, Resized, ContractedTo, SortedBySize, RemovedOne, Foremost,
        InsertionPoint, Inserted;
      ghost var mem1, index1, joined, end0 := mem, index.Contents(), blocks, endAddress;
      JoinedBlocks(mem0, index0, startAddress, end0, m, a);
      hide PagesBetween;
      Shrink(header, footer, right);
      MergedStartIndexed(mem0, index0, startAddress, end0, m, a);
      ok := true;
      if doAdd {
        ghost var at;
        ok, at := index.Insert(header, HeaderLessThan(mem));
        if !ok {
          return;
        }
        InsertedMembers(index1, at, header);
      }
      JoinedIndex(mem0, index0, startAddress, end0, m, a, index.Contents());
      ContractedSize(header - startAddress);
      if EndKeepsTags(m, startAddress, end0, a) {
        ResizedIndex(index.Contents(), joined, header, startAddress + MIN_SIZE - header);
        FreedPayloads(mem0, mem1, mem, m, startAddress, end0, a, header, footer + 4);
        if doAdd && SortedBySize(index0, m) {
          SortedRelease(mem0, mem, index0, index1, index.Contents(), startAddress, end0, m, a);
        }
      } else {
        DanglingEntry(mem, index.Contents(), startAddress, endAddress, Live(m) - {a}, header);
      }
    }

    /** Frees the block whose payload starts at `p`; false on a failed assertion. */
    method Free(p: int) returns (ok: bool)
      requires Valid() && (p == 0 || (p - 4 in blocks && !blocks[p - 4].hole))
      modifies this, index, index.items
      ensures p == 0 ==> ok && Valid() && mem == old(mem) && blocks == old(blocks)
      ensures p == 0 ==> endAddress == old(endAddress) && mapped == old(mapped)
      ensures p != 0 && ok ==> index.Valid()
      ensures p != 0 ==> (!ok <==>
                FalseHoleAbove(old(mem), old(blocks), old(endAddress), p - 4)
                || (JoinsNothing(old(blocks), p - 4) && |old(index.Contents())| + 1 >= INDEX_SIZE))
      ensures p != 0 && ok ==>
                && endAddress == (if MergedEnd(old(blocks), p - 4) == old(endAddress)
                                  then startAddress + ContractedTo(MergedStart(old(blocks), p - 4) - startAddress) else old(endAddress))
                && mapped == old(mapped) - PagesBetween(endAddress + 1, old(endAddress))
                && if EndKeepsTags(old(blocks), startAddress, old(endAddress), p - 4) then
                  && Valid() && blocks == Freed(old(blocks), startAddress, old(endAddress), p - 4)
                  && Live(blocks) == Live(old(blocks)) - {p - 4}
                  && PayloadsKept(old(mem), mem, Live(blocks)) && SameOutside(old(mem), mem, startAddress, old(endAddress))
                  && (MergedStart(old(blocks), p - 4) == p - 4 && SortedBySize(old(index.Contents()), old(blocks)) ==>
                        SortedBySize(index.Contents(), blocks) && Foremost(index.Contents(), blocks, p - 4))
                else
                  !Consistent(mem, index.Contents(), startAddress, endAddress, Live(old(blocks)) - {p - 4})
    {
      hide Word, DecodeHeader, DecodeFooter, Tiles, NoAdjacentHoles, AllTagged, Indexes, Live, Consistent, Freed,
        SameOutside, PayloadsKept, MergedStart, MergedEnd, Distinct, EndKeepsTags, Coalesced, SortedBySize, RemovedOne, Foremost,
        ContractedTo, PagesBetween;
      if p == 0 {
        return true;
      }
      ghost var mem0, m, index0 := mem, blocks, index.Contents();
      var header0 := p - 4;
      HeaderReads(mem, m, header0);
      BlockBounds(mem, m, startAddress, endAddress, header0);
      var footer := header0 + HeaderAt(mem, header0).size - 4;
      FooterReads(mem, m, header0);
      if HeaderAt(mem, header0).magic != MAGIC || FooterAt(mem, footer).magic != MAGIC
        || FooterAt(mem, footer).size != HeaderAt(mem, header0).size {
        return false;
      }
      JoinedBlocks(mem, index0, startAddress, endAddress, m, header0);
      var header, doAdd := MergeLeft(header0, footer);
      var right := footer + 4;
      footer, ok := MergeRight(header, footer, mem0, m, header0);
      if !ok {
        return;
      }
      ok := Settle(header, footer, right, doAdd, mem0, index0, m, header0);
    }

    /** Walks the headers from the start, checking each block's tags; false at the first mismatch. */
    method Verify() returns (ok: bool, ghost visited: seq<int>)
      requires Valid()
      ensures ok
      ensures forall a :: a in visited <==> a in blocks
      ensures forall i, j :: 0 <= i < j < |visited| ==> visited[i] < visited[j]
    {
      hide Word, DecodeHeader, DecodeFooter, NoAdjacentHoles, Indexes;
      var header := startAddress;
      visited := [];
      while header < endAddress
        invariant header == endAddress || header in blocks
        invariant forall a :: a in visited <==> a in blocks && a < header
        invariant forall i, j :: 0 <= i < j < |visited| ==> visited[i] < visited[j]
        decreases endAddress - header
      {
        HeaderReads(mem, blocks, header);
        FooterReads(mem, blocks, header);
        BlockBounds(mem, blocks, startAddress, endAddress, header);
        NothingInside(blocks, startAddress, endAddress, header);
        assert Linked(blocks, endAddress, header);
        var size := HeaderAt(mem, header).size;
        var footer := header + size - 4;
        if HeaderAt(mem, header).magic != MAGIC || FooterAt(mem, footer).magic != MAGIC || FooterAt(mem, footer).size != size {
          return false, visited;
        }
        assert forall i :: 0 <= i < |visited| ==> visited[i] in visited;
        visited := visited + [header];
        header := header + size;
      }
      ok := true;
      forall a | a in blocks ensures a in visited {
        BlockBounds(mem, blocks, startAddress, endAddress, a);
      }
    }
  }
}
