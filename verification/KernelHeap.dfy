/** src/kheap.c: the kernel heap over raw bytes. The ghost field `blocks` is the partition that
    the boundary tags in memory describe. A failed ASSERT and a page fault both halt the kernel;
    an operation reports them as `Halt` and then promises nothing about the heap. */
module KernelHeap {
  import opened Memory
  import opened Blocks
  import opened HeapTags
  import opened OrderedArrays

  datatype Reason = BadSize | PastMaximum | NoPageTable | NoFrames | PageFault | Corrupt
  datatype Outcome = Done(p: int) | Halt(why: Reason)

  datatype Step = Go | Stop(why: Reason)

  /** Every byte of every block in the set is as it was, tags and payload alike. */
  ghost predicate Kept(m: Mem, m': Mem, live: set<Block>) {
    forall b :: b in live ==> SameOn(m, m', b.addr, b.End())
  }

  /** No entry's header overlaps [lo, hi). */
  ghost predicate Clear(idx: seq<int>, lo: int, hi: int) {
    forall i :: 0 <= i < |idx| ==> idx[i] + HEADER <= lo || hi <= idx[i]
  }

  /** Every entry's header lies in mapped memory, so the comparison callback can read it. */
  ghost predicate HeadersIn(idx: seq<int>, lo: int, hi: int) {
    forall i :: 0 <= i < |idx| ==> lo <= idx[i] && idx[i] + HEADER <= hi
  }

  lemma SortedOutside(m: Mem, m': Mem, idx: seq<int>, lo: int, hi: int, start: int, end: int)
    requires Sorted(idx, SizeKey(m)) && SameOutside(m, m', lo, hi) && Clear(idx, lo, hi)
    requires HeadersIn(idx, start, end) && Mapped(m, start, if end >= start then end - start else 0)
    ensures Sorted(idx, SizeKey(m'))
  {
    forall i | 0 <= i < |idx| ensures SizeAt(m', idx[i]) == SizeAt(m, idx[i]) {
      OutsideOn(m, m', lo, hi, idx[i], idx[i] + HEADER);
      LoadSame(m, m', idx[i] + 8);
    }
    SortedSame(m, m', idx);
  }

  /** Blocks around an extent: their hole headers keep clear of it. */
  lemma AroundClear(idx: seq<int>, pre: seq<Block>, post: seq<Block>, lo: int, a: int, b: int, hi: int)
    requires multiset(idx) == HoleAddrs(pre) + HoleAddrs(post)
    requires Tiles(pre, lo, a) && Tiles(post, b, hi) && a <= b
    ensures Clear(idx, a, b) && HeadersIn(idx, lo, hi)
  {
    TilesBound(pre, lo, a);
    TilesBound(post, b, hi);
    forall i | 0 <= i < |idx|
      ensures idx[i] + HEADER <= a || b <= idx[i]
      ensures lo <= idx[i] && idx[i] + HEADER <= hi
    {
      assert idx[i] in multiset(idx);
      HoleAddrsMember(pre, idx[i]);
      HoleAddrsMember(post, idx[i]);
    }
  }

  lemma OneHole(m: Mem, idx: seq<int>, b: Block)
    requires b.hole && b.size >= MIN_BLOCK && Tagged(m, b) && multiset(idx) == multiset{b.addr}
    ensures Represents(m, idx, [b], b.addr, b.End()) && Sound([b])
  {
    assert |multiset(idx)| == |idx| == 1;
    assert HoleAddrs([b]) == multiset{b.addr};
  }

  /** Block storage begins on the first page after the index's pointer slots. */
  function ArenaStart(base: int): (arena: int)
    requires base % PAGE_SIZE == 0
    ensures arena == base + 4 * HEAP_INDEX_SIZE && arena % PAGE_SIZE == 0
  {
    PageUp(base + 4 * HEAP_INDEX_SIZE)
  }

  lemma ArenaFits(base: int, endAddr: int)
    requires base % PAGE_SIZE == 0 && endAddr % PAGE_SIZE == 0 && endAddr - base >= 4 * HEAP_INDEX_SIZE + HEAP_MIN_SIZE
    ensures ArenaShape(ArenaStart(base), endAddr)
  {
  }

  class Heap {
    const index: OrderedArray
    const start: int
    const max: int
    /** First address whose page table was not created at boot: growing past it would make
        get_page allocate from this very heap. */
    const tableEnd: int
    var end: int
    var mem: Mem
    var freeFrames: nat
    ghost var blocks: seq<Block>

    ghost predicate Shape()
      reads this, index
    {
      && index.Valid() && index.data.Length == HEAP_INDEX_SIZE
      && 0 < start && ArenaShape(start, end) && tableEnd % PAGE_SIZE == 0
      && end <= tableEnd <= start + 0x38_0000 && end <= max <= U32_MAX && tableEnd <= U32_MAX
      && DomainIs(mem, start, end)
    }

    ghost predicate Valid()
      reads this, index, index.data
    {
      Shape() && Represents(mem, index.Contents(), blocks, start, end) && Sound(blocks)
    }

    /** create_heap over [base, endAddr): the index takes the first 0x80000 bytes and one hole
        the rest. `boot` is whatever the mapped frames held. */
    constructor (base: int, endAddr: int, limit: int, tables: int, frames: nat, boot: int -> Byte)
      requires 0 < base && base % PAGE_SIZE == 0 && endAddr % PAGE_SIZE == 0 && limit % PAGE_SIZE == 0
      requires endAddr - base >= 4 * HEAP_INDEX_SIZE + HEAP_MIN_SIZE
      requires endAddr <= limit <= U32_MAX
      requires tables % PAGE_SIZE == 0 && endAddr <= tables <= base + 4 * HEAP_INDEX_SIZE + 0x38_0000
      requires tables <= U32_MAX
      ensures Valid() && fresh(index) && fresh(index.data)
      ensures start == base + 4 * HEAP_INDEX_SIZE && end == endAddr && max == limit && tableEnd == tables
      ensures |blocks| == 1 && blocks[0] == Block(start, end - start, true) && freeFrames == frames
    {
      hide ArenaShape, ArenaStart, Represents, Sound, OrderedArray.Contents, Heap.Valid;
      ArenaFits(base, endAddr);
      var arena := ArenaStart(base);
      index := new OrderedArray(HEAP_INDEX_SIZE);
      start, end, max, tableEnd, freeFrames := arena, endAddr, limit, tables, frames;
      mem := map x | arena <= x < endAddr :: boot(x);
      blocks := [Block(arena, endAddr - arena, true)];
      new;
      Format();
    }

    /** Initially every byte of the arena belongs to one large hole. */
    method Format()
      requires Shape() && index.size == 0 && |blocks| == 1 && blocks[0] == Block(start, end - start, true)
      modifies this`mem, index`size, index.data
      ensures Valid()
    {
      var hole := Block(start, end - start, true);
      assert blocks == [hole];
      MappedIn(start, hole.size);
      WriteTags(hole);
      Publish(start);
      OneHole(mem, index.Contents(), hole);
      AssertValidates();
    }

    lemma MappedIn(a: int, n: nat)
      requires Shape() && start <= a && a + n <= end
      ensures Mapped(mem, a, n)
    {
    }

    // -------------------------------------------------------------- raw accesses

    function Word(a: int): (v: nat)
      requires Mapped(mem, a, 4)
      reads this
    {
      Load32(mem, a)
    }

    function IsHoleByte(header: int): Byte
      requires Mapped(mem, header, HEADER)
      reads this
    {
      ByteOf(mem, header + 4)
    }

    method StoreWord(a: int, v: nat)
      requires Mapped(mem, a, 4) && v <= U32_MAX
      modifies this`mem
      ensures Load32(mem, a) == v && SameOutside(old(mem), mem, a, a + 4)
    {
      StoreLoad(mem, a, v);
      mem := Store32(mem, a, v);
    }

    method WriteHeader(a: int, size: nat, hole: bool)
      requires Mapped(mem, a, HEADER) && size <= U32_MAX
      modifies this`mem
      ensures HeaderAt(mem, a, size, hole) && SameOutside(old(mem), mem, a, a + HEADER)
    {
      PutHeaderWorks(mem, a, size, hole);
      mem := PutHeader(mem, a, size, hole);
    }

    method WriteFooter(f: int, header: nat)
      requires Mapped(mem, f, FOOTER) && header <= U32_MAX
      modifies this`mem
      ensures FooterAt(mem, f, header) && SameOutside(old(mem), mem, f, f + FOOTER)
    {
      PutFooterWorks(mem, f, header);
      mem := PutFooter(mem, f, header);
    }

    /** Header and footer of one block. */
    method WriteTags(b: Block)
      requires 0 <= b.addr && MIN_BLOCK <= b.size && b.End() <= U32_MAX && Mapped(mem, b.addr, b.size)
      modifies this`mem
      ensures Tagged(mem, b) && SameOutside(old(mem), mem, b.addr, b.End())
    {
      ghost var m0 := mem;
      WriteHeader(b.addr, b.size, b.hole);
      ghost var m1 := mem;
      MappedKept(m0, m1, b.addr, b.addr + HEADER, b.End() - FOOTER, FOOTER);
      WriteFooter(b.End() - FOOTER, b.addr);
      TagsWritten(m0, m1, mem, b);
    }

    // -------------------------------------------------------------- index operations

    method Publish(a: int)
      requires Shape() && index.size < HEAP_INDEX_SIZE
      requires Sorted(index.Contents(), SizeKey(mem))
      requires HeadersIn(index.Contents(), start, end) && start <= a && a + HEADER <= end
      modifies index`size, index.data
      ensures Shape() && index.size == old(index.size) + 1
      ensures multiset(index.Contents()) == multiset(old(index.Contents())) + multiset{a}
      ensures Sorted(index.Contents(), SizeKey(mem))
    {
      ghost var was := index.Contents();
      index.Insert(a, BySize(mem));
      InsertedContents(was, a, BySize(mem));
      InsertedSorted(was, a, BySize(mem), SizeKey(mem));
    }

    /** Remove entry i; the rest stays in the order of the sizes in `m`. */
    method Withdraw(i: nat, ghost m: Mem)
      requires Shape() && i < index.size && Sorted(index.Contents(), SizeKey(m))
      modifies index`size, index.data
      ensures Shape() && index.size == old(index.size) - 1
      ensures multiset(old(index.Contents())) == multiset(index.Contents()) + multiset{old(index.Contents())[i]}
      ensures Sorted(index.Contents(), SizeKey(m))
    {
      ghost var was := index.Contents();
      index.Remove(i);
      RemovedContents(was, i);
      RemovedSorted(was, i, SizeKey(m));
    }

    /** The linear search that free makes for a neighbour's entry. */
    method Position(a: int) returns (i: nat)
      requires index.Valid() && a in multiset(index.Contents())
      ensures i < index.size && index.Contents()[i] == a
    {
      i := 0;
      ghost var idx := index.Contents();
      assert a in idx;
      while i < index.size && index.data[i] != a
        invariant i <= index.size && forall j :: 0 <= j < i ==> idx[j] != a
      {
        i := i + 1;
      }
    }

    // -------------------------------------------------------------- heap_validate

    method HeapValidate() returns (ok: bool)
      requires index.Valid()
      ensures ok <==> Validates(mem, index.Contents(), start, end, max)
    {
      if start >= end || end > max { return false; }
      var holeCount := WalkBlocks();
      if holeCount != index.size { return false; }
      var i := 0;
      while i < index.size
        invariant i <= index.size
        invariant forall j :: 0 <= j < i ==> EntryOk(mem, index.Contents(), start, end, j)
      {
        ok := CheckEntry(i);
        if !ok { return; }
        i := i + 1;
      }
      ok := true;
    }

    /** The block walk; -1 when one of its assertions fails. */
    method WalkBlocks() returns (holeCount: int)
      requires index.Valid()
      ensures holeCount == Walk(mem, index.Contents(), start, end)
    {
      ghost var idx := index.Contents();
      var address := start;
      holeCount := 0;
      while address < end
        invariant 0 <= holeCount
        invariant var rest := Walk(mem, idx, address, end);
                  Walk(mem, idx, start, end) == if rest < 0 then -1 else holeCount + rest
        decreases end - address
      {
        var ok := CheckBlock(address);
        if !ok { return -1; }
        if IsHoleByte(address) != 0 { holeCount := holeCount + 1; }
        address := address + Word(address + 8);
      }
      if address != end { return -1; }
    }

    method CheckBlock(address: int) returns (ok: bool)
      requires index.Valid()
      ensures ok <==> BlockOk(mem, index.Contents(), address, end)
    {
      if !Mapped(mem, address, HEADER) { return false; }
      var size := Word(address + 8);
      if Word(address) != MAGIC || size < MIN_BLOCK || size > end - address { return false; }
      var footer := address + size - FOOTER;
      if !Mapped(mem, footer, FOOTER) { return false; }
      if Word(footer) != MAGIC || Word(footer + 4) != address { return false; }
      if IsHoleByte(address) != 0 {
        var matches := CountMatches(address);
        return matches == 1;
      }
      return true;
    }

    method CountMatches(a: int) returns (matches: nat)
      requires index.Valid()
      ensures matches == multiset(index.Contents())[a]
    {
      ghost var idx := index.Contents();
      matches := 0;
      var i := 0;
      while i < index.size
        invariant i <= index.size && matches == multiset(idx[..i])[a]
      {
        assert idx[..i + 1] == idx[..i] + [idx[i]];
        if index.data[i] == a { matches := matches + 1; }
        i := i + 1;
      }
      assert idx[..i] == idx;
    }

    method CheckEntry(i: nat) returns (ok: bool)
      requires index.Valid() && i < index.size
      requires i > 0 ==> EntryOk(mem, index.Contents(), start, end, i - 1)
      ensures ok <==> EntryOk(mem, index.Contents(), start, end, i)
    {
      var hole := index.Lookup(i);
      if hole < start || hole >= end || !Mapped(mem, hole, HEADER) { return false; }
      if Word(hole) != MAGIC || IsHoleByte(hole) != 1 { return false; }
      if i > 0 {
        var previous := index.Lookup(i - 1);
        return Word(previous + 8) <= Word(hole + 8);
      }
      return true;
    }

    // -------------------------------------------------------------- selection

    method PageAlignmentOffset(header: int) returns (offset: nat)
      ensures offset == AlignOffset(header)
    {
      var payload := header + HEADER;
      offset := (PAGE_SIZE - payload % PAGE_SIZE) % PAGE_SIZE;
      if offset != 0 && offset < MIN_BLOCK { offset := offset + PAGE_SIZE; }
    }

    /** The first entry of the size-sorted index that fits: the best fit, or -1 when none does. */
    method FindSmallestHole(n: nat, aligned: bool) returns (i: int, ghost k: nat)
      requires Valid() && n <= U32_MAX
      ensures i == -1 <==> NoneFits(blocks, n, aligned)
      ensures i != -1 ==> 0 <= i < index.size && BestFit(blocks, k, n, aligned) && blocks[k].addr == index.Contents()[i]
    {
      hide Tiles, AllTagged, Sound, HoleAddrs, LoadLE;
      ghost var idx := index.Contents();
      i, k := 0, 0;
      while i < index.size
        invariant 0 <= i <= index.size
        invariant forall j :: 0 <= j < i ==> !FitsAt(idx[j], n, aligned)
      {
        var header := index.Lookup(i);
        k := HoleOf(mem, idx, blocks, i);
        var offset := 0;
        if aligned { offset := PageAlignmentOffset(header); }
        if offset <= U32_MAX - n && Word(header + 8) >= n + offset { break; }
        SizeBound(k);
        i := i + 1;
      }
      if i == index.size {
        EntriesCoverHoles(n, aligned, i, k);
        i := -1;
      } else {
        EntriesCoverHoles(n, aligned, i, k);
      }
    }

    /** The hole whose header is at a has room for the request. */
    ghost predicate FitsAt(a: int, n: nat, aligned: bool)
      reads this
    {
      SizeAt(mem, a) >= n + (if aligned then AlignOffset(a) else 0)
    }

    lemma SizeBound(k: nat)
      requires Shape() && Tiles(blocks, start, end) && k < |blocks|
      ensures blocks[k].size <= end - start <= U32_MAX
    {
      TilesBound(blocks, start, end);
    }

    /** What the scan has learnt about entries is known about holes. */
    lemma EntriesCoverHoles(n: nat, aligned: bool, i: nat, k: nat)
      requires Valid() && i <= index.size
      requires forall j :: 0 <= j < i ==> !FitsAt(index.Contents()[j], n, aligned)
      requires i < index.size ==>
                 && k < |blocks| && blocks[k].hole && blocks[k].addr == index.Contents()[i]
                 && SizeAt(mem, index.Contents()[i]) == blocks[k].size
                 && FitsAt(index.Contents()[i], n, aligned)
      ensures i == index.size ==> NoneFits(blocks, n, aligned)
      ensures i < index.size ==> BestFit(blocks, k, n, aligned)
    {
      ghost var idx := index.Contents();
      forall b | 0 <= b < |blocks| && Fits(blocks[b], n, aligned)
        ensures i < index.size && blocks[k].size <= blocks[b].size
      {
        var j := IndexOf(mem, idx, blocks, b);
        TaggedAt(mem, blocks, b);
        assert FitsAt(idx[j], n, aligned);
        assert i <= j;
        if i < j { assert SizeKey(mem)(idx[i]) <= SizeKey(mem)(idx[j]); }
      }
    }

    // -------------------------------------------------------------- splitting a hole

    /** Write a block's tags where no indexed header lies: the index stays sorted. */
    method WriteClear(b: Block)
      requires Shape() && start <= b.addr && MIN_BLOCK <= b.size && b.End() <= end
      requires Sorted(index.Contents(), SizeKey(mem)) && HeadersIn(index.Contents(), start, end)
      requires Clear(index.Contents(), b.addr, b.End())
      modifies this`mem
      ensures Shape() && Sorted(index.Contents(), SizeKey(mem))
      ensures Tagged(mem, b) && SameOutside(old(mem), mem, b.addr, b.End())
    {
      MappedIn(b.addr, b.size);
      MappedIn(start, end - start);
      WriteTags(b);
      SortedOutside(old(mem), mem, index.Contents(), b.addr, b.End(), start, end);
    }

    /** A split leaves a hole on one side only when the side is not empty. */
    method AddHole(side: Block)
      requires Shape() && start <= side.addr && side.End() <= end && side.hole
      requires side.size == 0 || (side.size >= MIN_BLOCK && index.size < HEAP_INDEX_SIZE)
      requires Sorted(index.Contents(), SizeKey(mem)) && HeadersIn(index.Contents(), start, end)
      requires Clear(index.Contents(), side.addr, side.End())
      modifies this`mem, index`size, index.data
      ensures Shape() && Sorted(index.Contents(), SizeKey(mem))
      ensures index.size <= old(index.size) + 1
      ensures multiset(index.Contents()) == multiset(old(index.Contents())) + SideHole(side)
      ensures Wrote(old(mem), mem, side)
    {
      if side.size != 0 {
        WriteClear(side);
        Publish(side.addr);
      }
    }

    /** Write the three parts of the unindexed hole b, in address order. */
    method WriteParts(left: Block, block: Block, right: Block)
      requires Shape() && index.size + 1 < HEAP_INDEX_SIZE
      requires start <= left.addr && left.End() == block.addr && block.End() == right.addr && right.End() <= end
      requires left.hole && right.hole && block.size >= MIN_BLOCK
      requires (left.size == 0 || left.size >= MIN_BLOCK) && (right.size == 0 || right.size >= MIN_BLOCK)
      requires Sorted(index.Contents(), SizeKey(mem)) && HeadersIn(index.Contents(), start, end)
      requires Clear(index.Contents(), left.addr, right.End())
      modifies this`mem, index`size, index.data
      ensures Shape() && Sorted(index.Contents(), SizeKey(mem))
      ensures multiset(index.Contents()) == multiset(old(index.Contents())) + (SideHole(left) + SideHole(right))
      ensures exists m1, m2 :: Wrote(old(mem), m1, left) && Wrote(m1, m2, block) && Wrote(m2, mem, right)
    {
      hide Tagged, SameOutside, Sorted, LoadLE, Clear, HeadersIn, SideHole;
      ghost var m0, was := mem, index.Contents();
      ClearPart(was, left.addr, right.End(), left.addr, left.End());
      AddHole(left);
      ghost var m1, idx := mem, index.Contents();
      ClearMore(was, idx, left.addr, right.End(), left, start, end);
      ClearPart(idx, left.End(), right.End(), block.addr, block.End());
      ClearPart(idx, left.End(), right.End(), right.addr, right.End());
      WriteClear(block);
      ghost var m2 := mem;
      AddHole(right);
      Assoc(multiset(was), SideHole(left), SideHole(right));
      assert Wrote(m0, m1, left) && Wrote(m1, m2, block) && Wrote(m2, mem, right);
    }

    /** Divide the unindexed hole b: a leading hole when alignment asks for one, the caller's
        block, and a trailing hole when what remains can hold its own tags. */
    method Divide(b: Block, size: nat, aligned: bool) returns (pos: int)
      requires Shape() && start <= b.addr && b.End() <= end && 0 < size <= U32_MAX - MIN_BLOCK
      requires Fits(b, size + MIN_BLOCK, aligned) && index.size + 1 < HEAP_INDEX_SIZE
      requires Sorted(index.Contents(), SizeKey(mem)) && HeadersIn(index.Contents(), start, end)
      requires Clear(index.Contents(), b.addr, b.End())
      modifies this`mem, index`size, index.data
      ensures Shape() && Sorted(index.Contents(), SizeKey(mem))
      ensures multiset(index.Contents()) == multiset(old(index.Contents())) + PartHoles(b, size + MIN_BLOCK, aligned)
      ensures AllTagged(mem, Parts(b, size + MIN_BLOCK, aligned)) && SameOutside(old(mem), mem, b.addr, b.End())
      ensures pos == Carved(b, size + MIN_BLOCK, aligned).addr
    {
      hide AllTagged, SameOutside, Sorted, LoadLE, Clear, HeadersIn, Parts, Wrote, SideHole;
      ghost var m0 := mem;
      var lead := 0;
      if aligned { lead := PageAlignmentOffset(b.addr); }
      pos := b.addr + lead;
      var holeSize := b.size - lead;
      var newSize := size + MIN_BLOCK;
      if holeSize - newSize < MIN_BLOCK { newSize := holeSize; }
      var left, block := Block(b.addr, lead, true), Block(pos, newSize, false);
      var right := Block(pos + newSize, holeSize - newSize, true);
      DivideIs(b, size + MIN_BLOCK, aligned, left, block, right);
      hide Lead, Taken, AlignOffset, Fits, Carved, LeftSide, RightSide;
      WriteParts(left, block, right);
      ghost var m1, m2 :| Wrote(m0, m1, left) && Wrote(m1, m2, block) && Wrote(m2, mem, right);
      PartsWritten(m0, m1, m2, mem, b, size + MIN_BLOCK, aligned);
    }

    /** Take hole k out of the index. */
    method TakeEntry(i: nat, ghost k: nat) returns (hole: Block)
      requires Valid() && i < index.size && k < |blocks|
      requires blocks[k].hole && blocks[k].addr == index.Contents()[i]
      modifies index`size, index.data
      ensures Shape() && hole == blocks[k] && start <= hole.addr && hole.End() <= end
      ensures index.size + 1 < HEAP_INDEX_SIZE && Sorted(index.Contents(), SizeKey(mem))
      ensures multiset(index.Contents()) == HoleAddrs(blocks[..k]) + HoleAddrs(blocks[k + 1..])
      ensures Clear(index.Contents(), hole.addr, hole.End()) && HeadersIn(index.Contents(), start, end)
    {
      hide OrderedArray.Contents, Grow, Tiles, AllTagged, HoleAddrs, Sound, Sorted, LoadLE, Clear, HeadersIn;
      BlockAt(mem, blocks, k, start, end);
      IndexWithout(mem, index.Contents(), blocks, k, start, end);
      var pos := index.Lookup(i);
      hole := Block(pos, Word(pos + 8), true);
      Withdraw(i, mem);
      MultisetCancel(multiset(index.Contents()), HoleAddrs(blocks[..k]) + HoleAddrs(blocks[k + 1..]), multiset{pos});
      AroundClear(index.Contents(), blocks[..k], blocks[k + 1..], start, hole.addr, hole.End(), end);
    }

    /** alloc from the chosen entry on: split hole k and hand out one part of it. */
    method CarveHole(i: nat, ghost k: nat, size: nat, aligned: bool) returns (p: int)
      requires Valid() && i < index.size && 0 < size <= U32_MAX - MIN_BLOCK
      requires k < |blocks| && blocks[k].addr == index.Contents()[i]
      requires Fits(blocks[k], size + MIN_BLOCK, aligned)
      modifies this`mem, this`blocks, index`size, index.data
      ensures Valid() && blocks == Carve(old(blocks), k, size + MIN_BLOCK, aligned)
      ensures p == Carved(old(blocks)[k], size + MIN_BLOCK, aligned).addr + HEADER
      ensures SameOutside(old(mem), mem, old(blocks)[k].addr, old(blocks)[k].End())
    {
      hide OrderedArray.Contents, Grow, Tiles, AllTagged, HoleAddrs, Sound, Sorted, SameOutside, LoadLE, Parts, Carved,
           Clear, HeadersIn, Lead, Carve, PartHoles;
      ghost var m0, was := mem, blocks;
      var hole := TakeEntry(i, k);
      var pos := Divide(hole, size, aligned);
      CarveAssembled(m0, mem, index.Contents(), was, k, size + MIN_BLOCK, aligned, start, end);
      blocks := Carve(was, k, size + MIN_BLOCK, aligned);
      AssertValidates();
      p := pos + HEADER;
    }

    /** ASSERTs made by heap_validate on entry and exit of every operation: they hold. */
    method AssertValidates()
      requires Valid()
    {
      hide OrderedArray.Contents, Grow, Tiles, AllTagged, HoleAddrs, Sorted, Walk;
      RepresentsValidates(mem, index.Contents(), blocks, start, end, max);
      var ok := HeapValidate();
      assert ok;
    }

    // -------------------------------------------------------------- growing

    /** The arena can be extended from `from` by `amount` bytes with `frames` frames free. */
    predicate CanGrow(from: int, amount: nat, frames: int)
    {
      from + amount <= max && from + amount <= tableEnd && amount <= frames * PAGE_SIZE
    }

    /** Which limit is met first when growth is refused. */
    function WhyNot(from: int, amount: nat, frames: int): (why: Reason)
      ensures why == PastMaximum || why == NoFrames || why == NoPageTable
    {
      if from + amount > max then PastMaximum
      else if from + frames * PAGE_SIZE < tableEnd then NoFrames
      else NoPageTable
    }

    /** get_page and alloc_frame: attach a free frame to the page just past the mapped range. */
    method MapPage(page: int, frameBytes: int -> Byte)
      requires freeFrames > 0 && start <= page && DomainIs(mem, start, page)
      modifies this`mem, this`freeFrames
      ensures freeFrames == old(freeFrames) - 1
      ensures DomainIs(mem, start, page + PAGE_SIZE)
      ensures SameOn(old(mem), mem, start, page)
    {
      freeFrames := freeFrames - 1;
      mem := mem + (map x | page <= x < page + PAGE_SIZE :: frameBytes(x));
    }

    lemma NextPage(a: int, b: int)
      requires a % PAGE_SIZE == 0 && b % PAGE_SIZE == 0 && a < b
      ensures a + PAGE_SIZE <= b && (a + PAGE_SIZE) % PAGE_SIZE == 0
    {
    }

    /** Map whole pages until the arena has `target` bytes. */
    method MapTo(target: nat, frameBytes: int -> Byte) returns (r: Step)
      requires 0 <= end - start < target && target % PAGE_SIZE == 0 && (end - start) % PAGE_SIZE == 0
      requires start % PAGE_SIZE == 0 && end <= tableEnd && tableEnd % PAGE_SIZE == 0
      requires DomainIs(mem, start, end)
      modifies this`mem, this`freeFrames
      ensures r.Stop? ==> r.why == if end + old(freeFrames) * PAGE_SIZE < tableEnd then NoFrames else NoPageTable
      ensures r.Go? <==> start + target <= tableEnd && target - (end - start) <= old(freeFrames) * PAGE_SIZE
      ensures r.Go? ==> DomainIs(mem, start, start + target) && SameOn(old(mem), mem, start, end)
      ensures r.Go? ==> freeFrames * PAGE_SIZE + target == old(freeFrames) * PAGE_SIZE + (end - start)
    {
      hide SameOn, DomainIs;
      var oldSize := end - start;
      var i := oldSize;
      SameOnSelf(mem, start, end);
      while i < target
        invariant oldSize <= i <= target && i % PAGE_SIZE == 0 && start + i <= tableEnd
        invariant DomainIs(mem, start, start + i) && SameOn(old(mem), mem, start, end)
        invariant freeFrames * PAGE_SIZE + i == old(freeFrames) * PAGE_SIZE + oldSize
      {
        var page := start + i;
        if page >= tableEnd { return Stop(NoPageTable); }
        if freeFrames == 0 { return Stop(NoFrames); }
        NextPage(page, tableEnd);
        NextPage(i, target);
        ghost var was := mem;
        MapPage(page, frameBytes);
        SameOnTrans(old(mem), was, mem, start, end, page);
        i := i + PAGE_SIZE;
      }
      return Go;
    }

    /** Sizes whose rounding would wrap are past every limit. */
    lemma PageUpPast(n: nat)
      ensures n % PAGE_SIZE != 0 && n > 0xFFFF_F000 ==> PageUp(n) > U32_MAX
    {
    }

    /** Grow the arena to newSize bytes, rounded up to a page. */
    method Expand(newSize: nat, frameBytes: int -> Byte) returns (r: Step)
      requires Shape() && newSize > end - start
      modifies this`end, this`mem, this`freeFrames
      ensures r.Stop? ==> r.why == WhyNot(old(end), PageUp(newSize) - (old(end) - start), old(freeFrames))
      ensures r.Go? <==> CanGrow(old(end), PageUp(newSize) - (old(end) - start), old(freeFrames))
      ensures r.Go? ==> Shape() && end == start + PageUp(newSize) && SameOn(old(mem), mem, start, old(end))
      ensures r.Go? ==> freeFrames * PAGE_SIZE + end == old(freeFrames) * PAGE_SIZE + old(end)
    {
      PageUpPast(newSize);
      hide SameOn, PageUp, DomainIs, OrderedArray.Valid;
      if newSize % PAGE_SIZE != 0 && newSize > 0xFFFF_F000 { return Stop(PastMaximum); }
      var rounded := PageUp(newSize);
      if rounded > max - start { return Stop(PastMaximum); }
      r := MapTo(rounded, frameBytes);
      if r.Stop? { return; }
      end := start + rounded;
    }

    /** Scan the index for the hole with the greatest address. */
    method EndmostHole() returns (i: int)
      requires index.Valid() && forall j :: 0 <= j < index.size ==> index.Contents()[j] > 0
      ensures i == -1 <==> index.size == 0
      ensures i != -1 ==> 0 <= i < index.size
      ensures i != -1 ==> forall j :: 0 <= j < index.size ==> index.Contents()[j] <= index.Contents()[i]
    {
      ghost var idx := index.Contents();
      i := -1;
      var value := 0;
      var scan := 0;
      while scan < index.size
        invariant scan <= index.size && (i == -1 <==> scan == 0) && (i != -1 ==> 0 <= i < scan && value == idx[i])
        invariant i == -1 ==> value == 0
        invariant forall j :: 0 <= j < scan ==> idx[j] <= value
      {
        var tmp := index.Lookup(scan);
        if tmp > value { value, i := tmp, scan; }
        scan := scan + 1;
      }
    }

    /** The arena has just been stretched past the partition, which still ends at oldEnd. */
    ghost predicate Stretched(oldEnd: int)
      reads this, index, index.data
    {
      && Shape() && Represents(mem, index.Contents(), blocks, start, oldEnd) && Sound(blocks)
      && oldEnd + MIN_BLOCK <= end
    }

    /** The newly mapped tail becomes a hole of its own. */
    method AppendHole(oldEnd: int)
      requires Stretched(oldEnd) && !EndsInHole(blocks)
      modifies this`mem, this`blocks, index`size, index.data
      ensures Valid() && blocks == Grow(old(blocks), oldEnd, end - oldEnd)
      ensures SameOn(old(mem), mem, start, oldEnd)
    {
      hide OrderedArray.Contents, Grow, Tiles, AllTagged, HoleAddrs, Sound, Sorted, LoadLE, Clear, HeadersIn, SameOn,
           SameOutside, Tagged;
      ghost var m0, was, idx := mem, blocks, index.Contents();
      TilesBound(was, start, oldEnd);
      IndexRoom(idx, blocks, start, oldEnd, end);
      var hole := Block(oldEnd, end - oldEnd, true);
      WriteClear(hole);
      Publish(oldEnd);
      OutsideOn(m0, mem, oldEnd, end, start, oldEnd);
      blocks := Grow(was, oldEnd, end - oldEnd);
      GrowTiles(was, start, oldEnd, end - oldEnd);
      GrowKeeps(was, oldEnd, end - oldEnd);
      AppendRepresents(m0, mem, was, hole, start);
    }

    /** Take the last block, a hole, out of the index. */
    method TakeLast(i: nat, oldEnd: int) returns (hole: Block)
      requires Stretched(oldEnd) && EndsInHole(blocks)
      requires i < index.size && index.Contents()[i] == blocks[|blocks| - 1].addr
      modifies index`size, index.data
      ensures Shape() && hole == blocks[|blocks| - 1] && start <= hole.addr && hole.End() == oldEnd
      ensures hole.size >= MIN_BLOCK
      ensures HeaderAt(mem, hole.addr, hole.size, true)
      ensures index.size < HEAP_INDEX_SIZE && Sorted(index.Contents(), SizeKey(mem))
      ensures multiset(index.Contents()) == HoleAddrs(blocks[..|blocks| - 1])
      ensures Clear(index.Contents(), hole.addr, end) && HeadersIn(index.Contents(), start, end)
    {
      hide OrderedArray.Contents, Grow, Tiles, AllTagged, HoleAddrs, Sound, Sorted, LoadLE, Clear, HeadersIn;
      ghost var n := |blocks| - 1;
      BlockAt(mem, blocks, n, start, oldEnd);
      LastBlock(blocks, start, oldEnd);
      LastListed(index.Contents(), blocks);
      IndexRoom(index.Contents(), blocks, start, oldEnd, end);
      var pos := index.Lookup(i);
      hole := Block(pos, Word(pos + 8), true);
      Withdraw(i, mem);
      MultisetCancel(multiset(index.Contents()), HoleAddrs(blocks[..n]), multiset{pos});
      PrefixClear(index.Contents(), blocks[..n], start, pos, end);
    }

    /** A hole that reaches the old end takes in the newly mapped tail. */
    method EnlargeHole(i: nat, oldEnd: int)
      requires Stretched(oldEnd) && EndsInHole(blocks)
      requires i < index.size && index.Contents()[i] == blocks[|blocks| - 1].addr
      modifies this`mem, this`blocks, index`size, index.data
      ensures Valid() && blocks == Grow(old(blocks), oldEnd, end - oldEnd)
      ensures SameOn(old(mem), mem, start, old(blocks)[|old(blocks)| - 1].addr)
    {
      hide OrderedArray.Contents, Grow, Tiles, AllTagged, HoleAddrs, Sound, Sorted, LoadLE, Clear, HeadersIn, SameOn,
           SameOutside, Tagged;
      ghost var m0, was := mem, blocks;
      var hole := TakeLast(i, oldEnd);
      var tail := Block(hole.addr, hole.size + (end - oldEnd), true);
      Retag(tail);
      Publish(tail.addr);
      OutsideOn(m0, mem, tail.addr, end, start, tail.addr);
      EnlargeRepresents(m0, mem, index.Contents(), was, tail, start, oldEnd);
      hide Represents, EndsInHole;
      blocks := Grow(was, oldEnd, end - oldEnd);
    }

    /** Give an existing unindexed hole a new size, and a footer at its new end. */
    method Retag(b: Block)
      requires Shape() && start <= b.addr && MIN_BLOCK <= b.size && b.End() <= end && b.hole
      requires exists size :: HeaderAt(mem, b.addr, size, true)
      requires Sorted(index.Contents(), SizeKey(mem)) && HeadersIn(index.Contents(), start, end)
      requires Clear(index.Contents(), b.addr, b.End())
      modifies this`mem
      ensures Shape() && Sorted(index.Contents(), SizeKey(mem))
      ensures Tagged(mem, b) && SameOutside(old(mem), mem, b.addr, b.End())
    {
      hide Sorted, LoadLE, Clear, HeadersIn, SameOutside;
      ghost var m0 := mem;
      MappedIn(b.addr, b.size);
      MappedIn(start, end - start);
      StoreWord(b.addr + 8, b.size);
      ghost var m1 := mem;
      ghost var size :| HeaderAt(m0, b.addr, size, true);
      Resized(m0, m1, b.addr, size, b.size);
      ShapeKept(m0, b.addr + 8, b.addr + 12);
      MappedIn(b.addr, b.size);
      WriteFooter(b.End() - FOOTER, b.addr);
      TagsWritten(m0, m1, mem, b);
      ShapeKept(m1, b.End() - FOOTER, b.End());
      SortedOutside(m0, mem, index.Contents(), b.addr, b.End(), start, end);
    }

    /** Stores leave the set of mapped addresses alone. */
    lemma ShapeKept(m: Mem, lo: int, hi: int)
      requires SameOutside(m, mem, lo, hi) && DomainIs(m, start, end)
      ensures DomainIs(mem, start, end)
    {
    }

    /** Make the stretched part of the arena a hole, joined to a hole that ended at oldEnd. */
    method AdoptTail(oldEnd: int)
      requires Stretched(oldEnd)
      modifies this`mem, this`blocks, index`size, index.data
      ensures Valid() && blocks == Grow(old(blocks), oldEnd, end - oldEnd)
      ensures SameOn(old(mem), mem, start,
                     if EndsInHole(old(blocks)) then old(blocks)[|old(blocks)| - 1].addr else oldEnd)
    {
      hide OrderedArray.Contents, Grow, Tiles, AllTagged, HoleAddrs, Sound, Sorted, LoadLE, SameOn;
      EntriesPositive(mem, index.Contents(), blocks, start, oldEnd);
      var i := EndmostHole();
      Endmost(mem, index.Contents(), blocks, i, start, oldEnd);
      if i == -1 {
        AppendHole(oldEnd);
      } else {
        var endHole := index.Lookup(i);
        if endHole + Word(endHole + 8) != oldEnd {
          AppendHole(oldEnd);
        } else {
          EnlargeHole(i, oldEnd);
        }
      }
    }

    /** alloc when no hole fits: map enough pages for the request and make them a hole. */
    method Extend(n: nat, frameBytes: int -> Byte) returns (r: Step)
      requires Valid() && MIN_LIVE <= n <= U32_MAX
      modifies this`end, this`mem, this`freeFrames, this`blocks, index`size, index.data
      ensures r.Stop? ==> r.why == WhyNot(old(end), PageUp(n), old(freeFrames))
      ensures r.Go? <==> CanGrow(old(end), PageUp(n), old(freeFrames))
      ensures r.Go? ==> Valid() && end == old(end) + PageUp(n)
      ensures r.Go? ==> blocks == Grow(old(blocks), old(end), PageUp(n))
      ensures r.Go? ==> freeFrames * PAGE_SIZE + end == old(freeFrames) * PAGE_SIZE + old(end)
      ensures r.Go? ==> Kept(old(mem), mem, Live(old(blocks)))
    {
      hide OrderedArray.Contents, Grow, Tiles, AllTagged, HoleAddrs, Sound, Sorted, LoadLE, SameOn, EndsInHole, Kept,
           Live;
      ghost var m0, was := mem, blocks;
      var oldLength, oldEnd := end - start, end;
      PageUpSum(oldLength, n);
      if oldLength > U32_MAX - n { return Stop(PastMaximum); }
      r := Expand(oldLength + n, frameBytes);
      if r.Stop? { return; }
      hide PageUp;
      ghost var m1 := mem;
      RepresentsSame(m0, m1, index.Contents(), was, start, oldEnd);
      AdoptTail(oldEnd);
      LastBelow(was, start, oldEnd);
      ghost var kept := if EndsInHole(was) then was[|was| - 1].addr else oldEnd;
      SameOnPart(m0, m1, start, oldEnd, start, kept);
      SameOnTrans(m0, m1, mem, start, kept, kept);
      GrowthKeeps(m0, mem, was, start, oldEnd);
    }

    // -------------------------------------------------------------- alloc

    /** No hole fits the request before any of the first g growths, and each of them succeeds. */
    ghost predicate GrowsTo(bs: seq<Block>, from: int, frames: int, n: nat, aligned: bool, g: nat)
      decreases g
    {
      g == 0 ||
      (&& NoneFits(bs, n, aligned) && CanGrow(from, PageUp(n), frames)
       && GrowsTo(Grow(bs, from, PageUp(n)), from + PageUp(n), frames - PageUp(n) / PAGE_SIZE, n, aligned, g - 1))
    }

    /** The request cannot be met: growth is refused while still no hole fits. */
    ghost predicate Refused(bs: seq<Block>, from: int, frames: int, n: nat, aligned: bool, g: nat) {
      && NoneFits(GrowTimes(bs, from, PageUp(n), g), n, aligned)
      && !CanGrow(GrownEnd(from, PageUp(n), g), PageUp(n), FramesLeft(frames, PageUp(n), g))
    }

    /** Grow the heap until a hole fits, then carve the best one. `g` counts the growths made and
        `k` is the hole chosen after them. It halts only when a needed growth is refused. */
    method Alloc(size: nat, aligned: bool, frameBytes: int -> Byte) returns (r: Outcome, ghost g: nat, ghost k: nat)
      requires Valid()
      modifies this`end, this`mem, this`freeFrames, this`blocks, index`size, index.data
      decreases max - end
      ensures r == Halt(BadSize) <==> !(0 < size <= U32_MAX - MIN_BLOCK)
      ensures r != Halt(BadSize) ==>
                g <= 2 && GrowsTo(old(blocks), old(end), old(freeFrames), size + MIN_BLOCK, aligned, g)
      ensures r.Halt? && r.why != BadSize ==>
                && Refused(old(blocks), old(end), old(freeFrames), size + MIN_BLOCK, aligned, g)
                && r.why == WhyNot(GrownEnd(old(end), PageUp(size + MIN_BLOCK), g), PageUp(size + MIN_BLOCK),
                                   FramesLeft(old(freeFrames), PageUp(size + MIN_BLOCK), g))
      ensures r.Done? ==>
                var n, amount := size + MIN_BLOCK, PageUp(size + MIN_BLOCK);
                var grown := GrowTimes(old(blocks), old(end), amount, g);
                && Valid() && BestFit(grown, k, n, aligned)
                && blocks == Carve(grown, k, n, aligned)
                && r.p == Carved(grown[k], n, aligned).addr + HEADER
                && end == GrownEnd(old(end), amount, g) && freeFrames == FramesLeft(old(freeFrames), amount, g)
      ensures r.Done? ==> Kept(old(mem), mem, Live(old(blocks)))
      ensures r.Done? ==>
                var grown := GrowTimes(old(blocks), old(end), PageUp(size + MIN_BLOCK), g);
                exists b :: HandedOut(grown, k, blocks, b, size + 20, aligned) && r.p == b.addr + 12
    {
      hide Tiles, AllTagged, HoleAddrs, Sound, Sorted, LoadLE, Carve, Carved, Grow, OrderedArray.Contents, NoneFits,
           Live, Kept, PageUp, Heap.WhyNot, DomainIs, EndsInHole, OrderedArray.Valid, HandedOut, Heap.GrowsTo,
           Heap.Refused, GrowTimes, GrownEnd, FramesLeft, BestFit;
      if size == 0 || size > U32_MAX - MIN_BLOCK { return Halt(BadSize), 0, 0; }
      AssertValidates();
      var n := size + MIN_BLOCK;
      ghost var m0, was, from, frames := mem, blocks, end, freeFrames;
      var i;
      i, k := FindSmallestHole(n, aligned);
      Ungrown(was, from, frames, n, aligned);
      if i == -1 {
        var step := Extend(n, frameBytes);
        if step.Stop? { return Halt(step.why), 0, 0; }
        ghost var m1 := mem;
        PageUpSum(0, n);
        GrowKeeps(was, from, PageUp(n));
        r, g, k := Alloc(size, aligned, frameBytes);
        if r.Done? { KeptTrans(m0, m1, mem, Live(was)); }
        OneMoreGrowth(was, from, frames, n, aligned, g);
        g := g + 1;
      } else {
        BestFits(was, k, n, aligned);
        var p := CarveHole(i, k, size, aligned);
        CarveKept(m0, mem, was, k, start, end);
        r, g := Done(p), 0;
        CarveHandsOut(was, k, n, aligned);
      }
    }

    lemma Ungrown(bs: seq<Block>, from: int, frames: int, n: nat, aligned: bool)
      ensures GrowsTo(bs, from, frames, n, aligned, 0)
      ensures GrowTimes(bs, from, PageUp(n), 0) == bs && GrownEnd(from, PageUp(n), 0) == from
      ensures FramesLeft(frames, PageUp(n), 0) == frames
      ensures NoneFits(bs, n, aligned) && !CanGrow(from, PageUp(n), frames) ==> Refused(bs, from, frames, n, aligned, 0)
    {
    }

    /** One growth, and then g more. */
    lemma OneMoreGrowth(bs: seq<Block>, from: int, frames: int, n: nat, aligned: bool, g: nat)
      requires Tiles(bs, start, from) && n >= MIN_LIVE && from % PAGE_SIZE == 0 && NoneFits(bs, n, aligned)
      requires CanGrow(from, PageUp(n), frames)
      requires GrowsTo(Grow(bs, from, PageUp(n)), from + PageUp(n), frames - PageUp(n) / PAGE_SIZE, n, aligned, g)
      ensures GrowsTo(bs, from, frames, n, aligned, g + 1) && g + 1 <= 2
      ensures GrowTimes(bs, from, PageUp(n), g + 1) ==
              GrowTimes(Grow(bs, from, PageUp(n)), from + PageUp(n), PageUp(n), g)
      ensures GrownEnd(from, PageUp(n), g + 1) == GrownEnd(from + PageUp(n), PageUp(n), g)
      ensures FramesLeft(frames, PageUp(n), g + 1) == FramesLeft(frames - PageUp(n) / PAGE_SIZE, PageUp(n), g)
      ensures Refused(Grow(bs, from, PageUp(n)), from + PageUp(n), frames - PageUp(n) / PAGE_SIZE, n, aligned, g) ==>
                Refused(bs, from, frames, n, aligned, g + 1)
    {
      hide Tiles, NoneFits, Grow, PageUp;
      GrowsToBound(bs, from, frames, n, aligned, g + 1);
    }

    lemma GrowsToBound(bs: seq<Block>, from: int, frames: int, n: nat, aligned: bool, g: nat)
      requires Tiles(bs, start, from) && n >= MIN_LIVE && from % PAGE_SIZE == 0
      requires GrowsTo(bs, from, frames, n, aligned, g)
      ensures g <= 2
      ensures NoneFits(GrowTimes(bs, from, PageUp(n), g), n, aligned) ==> g <= 1
    {
      hide Tiles, NoneFits, Grow, PageUp, GrowTimes, GrowsTo;
      GrowthSuffices(bs, start, from, n, aligned);
      if g >= 3 {
        GrowsToMeans(bs, from, frames, n, aligned, g, 2);
      }
    }

    /** GrowsTo, said of each growth. */
    lemma {:induction false} GrowsToMeans(bs: seq<Block>, from: int, frames: int, n: nat, aligned: bool, g: nat, j: nat)
      requires GrowsTo(bs, from, frames, n, aligned, g) && j < g
      ensures NoneFits(GrowTimes(bs, from, PageUp(n), j), n, aligned)
      decreases j
    {
      hide NoneFits, Grow, PageUp;
      if j > 0 {
        GrowsToMeans(Grow(bs, from, PageUp(n)), from + PageUp(n), frames - PageUp(n) / PAGE_SIZE, n, aligned, g - 1,
                     j - 1);
      }
    }

    // -------------------------------------------------------------- free

    /** The hole m lies between the blocks pre and post and is not yet in the index. */
    ghost predicate Pending(pre: seq<Block>, m: Block, post: seq<Block>)
      reads this, index, index.data
    {
      && Shape() && m.hole && m.size >= MIN_BLOCK
      && Tiles(pre, start, m.addr) && Tiles(post, m.End(), end)
      && AllTagged(mem, pre) && Tagged(mem, m) && AllTagged(mem, post)
      && multiset(index.Contents()) == HoleAddrs(pre) + HoleAddrs(post) && Sorted(index.Contents(), SizeKey(mem))
    }

    lemma PendingBounds(pre: seq<Block>, m: Block, post: seq<Block>)
      requires Pending(pre, m, post)
      ensures start <= m.addr && m.End() <= end && Mapped(mem, m.addr, m.size)
      ensures Clear(index.Contents(), m.addr, m.End()) && HeadersIn(index.Contents(), start, end)
    {
      hide AllTagged, Tagged, HoleAddrs, Sorted;
      TilesBound(pre, start, m.addr);
      TilesBound(post, m.End(), end);
      AroundClear(index.Contents(), pre, post, start, m.addr, m.End(), end);
    }

    /** `header->is_hole = 1`: block k is now a hole that the index does not list. */
    method MarkFree(header: int, ghost k: nat)
      requires Valid() && k < |blocks| && !blocks[k].hole && header == blocks[k].addr
      modifies this`mem
      ensures Pending(blocks[..k], blocks[k].(hole := true), blocks[k + 1..])
      ensures SameOutside(old(mem), mem, blocks[k].addr, blocks[k].End()) && index.size < HEAP_INDEX_SIZE
    {
      hide Tiles, AllTagged, HoleAddrs, Sound, Sorted, LoadLE, OrderedArray.Contents, SameOutside, Clear, HeadersIn;
      ghost var b, m0 := blocks[k], mem;
      BlockAt(mem, blocks, k, start, end);
      IndexWithout(mem, index.Contents(), blocks, k, start, end);
      AroundClear(index.Contents(), blocks[..k], blocks[k + 1..], start, b.addr, b.End(), end);
      MappedIn(start, end - start);
      mem := mem[header + 4 := 1];
      Freed(m0, mem, b);
      ShapeKept(m0, b.addr, b.End());
      SortedOutside(m0, mem, index.Contents(), b.addr, b.End(), start, end);
      SplitTagged(m0, mem, blocks, k, start, end);
    }

    /** Join the pending hole to a hole on its left, found through that hole's footer. */
    method MergeLeft(header: int, footer: int, ghost pre: seq<Block>, ghost m: Block, ghost post: seq<Block>)
      returns (h: int)
      requires Pending(pre, m, post) && header == m.addr && footer == m.End() - FOOTER
      modifies this`mem, index`size, index.data
      ensures h == JoinLeft(pre, m).addr && index.size <= old(index.size)
      ensures Pending(Before(pre), JoinLeft(pre, m), post)
      ensures SameOutside(old(mem), mem, h, m.End())
    {
      hide Tiles, AllTagged, HoleAddrs, Sorted, Load32, OrderedArray.Contents, SameOutside, Clear, HeadersIn;
      OutsideSelf(mem, header, header + m.size);
      PendingBounds(pre, m, post);
      if header > start {
        NeighbourLeft(mem, pre, start, header);
        MappedIn(header - FOOTER, FOOTER);
        var test := header - FOOTER;
        var left := Word(test + 4);
        if Word(test) == MAGIC && IsHoleByte(left) == 1 {
          JoinTheLeft(left, header, footer, pre, m, post);
          return left;
        }
      } else {
        NothingLeft(pre, start, header);
      }
      return header;
    }

    /** Take the left hole out of the index under its old size, then enlarge it over m. */
    method JoinTheLeft(left: int, header: int, footer: int, ghost pre: seq<Block>, ghost m: Block,
                       ghost post: seq<Block>)
      requires Pending(pre, m, post) && EndsInHole(pre)
      requires header == m.addr && footer == m.End() - FOOTER && left == pre[|pre| - 1].addr
      modifies this`mem, index`size, index.data
      ensures index.size <= old(index.size)
      ensures Pending(Before(pre), JoinLeft(pre, m), post)
      ensures SameOutside(old(mem), mem, left, m.End())
    {
      hide Tiles, AllTagged, HoleAddrs, Sorted, Load32, OrderedArray.Contents, SameOutside, Clear, HeadersIn, Tagged;
      ghost var m0, l := mem, pre[|pre| - 1];
      PendingBounds(pre, m, post);
      LeftFacts(mem, index.Contents(), pre, post, start, header);
      var i := Position(left);
      Withdraw(i, mem);
      MultisetCancel(multiset(index.Contents()), HoleAddrs(Before(pre)) + HoleAddrs(post), multiset{left});
      StoreLeft(left, header, footer, l, m);
      Rejoined(m0, Before(pre), JoinLeft(pre, m), post);
    }

    /** After the stores of a merge: everything around the merged hole is as it was. */
    lemma Rejoined(m0: Mem, pre: seq<Block>, m: Block, post: seq<Block>)
      requires Shape() && DomainIs(m0, start, end) && m.hole && m.size >= MIN_BLOCK && Tagged(mem, m)
      requires Tiles(pre, start, m.addr) && Tiles(post, m.End(), end) && AllTagged(m0, pre) && AllTagged(m0, post)
      requires SameOutside(m0, mem, m.addr, m.End())
      requires multiset(index.Contents()) == HoleAddrs(pre) + HoleAddrs(post) && Sorted(index.Contents(), SizeKey(m0))
      ensures Pending(pre, m, post)
    {
      hide Tiles, AllTagged, HoleAddrs, Sorted, Load32, OrderedArray.Contents, SameOutside, Clear, HeadersIn, Tagged;
      OutsideOn(m0, mem, m.addr, m.End(), start, m.addr);
      OutsideOn(m0, mem, m.addr, m.End(), m.End(), end);
      AllTaggedSame(m0, mem, pre, start, m.addr);
      AllTaggedSame(m0, mem, post, m.End(), end);
      TilesBound(pre, start, m.addr);
      TilesBound(post, m.End(), end);
      AroundClear(index.Contents(), pre, post, start, m.addr, m.End(), end);
      assert Mapped(m0, start, end - start);
      SortedOutside(m0, mem, index.Contents(), m.addr, m.End(), start, end);
    }

    /** `footer->header = left; left->size += header->size`. */
    method StoreLeft(left: int, header: int, footer: int, ghost l: Block, ghost m: Block)
      requires DomainIs(mem, start, end) && start <= l.addr && m.End() <= end <= U32_MAX && 0 <= start
      requires Tagged(mem, l) && Tagged(mem, m) && l.End() == m.addr && l.hole && l.size >= MIN_BLOCK
      requires m.size >= MIN_BLOCK
      requires left == l.addr && header == m.addr && footer == m.End() - FOOTER
      modifies this`mem
      ensures Tagged(mem, Block(left, l.size + m.size, true)) && SameOutside(old(mem), mem, left, m.End())
      ensures DomainIs(mem, start, end)
    {
      hide Load32, SameOutside, Tagged;
      ghost var m0 := mem;
      TaggedSize(mem, l);
      TaggedSize(mem, m);
      var sum := Word(left + 8) + Word(header + 8);
      StoreWord(footer + 4, left);
      ghost var m1 := mem;
      ShapeKept(m0, footer + 4, footer + 8);
      StoreWord(left + 8, sum);
      ShapeKept(m1, left + 8, left + 12);
      JoinedByStores(m0, m1, mem, l, m, footer + 4, left + 8);
    }

    /** `header->size += right->size`, then the right hole's footer points at header. */
    method StoreRight(right: int, header: int, ghost m: Block, ghost r: Block) returns (f: int)
      requires DomainIs(mem, start, end) && start <= m.addr && r.End() <= end <= U32_MAX && 0 <= start
      requires Tagged(mem, m) && Tagged(mem, r) && m.End() == r.addr && m.hole && m.size >= MIN_BLOCK
      requires r.size >= MIN_BLOCK
      requires right == r.addr && header == m.addr
      modifies this`mem
      ensures f == r.End() - FOOTER
      ensures Tagged(mem, Block(header, m.size + r.size, true)) && SameOutside(old(mem), mem, header, r.End())
      ensures DomainIs(mem, start, end)
    {
      hide Load32, SameOutside, Tagged;
      ghost var m0 := mem;
      TaggedSize(mem, m);
      TaggedSize(mem, r);
      var rightSize := Word(right + 8);
      StoreWord(header + 8, Word(header + 8) + rightSize);
      ghost var m1 := mem;
      ShapeKept(m0, header + 8, header + 12);
      f := right + rightSize - FOOTER;
      StoreWord(f + 4, header);
      ShapeKept(m1, f + 4, f + 8);
      JoinedByStores(m0, m1, mem, m, r, header + 8, f + 4);
    }

    /** Join the pending hole to a hole on its right, whose header follows the footer. */
    method MergeRight(header: int, footer: int, ghost pre: seq<Block>, ghost m: Block, ghost post: seq<Block>)
      returns (f: int)
      requires Pending(pre, m, post) && header == m.addr && footer == m.End() - FOOTER
      modifies this`mem, index`size, index.data
      ensures f == JoinRight(m, post).End() - FOOTER && index.size <= old(index.size)
      ensures Pending(pre, JoinRight(m, post), After(post))
      ensures SameOutside(old(mem), mem, header, f + FOOTER)
    {
      hide Tiles, AllTagged, HoleAddrs, Sorted, Load32, OrderedArray.Contents, SameOutside, Clear, HeadersIn;
      OutsideSelf(mem, header, header + m.size);
      PendingBounds(pre, m, post);
      var test := footer + FOOTER;
      if test < end {
        NeighbourRight(mem, post, test, end);
        MappedIn(test, HEADER);
        if Word(test) == MAGIC && IsHoleByte(test) != 0 {
          f := JoinTheRight(test, header, footer, pre, m, post);
          return f;
        }
      } else {
        NothingRight(post, test, end);
      }
      return footer;
    }

    /** Enlarge m over the right hole, then take that hole out of the index. */
    method JoinTheRight(right: int, header: int, footer: int, ghost pre: seq<Block>, ghost m: Block,
                        ghost post: seq<Block>)
      returns (f: int)
      requires Pending(pre, m, post) && StartsWithHole(post)
      requires header == m.addr && footer == m.End() - FOOTER && right == m.End()
      modifies this`mem, index`size, index.data
      ensures f == JoinRight(m, post).End() - FOOTER && index.size <= old(index.size)
      ensures Pending(pre, JoinRight(m, post), After(post))
      ensures SameOutside(old(mem), mem, header, f + FOOTER)
    {
      hide Tiles, AllTagged, HoleAddrs, Sorted, Load32, OrderedArray.Contents, SameOutside, Clear, HeadersIn, Tagged;
      ghost var m0, r := mem, post[0];
      PendingBounds(pre, m, post);
      RightFacts(mem, index.Contents(), pre, post, right, end);
      f := StoreRight(right, header, m, r);
      var i := Position(right);
      Withdraw(i, m0);
      MultisetCancel(multiset(index.Contents()), HoleAddrs(pre) + HoleAddrs(After(post)), multiset{right});
      Rejoined(m0, pre, JoinRight(m, post), After(post));
    }

    /** Unmap whole pages from the end until newSize bytes, rounded up, remain; never fewer than
        the minimum arena. */
    method Contract(newSize: nat) returns (length: nat)
      requires Shape() && newSize < end - start
      modifies this`end, this`mem, this`freeFrames
      ensures length == ContractLength(newSize) <= old(end) - start && end == start + length && Shape()
      ensures forall x :: x in mem ==> x in old(mem) && mem[x] == old(mem)[x]
      ensures freeFrames * PAGE_SIZE + end == old(freeFrames) * PAGE_SIZE + old(end)
    {
      length := newSize;
      if length % PAGE_SIZE != 0 { length := length - length % PAGE_SIZE + PAGE_SIZE; }
      if length < HEAP_MIN_SIZE { length := HEAP_MIN_SIZE; }
      assert length == ContractLength(newSize) && length % PAGE_SIZE == 0;
      hide PageUp, ContractLength;
      UnmapTo(length);
      end := start + length;
    }

    method UnmapTo(length: nat)
      requires 0 <= length <= end - start && length % PAGE_SIZE == 0 && (end - start) % PAGE_SIZE == 0
      requires DomainIs(mem, start, end) && length >= HEAP_MIN_SIZE
      modifies this`mem, this`freeFrames
      ensures DomainIs(mem, start, start + length)
      ensures forall x :: x in mem ==> x in old(mem) && mem[x] == old(mem)[x]
      ensures freeFrames * PAGE_SIZE + start + length == old(freeFrames) * PAGE_SIZE + end
    {
      var i := end - start - PAGE_SIZE;
      while i >= length
        invariant length - PAGE_SIZE <= i && i % PAGE_SIZE == 0
        invariant DomainIs(mem, start, start + i + PAGE_SIZE)
        invariant forall x :: x in mem ==> x in old(mem) && mem[x] == old(mem)[x]
        invariant freeFrames * PAGE_SIZE + start + i + PAGE_SIZE == old(freeFrames) * PAGE_SIZE + end
      {
        mem := map x | x in mem && x < start + i :: mem[x];
        freeFrames := freeFrames + 1;
        i := i - PAGE_SIZE;
      }
    }

    /** Rewrite the size and footer of the hole at `header`, which now ends with the arena. */
    method Resize(header: int, remnant: nat, ghost size: int)
      requires DomainIs(mem, start, end) && start <= header && header + remnant == end <= U32_MAX && 0 <= start
      requires HEADER <= remnant && HeaderAt(mem, header, size, true)
      modifies this`mem
      ensures DomainIs(mem, start, end) && SameOutside(old(mem), mem, header, end)
      ensures remnant >= MIN_BLOCK ==> Tagged(mem, Block(header, remnant, true))
    {
      hide Load32, SameOutside;
      ghost var m0 := mem;
      StoreWord(header + 8, remnant);
      ghost var m1 := mem;
      ShapeKept(m0, header + 8, header + 12);
      Resized(m0, m1, header, size, remnant);
      var footer := header + remnant - FOOTER;
      WriteFooter(footer, header);
      ShapeKept(m1, footer, footer + FOOTER);
      OutsideTwice(m0, m1, mem, header, header + HEADER, footer, footer + FOOTER, header, end);
      if remnant >= MIN_BLOCK { TagsWritten(m0, m1, mem, Block(header, remnant, true)); }
    }

    /** The freed hole m touches the end of the arena: give trailing pages back and cut m short.
        `fault` reports that the header is no longer mapped when its size is read back. */
    method Trim(header: int, ghost pre: seq<Block>, ghost m: Block) returns (fault: bool)
      requires Pending(pre, m, []) && header == m.addr
      modifies this`end, this`mem, this`freeFrames
      ensures end == start + ContractLength(header - start) && Shape()
      ensures freeFrames * PAGE_SIZE + end == old(freeFrames) * PAGE_SIZE + old(end)
      ensures fault <==> end - header < HEADER
      ensures !fault ==> SameOn(old(mem), mem, start, header)
      ensures !fault ==>
                AllTagged(mem, pre) && Sorted(index.Contents(), SizeKey(mem)) && HeadersIn(index.Contents(), start, end)
      ensures end - header >= MIN_BLOCK ==> Pending(pre, Block(header, end - header, true), [])
    {
      hide AllTagged, HoleAddrs, Sorted, Load32, OrderedArray.Contents, SameOutside, Clear, HeadersIn, SameOn,
           ContractLength;
      ghost var m0 := mem;
      PendingBounds(pre, m, []);
      NoPost(mem, pre, m.End());
      var oldLength := end - start;
      var newLength := Contract(header - start);
      ghost var m1 := mem;
      if end < header + HEADER { return true; }
      MappedIn(header, HEADER);
      CutTail(m0, m1, start, header, header + HEADER);
      TaggedSize(m0, m);
      LoadSame(m0, m1, header + 8) by { SameOnPart(m0, m1, header, header + HEADER, header + 8, header + 12); }
      HeaderSame(m0, m1, header, m.size, true);
      var size := Word(header + 8);
      if size > oldLength - newLength {
        Resize(header, size - (oldLength - newLength), m.size);
      }
      Trimmed(m0, m1, mem, index.Contents(), pre, start, header, end);
      NoPost(mem, pre, end);
      return false;
    }

    /** A client's store into the payload of a block it holds. */
    method ClientStore(a: int, v: Byte, ghost k: nat)
      requires Valid() && k < |blocks| && !blocks[k].hole && blocks[k].addr + HEADER <= a < blocks[k].End() - FOOTER
      modifies this`mem
      ensures Valid() && a in old(mem) && mem == old(mem)[a := v]
    {
      hide Tiles, AllTagged, HoleAddrs, Sound, Sorted, LoadLE, OrderedArray.Contents;
      TilesOrder(blocks, start, end);
      PayloadStored(mem, index.Contents(), blocks, k, a, v, start, end);
      mem := mem[a := v];
    }

    /** Release the block whose payload is at p, merge it with neighbouring holes and shrink the
        arena. It completes exactly when the freed hole is not stranded by the contraction. */
    method Free(p: int, ghost k: nat) returns (r: Outcome)
      requires Valid()
      requires p != 0 ==> k < |blocks| && !blocks[k].hole && p == blocks[k].addr + HEADER
      modifies this`end, this`mem, this`freeFrames, this`blocks, index`size, index.data
      ensures p == 0 ==> r == Done(0) && Valid() && blocks == old(blocks) && mem == old(mem) && end == old(end)
      ensures p != 0 ==> (r.Done? <==> !Stranded(old(blocks), k, start, old(end)))
      ensures p != 0 && r.Halt? ==>
                r.why == if ReleaseEnd(old(blocks), k, start, old(end)) - Merged(old(blocks), k).addr < HEADER
                         then PageFault else Corrupt
      ensures p != 0 && r.Done? ==>
                && Valid() && blocks == Release(old(blocks), k, start, old(end))
                && end == ReleaseEnd(old(blocks), k, start, old(end))
      ensures r.Done? ==> freeFrames * PAGE_SIZE + end == old(freeFrames) * PAGE_SIZE + old(end)
      ensures p != 0 && r.Done? ==> Kept(old(mem), mem, Live(old(blocks)) - {old(blocks)[k]})
    {
      hide Tiles, AllTagged, HoleAddrs, Sound, Sorted, Load32, OrderedArray.Contents, SameOutside, Live, Kept,
           Pending, Release, ContractLength, HeadersIn, Clear, ByteOf;
      if p == 0 { return Done(0); }
      AssertValidates();
      ghost var m0, was, from := mem, blocks, end;
      ghost var pre, m, post := blocks[..k], blocks[k].(hole := true), blocks[k + 1..];
      var header := p - HEADER;
      var footer := CheckBlockToFree(header, k);
      MarkFree(header, k);
      ghost var m1 := mem;
      header := MergeLeft(header, footer, pre, m, post);
      ghost var m2, left := mem, JoinLeft(pre, m);
      MergeIs(was, k, start, from);
      footer := MergeRight(header, footer, Before(pre), left, post);
      OutsideMerge(m0, m1, m2, mem, was, k, start, from);
      r := Settle(header, footer, was, k, m0);
    }

    /** The ASSERTs that free makes about the block it is given. */
    method CheckBlockToFree(header: int, ghost k: nat) returns (footer: int)
      requires Valid() && k < |blocks| && !blocks[k].hole && header == blocks[k].addr
      ensures footer == blocks[k].End() - FOOTER
    {
      hide Tiles, AllTagged, HoleAddrs, Sound, Sorted, LoadLE, OrderedArray.Contents;
      BlockAt(mem, blocks, k, start, end);
      assert header + HEADER >= start + HEADER && header + HEADER < end;
      assert Word(header) == MAGIC && IsHoleByte(header) == 0;
      var size := Word(header + 8);
      assert MIN_BLOCK <= size <= end - header;
      footer := header + size - FOOTER;
      assert Word(footer) == MAGIC && Word(footer + 4) == header;
    }

    /** The last part of free: contract when the merged hole ends the arena, then publish it. */
    method Settle(header: int, footer: int, ghost was: seq<Block>, ghost k: nat, ghost m0: Mem) returns (r: Outcome)
      requires k < |was| && !was[k].hole && Tiles(was, start, end) && Sound(was) && blocks == was
      requires header == Merged(was, k).addr && footer == Merged(was, k).End() - FOOTER
      requires Pending(was[..LeftOf(was, k)], Merged(was, k), was[RightOf(was, k)..])
      requires SameOutside(m0, mem, Merged(was, k).addr, Merged(was, k).End()) && index.size < HEAP_INDEX_SIZE
      modifies this`end, this`mem, this`freeFrames, this`blocks, index`size, index.data
      ensures r.Done? <==> !Stranded(was, k, start, old(end))
      ensures r.Halt? ==>
                r.why == if ReleaseEnd(was, k, start, old(end)) - Merged(was, k).addr < HEADER then PageFault
                         else Corrupt
      ensures r.Done? ==>
                && Valid() && blocks == Release(was, k, start, old(end)) && end == ReleaseEnd(was, k, start, old(end))
                && Kept(m0, mem, Live(was) - {was[k]})
      ensures r.Done? ==> freeFrames * PAGE_SIZE + end == old(freeFrames) * PAGE_SIZE + old(end)
    {
      hide Tiles, AllTagged, HoleAddrs, Sound, Sorted, Load32, OrderedArray.Contents, SameOutside, Live, Kept,
           ContractLength, HeadersIn, Clear, ByteOf, Tagged, SameOn, Walk, EntryOk, Release, Merged,
           LeftOf, RightOf, OrderedArray.Valid;
      ghost var pre, m, post, from := was[..LeftOf(was, k)], Merged(was, k), was[RightOf(was, k)..], end;
      ghost var merged := mem;
      MergedBounds(was, k, start, from);
      ReleaseEndBounds(was, k, start, from);
      PendingBounds(pre, m, post);
      EndsArena(was, k, start, from);
      ghost var hole := m;
      var fault := false;
      if footer + FOOTER == end {
        fault := Trim(header, pre, m);
        hole := m.(size := end - header);
      }
      if fault { return Halt(PageFault); }
      ghost var idx := index.Contents();
      Publish(header);
      if hole.size >= MIN_BLOCK {
        PublishedRepresents(mem, idx, index.Contents(), pre, hole, post, start, end);
        ReleaseKeeps(was, k, start, from);
        ReleaseIs(was, k, start, from, hole);
        blocks := Release(was, k, start, from);
        RepresentsValidates(mem, index.Contents(), blocks, start, end, max);
        ReleaseKept(m0, merged, mem, was, k, start, from);
      } else {
        ValidateFails(mem, index.Contents(), pre, start, header, end);
      }
      var ok := HeapValidate();
      if !ok { return Halt(Corrupt); }
      return Done(0);
    }
  }

  ghost function FramesLeft(frames: int, amount: nat, g: nat): int
    decreases g
  {
    if g == 0 then frames else FramesLeft(frames - amount / PAGE_SIZE, amount, g - 1)
  }

  /** Every growth adds the same number of bytes, and takes a frame for each page of them. */
  lemma {:induction false} GrownBy(end: int, frames: int, amount: nat, g: nat)
    ensures GrownEnd(end, amount, g) == end + g * amount
    ensures FramesLeft(frames, amount, g) == frames - g * (amount / 4096)
    decreases g
  {
    if g > 0 {
      GrownBy(end + amount, frames - amount / 4096, amount, g - 1);
      assert g * amount == (g - 1) * amount + amount;
      assert g * (amount / 4096) == (g - 1) * (amount / 4096) + amount / 4096;
    }
  }

  lemma KeptTrans(m: Mem, m1: Mem, m2: Mem, live: set<Block>)
    requires Kept(m, m1, live) && Kept(m1, m2, live)
    ensures Kept(m, m2, live)
  {
    forall b | b in live ensures SameOn(m, m2, b.addr, b.End()) {
      SameOnTrans(m, m1, m2, b.addr, b.End(), b.End());
    }
  }

  /** Writing inside one block keeps every live block other than it. */
  lemma CarveKept(m: Mem, m': Mem, bs: seq<Block>, k: nat, lo: int, hi: int)
    requires Tiles(bs, lo, hi) && k < |bs| && bs[k].hole && SameOutside(m, m', bs[k].addr, bs[k].End())
    ensures Kept(m, m', Live(bs))
  {
    TilesOrder(bs, lo, hi);
    forall b | b in Live(bs) ensures SameOn(m, m', b.addr, b.End()) {
      var i :| 0 <= i < |bs| && bs[i] == b;
      if i < k { assert bs[i].End() <= bs[k].addr; } else { assert bs[k].End() <= bs[i].addr; }
    }
  }

  lemma LastBelow(bs: seq<Block>, lo: int, hi: int)
    requires Tiles(bs, lo, hi)
    ensures EndsInHole(bs) ==> bs != [] && bs[|bs| - 1].addr <= hi
  {
    TilesBound(bs, lo, hi);
  }

  /** When the last block is a hole, the index lists it beside the holes before it. */
  lemma LastListed(idx: seq<int>, bs: seq<Block>)
    requires multiset(idx) == HoleAddrs(bs) && EndsInHole(bs)
    requires HoleAddrs(bs) == HoleAddrs(bs[..|bs| - 1]) + HoleAddrs([bs[|bs| - 1]])
    ensures multiset(idx) == HoleAddrs(bs[..|bs| - 1]) + multiset{bs[|bs| - 1].addr}
  {
    hide HoleAddrs;
    HoleAddrsOne(bs[|bs| - 1]);
  }

  lemma PageUpSum(a: nat, n: nat)
    requires a % PAGE_SIZE == 0
    ensures PageUp(a + n) == a + PageUp(n) && PageUp(n) >= n
    ensures n > 0 ==> PageUp(n) >= PAGE_SIZE
  {
  }

  /** Every live block lies below what a growth writes. */
  lemma GrowthKeeps(m: Mem, m': Mem, bs: seq<Block>, lo: int, hi: int)
    requires Tiles(bs, lo, hi)
    requires SameOn(m, m', lo, if EndsInHole(bs) then bs[|bs| - 1].addr else hi)
    ensures Kept(m, m', Live(bs))
  {
    TilesOrder(bs, lo, hi);
    forall b | b in Live(bs) ensures SameOn(m, m', b.addr, b.End()) {
      var i :| 0 <= i < |bs| && bs[i] == b;
      if EndsInHole(bs) { assert bs[i].End() <= bs[|bs| - 1].addr; }
    }
  }

  lemma LastBlock(bs: seq<Block>, lo: int, hi: int)
    requires Tiles(bs, lo, hi) && bs != []
    ensures bs[|bs| - 1].End() == hi && bs == bs[..|bs| - 1] + [bs[|bs| - 1]]
    ensures HoleAddrs(bs) == HoleAddrs(bs[..|bs| - 1]) + HoleAddrs([bs[|bs| - 1]])
  {
    hide Tiles, HoleAddrs;
    TilesNext(bs, |bs| - 1, lo, hi);
    HoleAddrsConcat(bs[..|bs| - 1], [bs[|bs| - 1]]);
  }

  lemma IndexRoom(idx: seq<int>, bs: seq<Block>, lo: int, mid: int, hi: int)
    requires multiset(idx) == HoleAddrs(bs) && Tiles(bs, lo, mid) && Sound(bs)
    requires mid - lo <= 0x38_0000 && mid <= hi
    ensures |idx| < HEAP_INDEX_SIZE && Clear(idx, mid, hi) && HeadersIn(idx, lo, hi)
  {
    hide Sound;
    IndexNeverFull(bs, lo, mid);
    assert HoleAddrs(bs) + HoleAddrs([]) == HoleAddrs(bs);
    assert |multiset(idx)| == |idx|;
    AroundClear(idx, bs, [], lo, mid, mid, mid);
  }

  lemma PrefixClear(idx: seq<int>, pre: seq<Block>, lo: int, mid: int, hi: int)
    requires multiset(idx) == HoleAddrs(pre) && Tiles(pre, lo, mid) && mid <= hi
    ensures Clear(idx, mid, hi) && HeadersIn(idx, lo, hi)
  {
    assert HoleAddrs(pre) + HoleAddrs([]) == HoleAddrs(pre);
    AroundClear(idx, pre, [], lo, mid, mid, mid);
  }

  lemma Resized(m: Mem, m': Mem, a: int, size: int, newSize: nat)
    requires HeaderAt(m, a, size, true) && SameOutside(m, m', a + 8, a + 12) && Load32(m', a + 8) == newSize
    ensures HeaderAt(m', a, newSize, true) && SameOutside(m, m', a, a + HEADER)
  {
    OutsideOn(m, m', a + 8, a + 12, a, a + 4);
    LoadSame(m, m', a);
    assert a + 4 in m;
    MappedKept(m, m', a + 8, a + 12, a, HEADER);
  }

  lemma AppendRepresents(m: Mem, m': Mem, bs: seq<Block>, hole: Block, lo: int)
    requires Tiles(bs, lo, hole.addr) && AllTagged(m, bs) && SameOn(m, m', lo, hole.addr) && Tagged(m', hole)
    requires hole.hole && !EndsInHole(bs)
    ensures AllTagged(m', Grow(bs, hole.addr, hole.size))
    ensures HoleAddrs(Grow(bs, hole.addr, hole.size)) == HoleAddrs(bs) + multiset{hole.addr}
  {
    hide Tiles, AllTagged, HoleAddrs, SameOn, Tagged;
    AllTaggedSame(m, m', bs, lo, hole.addr);
    TaggedOne(m', hole);
    AllTaggedConcat(m', bs, [hole]);
    HoleAddrsConcat(bs, [hole]);
    HoleAddrsOne(hole);
  }

  lemma EnlargeRepresents(m: Mem, m': Mem, idx: seq<int>, bs: seq<Block>, tail: Block, lo: int, hi: int)
    requires Tiles(bs, lo, hi) && AllTagged(m, bs) && Sound(bs) && EndsInHole(bs)
    requires SameOn(m, m', lo, tail.addr) && Tagged(m', tail) && Sorted(idx, SizeKey(m'))
    requires tail == bs[|bs| - 1].(size := tail.size) && tail.End() >= hi + MIN_BLOCK
    requires multiset(idx) == HoleAddrs(bs[..|bs| - 1]) + multiset{tail.addr}
    ensures Represents(m', idx, Grow(bs, hi, tail.End() - hi), lo, tail.End())
    ensures Sound(Grow(bs, hi, tail.End() - hi))
  {
    hide Tiles, AllTagged, HoleAddrs, SameOn, Tagged, Sound, Sorted;
    var n := |bs| - 1;
    LastBlock(bs, lo, hi);
    BlockAt(m, bs, n, lo, hi);
    AllTaggedConcat(m, bs[..n], [bs[n]]);
    AllTaggedSame(m, m', bs[..n], lo, tail.addr);
    TaggedOne(m', tail);
    AllTaggedConcat(m', bs[..n], [tail]);
    HoleAddrsConcat(bs[..n], [tail]);
    HoleAddrsOne(tail);
    GrowTiles(bs, lo, hi, tail.End() - hi);
    GrowKeeps(bs, hi, tail.End() - hi);
    assert Grow(bs, hi, tail.End() - hi) == bs[..n] + [tail];
  }

  lemma EntriesPositive(m: Mem, idx: seq<int>, bs: seq<Block>, lo: int, hi: int)
    requires Represents(m, idx, bs, lo, hi) && lo > 0
    ensures forall j :: 0 <= j < |idx| ==> idx[j] > 0
  {
    TilesBound(bs, lo, hi);
    forall j | 0 <= j < |idx| ensures idx[j] > 0 {
      var k := HoleOf(m, idx, bs, j);
    }
  }

  /** The entry with the greatest address reaches the end exactly when the last block is a hole. */
  lemma Endmost(m: Mem, idx: seq<int>, bs: seq<Block>, i: int, lo: int, hi: int)
    requires Represents(m, idx, bs, lo, hi) && (i == -1 <==> idx == [])
    requires i != -1 ==> 0 <= i < |idx| && forall j :: 0 <= j < |idx| ==> idx[j] <= idx[i]
    ensures EndsInHole(bs) <==> i != -1 && idx[i] + SizeAt(m, idx[i]) == hi
    ensures EndsInHole(bs) ==> idx[i] == bs[|bs| - 1].addr
    ensures i != -1 ==> Mapped(m, idx[i], HEADER)
  {
    hide Tiles, AllTagged, HoleAddrs, Sorted;
    TilesOrder(bs, lo, hi);
    if i != -1 {
      var k := HoleOf(m, idx, bs, i);
      if k < |bs| - 1 { assert bs[k].End() <= bs[|bs| - 1].addr; }
      if bs[k].End() == hi { assert k == |bs| - 1; }
    }
    if EndsInHole(bs) {
      LastBlock(bs, lo, hi);
      var j := IndexOf(m, idx, bs, |bs| - 1);
    }
  }

  /** Memory that agrees on the arena represents the same partition. */
  lemma RepresentsSame(m: Mem, m': Mem, idx: seq<int>, bs: seq<Block>, lo: int, hi: int)
    requires Represents(m, idx, bs, lo, hi) && SameOn(m, m', lo, hi)
    ensures Represents(m', idx, bs, lo, hi)
  {
    hide Tiles, AllTagged, HoleAddrs, LoadLE;
    AllTaggedSame(m, m', bs, lo, hi);
    TilesBound(bs, lo, hi);
    forall i | 0 <= i < |idx| ensures SizeAt(m', idx[i]) == SizeAt(m, idx[i]) {
      var k := HoleOf(m, idx, bs, i);
      assert lo <= bs[k].addr && bs[k].End() <= hi;
      LoadSame(m, m', idx[i] + 8);
    }
    SortedSame(m, m', idx);
  }

  /** Address a is no byte of the block's tags. */
  ghost predicate OffTags(b: Block, a: int) {
    a < b.addr || b.addr + HEADER <= a < b.End() - FOOTER || b.End() <= a
  }

  lemma {:induction false} TagsUntouched(m: Mem, bs: seq<Block>, a: int, v: Byte)
    requires AllTagged(m, bs) && a in m && forall i :: 0 <= i < |bs| ==> OffTags(bs[i], a) && bs[i].size >= MIN_BLOCK
    ensures AllTagged(m[a := v], bs)
  {
    if bs != [] {
      var b := bs[0];
      HeaderSame(m, m[a := v], b.addr, b.size, b.hole);
      FooterSame(m, m[a := v], b.End() - FOOTER, b.addr);
      TagsUntouched(m, bs[1..], a, v);
    }
  }

  /** A byte inside the payload of a live block can be anything. */
  lemma PayloadStored(m: Mem, idx: seq<int>, bs: seq<Block>, k: nat, a: int, v: Byte, lo: int, hi: int)
    requires Represents(m, idx, bs, lo, hi) && k < |bs| && !bs[k].hole && a in m
    requires bs[k].addr + HEADER <= a < bs[k].End() - FOOTER
    ensures Represents(m[a := v], idx, bs, lo, hi)
  {
    hide Tiles, AllTagged, HoleAddrs, LoadLE;
    TilesOrder(bs, lo, hi);
    forall i | 0 <= i < |bs| ensures OffTags(bs[i], a) {
      if i < k { assert bs[i].End() <= bs[k].addr; }
      if k < i { assert bs[k].End() <= bs[i].addr; }
    }
    TagsUntouched(m, bs, a, v);
    forall i | 0 <= i < |idx| ensures SizeAt(m[a := v], idx[i]) == SizeAt(m, idx[i]) {
      var j := HoleOf(m, idx, bs, i);
      assert OffTags(bs[j], a);
      LoadSame(m, m[a := v], idx[i] + 8);
    }
    SortedSame(m, m[a := v], idx);
  }

  lemma CarveAssembled(m0: Mem, m: Mem, idx: seq<int>, bs: seq<Block>, k: nat, n: nat, aligned: bool, lo: int, hi: int)
    requires Tiles(bs, lo, hi) && AllTagged(m0, bs) && Sound(bs)
    requires k < |bs| && Fits(bs[k], n, aligned) && n >= MIN_LIVE
    requires AllTagged(m, Parts(bs[k], n, aligned)) && SameOutside(m0, m, bs[k].addr, bs[k].End())
    requires multiset(idx) == HoleAddrs(bs[..k]) + HoleAddrs(bs[k + 1..]) + PartHoles(bs[k], n, aligned)
    requires Sorted(idx, SizeKey(m))
    ensures Represents(m, idx, Carve(bs, k, n, aligned), lo, hi) && Sound(Carve(bs, k, n, aligned))
  {
    hide Tiles, AllTagged, Sound, HoleAddrs, SameOutside, Sorted, Fits, Parts, PartHoles;
    BlockAt(m0, bs, k, lo, hi);
    SpliceTagged(m0, m, bs[..k], [bs[k]], Parts(bs[k], n, aligned), bs[k + 1..], lo, bs[k].addr, bs[k].End(), hi);
    CarveHoles(idx, bs[..k], bs[k], bs[k + 1..], n, aligned);
    CarveKeeps(bs, k, n, aligned, lo, hi);
  }

  ghost function SideHole(side: Block): multiset<int> {
    if side.size != 0 then multiset{side.addr} else multiset{}
  }

  /** The two sides that dividing b leaves around the caller's block, possibly empty. */
  function LeftSide(b: Block, n: nat, aligned: bool): Block {
    Block(b.addr, Carved(b, n, aligned).addr - b.addr, true)
  }

  function RightSide(b: Block, n: nat, aligned: bool): Block {
    var c := Carved(b, n, aligned);
    Block(c.End(), b.End() - c.End(), true)
  }

  ghost function PartHoles(b: Block, n: nat, aligned: bool): multiset<int> {
    SideHole(LeftSide(b, n, aligned)) + SideHole(RightSide(b, n, aligned))
  }

  /** The tags of b were written, inside b, unless b is empty. */
  ghost predicate Wrote(m: Mem, m': Mem, b: Block) {
    if b.size == 0 then m' == m else Tagged(m', b) && SameOutside(m, m', b.addr, b.End())
  }

  function SideSeq(side: Block): seq<Block> {
    if side.size != 0 then [side] else []
  }

  lemma PartsAre(b: Block, n: nat, aligned: bool)
    requires Fits(b, n, aligned) && n >= MIN_LIVE
    ensures Parts(b, n, aligned)
         == SideSeq(LeftSide(b, n, aligned)) + [Carved(b, n, aligned)] + SideSeq(RightSide(b, n, aligned))
  {
  }

  /** Everything alloc and free need to know about one block of the partition. */
  lemma BlockAt(m: Mem, bs: seq<Block>, k: nat, lo: int, hi: int)
    requires Tiles(bs, lo, hi) && AllTagged(m, bs) && k < |bs|
    ensures bs == bs[..k] + [bs[k]] + bs[k + 1..]
    ensures Tiles(bs[..k], lo, bs[k].addr) && Tiles(bs[k + 1..], bs[k].End(), hi)
    ensures lo <= bs[k].addr && MIN_BLOCK <= bs[k].size && bs[k].End() <= hi
    ensures Tagged(m, bs[k])
  {
    hide Tiles, AllTagged, Tagged;
    CutAt(bs, k);
    TilesSplit(bs, k, lo, hi);
    TilesSplit(bs, k + 1, lo, hi);
    TilesNext(bs, k, lo, hi);
    TilesBound(bs, lo, hi);
    TaggedAt(m, bs, k);
  }

  lemma IndexWithout(m: Mem, idx: seq<int>, bs: seq<Block>, k: nat, lo: int, hi: int)
    requires Represents(m, idx, bs, lo, hi) && Sound(bs) && hi - lo <= 0x38_0000 && k < |bs|
    ensures bs[k].hole ==> multiset(idx) == HoleAddrs(bs[..k]) + HoleAddrs(bs[k + 1..]) + multiset{bs[k].addr}
    ensures !bs[k].hole ==> multiset(idx) == HoleAddrs(bs[..k]) + HoleAddrs(bs[k + 1..])
    ensures |idx| < HEAP_INDEX_SIZE
  {
    hide Tiles, AllTagged, HoleAddrs, Sound, Sorted;
    CutAt(bs, k);
    HoleAddrsAround(bs[..k], [bs[k]], bs[k + 1..]);
    HoleAddrsOne(bs[k]);
    assert forall a: multiset<int> :: a + multiset{} == a;
    IndexNeverFull(bs, lo, hi);
    assert |multiset(idx)| == |idx|;
  }

  lemma HoleAddrsOne(b: Block)
    ensures HoleAddrs([b]) == if b.hole then multiset{b.addr} else multiset{}
  {
  }

  lemma MultisetCancel(a: multiset<int>, b: multiset<int>, c: multiset<int>)
    requires a + c == b + c
    ensures a == b
  {
    assert (a + c) - c == a && (b + c) - c == b;
  }

  lemma ClearPart(idx: seq<int>, lo: int, hi: int, a: int, b: int)
    requires Clear(idx, lo, hi) && lo <= a && b <= hi
    ensures Clear(idx, a, b)
  {
  }

  /** Publishing the leading part keeps headers clear of the rest of the hole. */
  lemma ClearMore(was: seq<int>, idx: seq<int>, a: int, b: int, left: Block, lo: int, hi: int)
    requires multiset(idx) == multiset(was) + SideHole(left)
    requires Clear(was, a, b) && HeadersIn(was, lo, hi)
    requires left.addr == a && (left.size == 0 || left.size >= MIN_BLOCK)
    requires lo <= a && left.End() <= b <= hi
    ensures Clear(idx, left.End(), b) && HeadersIn(idx, lo, hi)
  {
    forall i | 0 <= i < |idx|
      ensures idx[i] + HEADER <= left.End() || b <= idx[i]
      ensures lo <= idx[i] && idx[i] + HEADER <= hi
    {
      assert idx[i] in multiset(idx);
      if idx[i] in multiset(was) {
        var j :| 0 <= j < |was| && was[j] == idx[i];
      }
    }
  }

  /** The three writes of a division together tag its parts. */
  lemma PartsWritten(m0: Mem, m1: Mem, m2: Mem, m3: Mem, b: Block, n: nat, aligned: bool)
    requires Fits(b, n, aligned) && n >= MIN_LIVE
    requires Wrote(m0, m1, LeftSide(b, n, aligned))
    requires Wrote(m1, m2, Carved(b, n, aligned))
    requires Wrote(m2, m3, RightSide(b, n, aligned))
    ensures AllTagged(m3, Parts(b, n, aligned)) && SameOutside(m0, m3, b.addr, b.End())
  {
    hide Tagged, AllTagged, SameOutside;
    var l, c, r := LeftSide(b, n, aligned), Carved(b, n, aligned), RightSide(b, n, aligned);
    PartsAre(b, n, aligned);
    assert l.size == 0 || l.size >= MIN_BLOCK;
    assert l.addr == b.addr && l.End() == c.addr && c.End() == r.addr && r.End() == b.End() && c.size >= MIN_BLOCK;
    assert r.size == 0 || r.size >= MIN_BLOCK;
    hide Carved, LeftSide, RightSide, Fits, Parts;
    WroteOutside(m0, m1, l);
    WroteOutside(m1, m2, c);
    WroteOutside(m2, m3, r);
    OutsideTwice(m0, m1, m2, l.addr, l.End(), c.addr, c.End(), b.addr, c.End());
    OutsideTwice(m0, m2, m3, b.addr, c.End(), r.addr, r.End(), b.addr, b.End());
    KeptTag(m2, m3, c, r.addr, r.End());
    SideTagged(m1, m2, m3, l, c, r);
    TaggedOne(m3, c);
    AllTaggedConcat(m3, SideSeq(l), [c]);
    AllTaggedConcat(m3, SideSeq(l) + [c], SideSeq(r));
  }

  /** The sizes computed by alloc are those of the carved block and its two sides. */
  lemma DivideIs(b: Block, n: nat, aligned: bool, left: Block, block: Block, right: Block)
    requires Fits(b, n, aligned) && n >= MIN_LIVE
    requires left == Block(b.addr, Lead(b, aligned), true)
    requires block == Block(b.addr + left.size, Taken(b, n, aligned), false)
    requires right == Block(block.addr + block.size, b.size - left.size - block.size, true)
    ensures left == LeftSide(b, n, aligned) && block == Carved(b, n, aligned) && right == RightSide(b, n, aligned)
    ensures left.size == 0 || left.size >= MIN_BLOCK
    ensures right.size == 0 || right.size >= MIN_BLOCK
    ensures block.size >= MIN_LIVE && left.End() == block.addr && block.End() == right.addr && right.End() == b.End()
    ensures left.addr == b.addr && left.End() <= b.End() && block.End() <= b.End() && b.addr + MIN_BLOCK <= b.End()
  {
  }

  lemma WroteOutside(m: Mem, m': Mem, b: Block)
    requires Wrote(m, m', b)
    ensures SameOutside(m, m', b.addr, b.End())
  {
  }

  lemma SideTagged(m1: Mem, m2: Mem, m3: Mem, l: Block, c: Block, r: Block)
    requires l.size == 0 || (l.size >= MIN_BLOCK && Tagged(m1, l))
    requires r.size == 0 || Tagged(m3, r)
    requires SameOutside(m1, m2, c.addr, c.End()) && SameOutside(m2, m3, r.addr, r.End())
    requires l.End() <= c.addr && l.End() <= r.addr
    ensures AllTagged(m3, SideSeq(l)) && AllTagged(m3, SideSeq(r))
  {
    hide Tagged, AllTagged, SameOutside;
    TaggedNone(m3);
    if l.size != 0 {
      KeptTag(m1, m2, l, c.addr, c.End());
      KeptTag(m2, m3, l, r.addr, r.End());
      TaggedOne(m3, l);
    }
    if r.size != 0 { TaggedOne(m3, r); }
  }

  lemma TaggedOne(m: Mem, b: Block)
    requires Tagged(m, b)
    ensures AllTagged(m, [b])
  {
    hide Tagged;
  }

  lemma TaggedNone(m: Mem)
    ensures AllTagged(m, [])
  {
  }

  lemma KeptTag(m: Mem, m': Mem, b: Block, lo: int, hi: int)
    requires Tagged(m, b) && b.size >= MIN_BLOCK && SameOutside(m, m', lo, hi) && (b.End() <= lo || hi <= b.addr)
    ensures Tagged(m', b)
  {
    OutsideOn(m, m', lo, hi, b.addr, b.End());
    TaggedSame(m, m', b);
  }

  lemma PartsHoles(b: Block, n: nat, aligned: bool)
    requires Fits(b, n, aligned) && n >= MIN_LIVE
    ensures HoleAddrs(Parts(b, n, aligned)) == PartHoles(b, n, aligned)
  {
    hide HoleAddrs, Parts, Fits;
    var l, c, r := LeftSide(b, n, aligned), Carved(b, n, aligned), RightSide(b, n, aligned);
    PartsAre(b, n, aligned);
    HoleAddrsAround(SideSeq(l), [c], SideSeq(r));
    HoleAddrsOne(c);
    SideHoles(l);
    SideHoles(r);
    assert forall a: multiset<int> :: a + multiset{} == a;
  }

  lemma SideHoles(side: Block)
    requires side.hole
    ensures HoleAddrs(SideSeq(side)) == SideHole(side)
  {
  }

  lemma CarveHoles(idx: seq<int>, pre: seq<Block>, b: Block, post: seq<Block>, n: nat, aligned: bool)
    requires Fits(b, n, aligned) && n >= MIN_LIVE
    requires multiset(idx) == HoleAddrs(pre) + HoleAddrs(post) + PartHoles(b, n, aligned)
    ensures multiset(idx) == HoleAddrs(pre + Parts(b, n, aligned) + post)
  {
    PartsHoles(b, n, aligned);
    HoleAddrsAround(pre, Parts(b, n, aligned), post);
  }

  /** Setting is_hole turns a live block's tags into those of a hole. */
  lemma Freed(m: Mem, m': Mem, b: Block)
    requires Tagged(m, b) && b.size >= MIN_BLOCK && m' == m[b.addr + 4 := 1]
    ensures Tagged(m', b.(hole := true)) && SameOutside(m, m', b.addr, b.End())
  {
    hide Load32;
    assert b.addr + 4 in m;
    assert SameOutside(m, m', b.addr + 4, b.addr + 5);
    OutsideOn(m, m', b.addr + 4, b.addr + 5, b.addr, b.addr + 4);
    OutsideOn(m, m', b.addr + 4, b.addr + 5, b.addr + 8, b.addr + 12);
    OutsideOn(m, m', b.addr + 4, b.addr + 5, b.End() - FOOTER, b.End());
    LoadSame(m, m', b.addr);
    LoadSame(m, m', b.addr + 8);
    FooterSame(m, m', b.End() - FOOTER, b.addr);
    MappedKept(m, m', b.addr + 4, b.addr + 5, b.addr, HEADER);
  }

  lemma SplitTagged(m: Mem, m': Mem, bs: seq<Block>, k: nat, lo: int, hi: int)
    requires Tiles(bs, lo, hi) && AllTagged(m, bs) && k < |bs| && SameOutside(m, m', bs[k].addr, bs[k].End())
    ensures AllTagged(m', bs[..k]) && AllTagged(m', bs[k + 1..])
  {
    hide Tiles, AllTagged, SameOutside;
    BlockAt(m, bs, k, lo, hi);
    var b := bs[k];
    AllTaggedConcat(m, bs[..k] + [b], bs[k + 1..]);
    AllTaggedConcat(m, bs[..k], [b]);
    OutsideOn(m, m', b.addr, b.End(), lo, b.addr);
    OutsideOn(m, m', b.addr, b.End(), b.End(), hi);
    AllTaggedSame(m, m', bs[..k], lo, b.addr);
    AllTaggedSame(m, m', bs[k + 1..], b.End(), hi);
  }

  /** The pending hole after a left neighbour, when it is a hole, has been joined to it. */
  ghost function JoinLeft(pre: seq<Block>, m: Block): Block {
    if EndsInHole(pre) then Block(pre[|pre| - 1].addr, pre[|pre| - 1].size + m.size, true) else m
  }

  ghost function JoinRight(m: Block, post: seq<Block>): Block {
    if StartsWithHole(post) then Block(m.addr, m.size + post[0].size, true) else m
  }

  /** Two adjacent holes are one when the first header holds the sum of their sizes and the
      second footer points at the first header. */
  lemma JoinTagged(m: Mem, m': Mem, a: Block, b: Block)
    requires Tagged(m, a) && Tagged(m, b) && a.End() == b.addr && a.hole && a.size >= MIN_BLOCK && b.size >= MIN_BLOCK
    requires SameOn(m, m', a.addr, a.addr + 8) && Mapped(m', a.addr + 8, 4) && SizeAt(m', a.addr) == a.size + b.size
    requires SameOn(m, m', b.End() - 8, b.End() - 4) && Mapped(m', b.End() - 4, 4) && Load32(m', b.End() - 4) == a.addr
    ensures Tagged(m', Block(a.addr, a.size + b.size, true))
  {
    hide Load32;
    LoadSame(m, m', a.addr);
    assert a.addr + 4 in m;
    LoadSame(m, m', b.End() - 8);
    assert b.End() - FOOTER + 4 == b.End() - 4;
  }

  ghost function Before(pre: seq<Block>): seq<Block> {
    if EndsInHole(pre) then pre[..|pre| - 1] else pre
  }

  ghost function After(post: seq<Block>): seq<Block> {
    if StartsWithHole(post) then post[1..] else post
  }

  lemma OutsideSelf(m: Mem, lo: int, hi: int)
    ensures SameOutside(m, m, lo, hi)
  {
  }

  /** Reading backwards from a block: its left neighbour's footer names that neighbour. */
  lemma NeighbourLeft(m: Mem, pre: seq<Block>, lo: int, a: int)
    requires Tiles(pre, lo, a) && AllTagged(m, pre) && lo < a
    ensures pre != [] && lo <= a - MIN_BLOCK && Load32(m, a - FOOTER) == MAGIC
    ensures Load32(m, a - FOOTER + 4) == pre[|pre| - 1].addr && Mapped(m, pre[|pre| - 1].addr, HEADER)
    ensures ByteOf(m, pre[|pre| - 1].addr + 4) == 1 <==> EndsInHole(pre)
  {
    hide Tiles, AllTagged, Load32;
    NothingLeft(pre, lo, a);
    TilesNext(pre, |pre| - 1, lo, a);
    TilesBound(pre, lo, a);
    TaggedAt(m, pre, |pre| - 1);
  }

  lemma NothingLeft(pre: seq<Block>, lo: int, a: int)
    requires Tiles(pre, lo, a)
    ensures pre == [] <==> a <= lo
  {
    TilesBound(pre, lo, a);
  }

  lemma NeighbourRight(m: Mem, post: seq<Block>, a: int, hi: int)
    requires Tiles(post, a, hi) && AllTagged(m, post) && a < hi
    ensures post != [] && a + MIN_BLOCK <= hi && Load32(m, a) == MAGIC
    ensures ByteOf(m, a + 4) != 0 <==> StartsWithHole(post)
  {
    hide Load32;
    TilesBound(post, a, hi);
    TaggedAt(m, post, 0);
  }

  lemma NothingRight(post: seq<Block>, a: int, hi: int)
    requires Tiles(post, a, hi)
    ensures post == [] <==> a >= hi
  {
    TilesBound(post, a, hi);
  }

  lemma LeftFacts(m: Mem, idx: seq<int>, pre: seq<Block>, post: seq<Block>, lo: int, a: int)
    requires Tiles(pre, lo, a) && AllTagged(m, pre) && EndsInHole(pre)
    requires multiset(idx) == HoleAddrs(pre) + HoleAddrs(post)
    ensures var l := pre[|pre| - 1];
            && Tiles(Before(pre), lo, l.addr) && AllTagged(m, Before(pre)) && Tagged(m, l)
            && l.End() == a && lo <= l.addr && l.size >= MIN_BLOCK
            && multiset(idx) == HoleAddrs(Before(pre)) + HoleAddrs(post) + multiset{l.addr}
  {
    hide Tiles, AllTagged, HoleAddrs, Tagged;
    var n := |pre| - 1;
    BlockAt(m, pre, n, lo, a);
    LastBlock(pre, lo, a);
    HoleAddrsOne(pre[n]);
    AllTaggedConcat(m, pre[..n], [pre[n]]);
    Assoc(HoleAddrs(pre[..n]), multiset{pre[n].addr}, HoleAddrs(post));
  }

  lemma RightFacts(m: Mem, idx: seq<int>, pre: seq<Block>, post: seq<Block>, a: int, hi: int)
    requires Tiles(post, a, hi) && AllTagged(m, post) && StartsWithHole(post)
    requires multiset(idx) == HoleAddrs(pre) + HoleAddrs(post)
    ensures var r := post[0];
            && Tiles(After(post), r.End(), hi) && AllTagged(m, After(post)) && Tagged(m, r)
            && r.addr == a && r.End() <= hi && r.size >= MIN_BLOCK
            && multiset(idx) == HoleAddrs(pre) + HoleAddrs(After(post)) + multiset{r.addr}
  {
    hide Tagged;
    TilesBound(post, a, hi);
    Assoc(HoleAddrs(pre), HoleAddrs(post[1..]), multiset{post[0].addr});
    assert HoleAddrs(post) == HoleAddrs(post[1..]) + multiset{post[0].addr};
  }

  /** The two stores of a merge, wherever each comes first, join the holes a and b. */
  lemma JoinedByStores(m0: Mem, m1: Mem, m2: Mem, a: Block, b: Block, first: int, second: int)
    requires Tagged(m0, a) && Tagged(m0, b) && a.End() == b.addr && a.hole && a.size >= MIN_BLOCK && b.size >= MIN_BLOCK
    requires SameOutside(m0, m1, first, first + 4) && SameOutside(m1, m2, second, second + 4)
    requires || (&& first == a.addr + 8 && second == b.End() - 4
                 && Load32(m1, first) == a.size + b.size && Load32(m2, second) == a.addr)
             || (&& first == b.End() - 4 && second == a.addr + 8
                 && Load32(m1, first) == a.addr && Load32(m2, second) == a.size + b.size)
    ensures Tagged(m2, Block(a.addr, a.size + b.size, true)) && SameOutside(m0, m2, a.addr, b.End())
  {
    hide Load32;
    MappedKept(m0, m1, first, first + 4, first, 4);
    assert Mapped(m1, first, 4);
    OutsideOn(m1, m2, second, second + 4, first, first + 4);
    LoadSame(m1, m2, first);
    SameThrough(m0, m1, m2, first, second, a.addr, a.addr + 8);
    SameThrough(m0, m1, m2, first, second, b.End() - 8, b.End() - 4);
    MappedTwice(m0, m1, m2, first, second, a.addr + 8);
    MappedTwice(m0, m1, m2, first, second, b.End() - 4);
    JoinTagged(m0, m2, a, b);
    OutsideTwice(m0, m1, m2, first, first + 4, second, second + 4, a.addr, b.End());
  }

  lemma SameThrough(m0: Mem, m1: Mem, m2: Mem, first: int, second: int, lo: int, hi: int)
    requires SameOutside(m0, m1, first, first + 4) && SameOutside(m1, m2, second, second + 4)
    requires (hi <= first || first + 4 <= lo) && (hi <= second || second + 4 <= lo)
    ensures SameOn(m0, m2, lo, hi)
  {
  }

  lemma MappedTwice(m0: Mem, m1: Mem, m2: Mem, first: int, second: int, a: int)
    requires SameOutside(m0, m1, first, first + 4) && SameOutside(m1, m2, second, second + 4) && Mapped(m0, a, 4)
    ensures Mapped(m2, a, 4)
  {
  }

  lemma TaggedSize(m: Mem, b: Block)
    requires Tagged(m, b)
    ensures Load32(m, b.addr + 8) == b.size && Mapped(m, b.addr, HEADER)
  {
    hide Load32;
  }

  lemma TilesOne(b: Block)
    requires b.size >= MIN_BLOCK
    ensures Tiles([b], b.addr, b.End())
  {
  }

  lemma SameOnPart(m: Mem, m': Mem, lo: int, hi: int, a: int, b: int)
    requires SameOn(m, m', lo, hi) && lo <= a && b <= hi
    ensures SameOn(m, m', a, b)
  {
  }

  /** Unmapping the tail leaves the bytes below it. */
  lemma CutTail(m: Mem, m': Mem, start: int, header: int, hi: int)
    requires forall x :: x in m' ==> x in m && m'[x] == m[x]
    requires forall x :: start <= x < hi ==> x in m'
    requires start <= header <= hi
    ensures SameOn(m, m', start, header) && SameOn(m, m', header, hi)
  {
  }

  /** Below the trimmed hole nothing changed: tags and index order there are intact. */
  lemma Trimmed(m0: Mem, m1: Mem, m2: Mem, idx: seq<int>, pre: seq<Block>, lo: int, h: int, hi: int)
    requires SameOn(m0, m1, lo, h) && SameOutside(m1, m2, h, hi) && h <= hi
    requires Tiles(pre, lo, h) && AllTagged(m0, pre) && multiset(idx) == HoleAddrs(pre) && Sorted(idx, SizeKey(m0))
    ensures SameOn(m0, m2, lo, h) && AllTagged(m2, pre) && Sorted(idx, SizeKey(m2)) && HeadersIn(idx, lo, hi)
  {
    hide Tiles, AllTagged, HoleAddrs, Sorted, SameOutside, SameOn, HeadersIn, Clear;
    OutsideOn(m1, m2, h, hi, lo, h);
    SameOnTrans(m0, m1, m2, lo, h, h);
    AllTaggedSame(m0, m2, pre, lo, h);
    PrefixClear(idx, pre, lo, h, hi);
    SortedBelow(m0, m2, idx, pre, lo, h);
  }

  lemma SortedBelow(m: Mem, m': Mem, idx: seq<int>, pre: seq<Block>, lo: int, h: int)
    requires Tiles(pre, lo, h) && AllTagged(m, pre) && SameOn(m, m', lo, h)
    requires multiset(idx) == HoleAddrs(pre) && Sorted(idx, SizeKey(m))
    ensures Sorted(idx, SizeKey(m'))
  {
    RepresentsSame(m, m', idx, pre, lo, h);
  }

  /** heap_validate cannot get past a remnant shorter than its own boundary tags. */
  lemma {:induction false} ValidateFails(m: Mem, idx: seq<int>, pre: seq<Block>, a: int, h: int, end: int)
    requires Tiles(pre, a, h) && AllTagged(m, pre) && h < end < h + MIN_BLOCK
    ensures Walk(m, idx, a, end) == -1
    decreases |pre|
  {
    hide Load32;
    if pre != [] {
      TilesBound(pre, a, h);
      ValidateFails(m, idx, pre[1..], pre[0].End(), h, end);
      TaggedSize(m, pre[0]);
    }
  }

  /** Marking block k free and joining it to its neighbours gives the merged hole. */
  lemma MergeIs(bs: seq<Block>, k: nat, lo: int, hi: int)
    requires Tiles(bs, lo, hi) && k < |bs| && !bs[k].hole
    ensures var pre, m, post := bs[..k], bs[k].(hole := true), bs[k + 1..];
            && Before(pre) == bs[..LeftOf(bs, k)] && After(post) == bs[RightOf(bs, k)..]
            && JoinRight(JoinLeft(pre, m), post) == Merged(bs, k)
            && JoinLeft(pre, m).End() == m.End()
            && (After(post) == [] <==> RightOf(bs, k) == |bs|)
  {
    hide Tiles;
    var pre, post := bs[..k], bs[k + 1..];
    if k > 0 {
      TilesNext(bs, k - 1, lo, hi);
      assert pre[|pre| - 1] == bs[k - 1] && pre[..k - 1] == bs[..k - 1];
    }
    TilesNext(bs, k, lo, hi);
    if k + 1 < |bs| {
      assert post[0] == bs[k + 1] && post[1..] == bs[k + 2..];
    }
  }

  lemma NoPost(m: Mem, pre: seq<Block>, a: int)
    ensures Tiles([], a, a) && AllTagged(m, []) && HoleAddrs(pre) + HoleAddrs([]) == HoleAddrs(pre)
    ensures forall b :: Tiles([], b, a) ==> b == a
  {
  }

  /** All that free has written before it contracts lies inside the merged hole. */
  lemma OutsideMerge(m0: Mem, m1: Mem, m2: Mem, m3: Mem, bs: seq<Block>, k: nat, lo: int, hi: int)
    requires Tiles(bs, lo, hi) && k < |bs| && !bs[k].hole
    requires SameOutside(m0, m1, bs[k].addr, bs[k].End())
    requires SameOutside(m1, m2, JoinLeft(bs[..k], bs[k].(hole := true)).addr, bs[k].End())
    requires SameOutside(m2, m3, Merged(bs, k).addr, Merged(bs, k).End())
    requires JoinLeft(bs[..k], bs[k].(hole := true)).addr == Merged(bs, k).addr
    ensures SameOutside(m0, m3, Merged(bs, k).addr, Merged(bs, k).End())
  {
    hide Tiles, SameOutside;
    TilesOrder(bs, lo, hi);
    MergedBounds(bs, k, lo, hi);
    var a, b := Merged(bs, k).addr, Merged(bs, k).End();
    OutsideTwice(m0, m1, m2, bs[k].addr, bs[k].End(), a, bs[k].End(), a, b);
    OutsideTwice(m0, m2, m3, a, b, a, b, a, b);
  }

  lemma EndsArena(bs: seq<Block>, k: nat, lo: int, hi: int)
    requires Tiles(bs, lo, hi) && k < |bs|
    ensures Merged(bs, k).End() == hi <==> RightOf(bs, k) == |bs|
    ensures RightOf(bs, k) == |bs| ==> bs[RightOf(bs, k)..] == []
  {
    hide Tiles;
    MergedBounds(bs, k, lo, hi);
    TilesOrder(bs, lo, hi);
  }

  lemma PublishedRepresents(m: Mem, was: seq<int>, idx: seq<int>, pre: seq<Block>, b: Block, post: seq<Block>, lo: int,
                            hi: int)
    requires b.hole && b.size >= MIN_BLOCK && Tiles(pre, lo, b.addr) && Tiles(post, b.End(), hi)
    requires AllTagged(m, pre) && Tagged(m, b) && AllTagged(m, post)
    requires multiset(was) == HoleAddrs(pre) + HoleAddrs(post) && multiset(idx) == multiset(was) + multiset{b.addr}
    requires Sorted(idx, SizeKey(m))
    ensures Represents(m, idx, pre + [b] + post, lo, hi)
  {
    hide Tiles, AllTagged, HoleAddrs, Sorted, Tagged;
    TilesOne(b);
    TilesConcat(pre, [b], lo, b.addr, b.End());
    TilesConcat(pre + [b], post, lo, b.End(), hi);
    TaggedOne(m, b);
    AllTaggedConcat(m, pre, [b]);
    AllTaggedConcat(m, pre + [b], post);
    HoleAddrsAround(pre, [b], post);
    HoleAddrsOne(b);
  }

  lemma ReleaseIs(bs: seq<Block>, k: nat, lo: int, hi: int, b: Block)
    requires k < |bs| && b.addr == Merged(bs, k).addr && b.hole
    requires b.size == if RightOf(bs, k) < |bs| then Merged(bs, k).size else ReleaseEnd(bs, k, lo, hi) - b.addr
    ensures Release(bs, k, lo, hi) == bs[..LeftOf(bs, k)] + [b] + bs[RightOf(bs, k)..]
  {
  }

  /** The other live blocks lie outside the merged hole, and so outside all that free touches. */
  lemma ReleaseKept(m0: Mem, m1: Mem, m2: Mem, bs: seq<Block>, k: nat, lo: int, hi: int)
    requires Tiles(bs, lo, hi) && k < |bs| && !bs[k].hole
    requires SameOutside(m0, m1, Merged(bs, k).addr, Merged(bs, k).End())
    requires if RightOf(bs, k) == |bs| then SameOn(m1, m2, lo, Merged(bs, k).addr) else m2 == m1
    ensures Kept(m0, m2, Live(bs) - {bs[k]})
  {
    hide Tiles;
    TilesOrder(bs, lo, hi);
    MergedBounds(bs, k, lo, hi);
    var l, r, a, e := LeftOf(bs, k), RightOf(bs, k), Merged(bs, k).addr, Merged(bs, k).End();
    forall b | b in Live(bs) - {bs[k]} ensures SameOn(m0, m2, b.addr, b.End()) {
      var i :| 0 <= i < |bs| && bs[i] == b;
      assert i < l || i >= r;
      if i < l { assert bs[i].End() <= bs[l].addr; } else { assert e <= bs[i].addr; }
      OutsideOn(m0, m1, a, e, b.addr, b.End());
    }
  }
}
