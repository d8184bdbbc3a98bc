/** Boundary tags: how a block partition is written into memory, and what heap_validate reads back.
    A header is magic (offset 0), is_hole (one byte, offset 4) and size (offset 8);
    a footer is magic (offset 0) and the address of its header (offset 4). */
module HeapTags {
  import opened Memory
  import opened Blocks
  import opened OrderedArrays

  const MAGIC := 0x1238_90AB

  function SizeAt(m: Mem, a: int): nat {
    Load32(m, a + 8)
  }

  /** `header_t_less_than`: holes are ordered by the size now in their header. */
  function BySize(m: Mem): Less {
    (a: int, b: int) => SizeAt(m, a) < SizeAt(m, b)
  }

  ghost function SizeKey(m: Mem): int -> int {
    (a: int) => SizeAt(m, a)
  }

  function HoleByte(hole: bool): Byte {
    if hole then 1 else 0
  }

  ghost predicate HeaderAt(m: Mem, a: int, size: int, hole: bool) {
    Mapped(m, a, HEADER) && Load32(m, a) == MAGIC && ByteOf(m, a + 4) == HoleByte(hole) && SizeAt(m, a) == size
  }

  ghost predicate FooterAt(m: Mem, f: int, header: int) {
    Mapped(m, f, FOOTER) && Load32(m, f) == MAGIC && Load32(m, f + 4) == header
  }

  ghost predicate Tagged(m: Mem, b: Block) {
    HeaderAt(m, b.addr, b.size, b.hole) && FooterAt(m, b.End() - FOOTER, b.addr)
  }

  /** The tags of a block, byte offset by byte offset. */
  lemma TaggedMeans(m: Mem, b: Block)
    requires b.size >= 20 && forall x :: b.addr <= x < b.addr + b.size ==> x in m
    ensures Tagged(m, b) <==>
              && Load32(m, b.addr) == 0x1238_90AB && m[b.addr + 4] == (if b.hole then 1 else 0)
              && Load32(m, b.addr + 8) == b.size
              && Load32(m, b.addr + b.size - 8) == 0x1238_90AB && Load32(m, b.addr + b.size - 4) == b.addr
  {
    hide Load32;
  }

  ghost predicate AllTagged(m: Mem, bs: seq<Block>) {
    bs == [] || (Tagged(m, bs[0]) && AllTagged(m, bs[1..]))
  }

  lemma {:induction false} TaggedAt(m: Mem, bs: seq<Block>, i: nat)
    requires AllTagged(m, bs) && i < |bs|
    ensures Tagged(m, bs[i])
  {
    if i > 0 { TaggedAt(m, bs[1..], i - 1); }
  }

  lemma {:induction false} AllTaggedConcat(m: Mem, xs: seq<Block>, ys: seq<Block>)
    ensures AllTagged(m, xs + ys) <==> AllTagged(m, xs) && AllTagged(m, ys)
  {
    if xs == [] {
      assert xs + ys == ys;
    } else {
      assert (xs + ys)[0] == xs[0] && (xs + ys)[1..] == xs[1..] + ys;
      AllTaggedConcat(m, xs[1..], ys);
    }
  }

  // ---------------------------------------------------------------- writing tags

  function PutHeader(m: Mem, a: int, size: nat, hole: bool): Mem {
    Store32(Store32(m, a, MAGIC)[a + 4 := HoleByte(hole)], a + 8, size)
  }

  function PutFooter(m: Mem, f: int, header: nat): Mem {
    Store32(Store32(m, f, MAGIC), f + 4, header)
  }

  lemma PutHeaderWorks(m: Mem, a: int, size: nat, hole: bool)
    requires Mapped(m, a, HEADER) && size <= U32_MAX
    ensures HeaderAt(PutHeader(m, a, size, hole), a, size, hole)
    ensures SameOutside(m, PutHeader(m, a, size, hole), a, a + HEADER)
  {
    var m1 := Store32(m, a, MAGIC);
    StoreLoad(m, a, MAGIC);
    assert a + 4 in m;
    var m2 := m1[a + 4 := HoleByte(hole)];
    assert SameOutside(m1, m2, a + 4, a + 5);
    LoadSame(m1, m2, a);
    var m3 := Store32(m2, a + 8, size);
    StoreLoad(m2, a + 8, size);
    OutsideOn(m2, m3, a + 8, a + 12, a, a + 8);
    LoadSame(m2, m3, a);
    OutsideTwice(m, m1, m2, a, a + 4, a + 4, a + 5, a, a + 8);
    OutsideTwice(m, m2, m3, a, a + 8, a + 8, a + 12, a, a + 12);
  }

  lemma PutFooterWorks(m: Mem, f: int, header: nat)
    requires Mapped(m, f, FOOTER) && header <= U32_MAX
    ensures FooterAt(PutFooter(m, f, header), f, header)
    ensures SameOutside(m, PutFooter(m, f, header), f, f + FOOTER)
  {
    var m1 := Store32(m, f, MAGIC);
    StoreLoad(m, f, MAGIC);
    var m2 := Store32(m1, f + 4, header);
    StoreLoad(m1, f + 4, header);
    OutsideOn(m1, m2, f + 4, f + 8, f, f + 4);
    LoadSame(m1, m2, f);
    OutsideTwice(m, m1, m2, f, f + 4, f + 4, f + 8, f, f + 8);
  }

  lemma HeaderSame(m: Mem, m': Mem, a: int, size: int, hole: bool)
    requires HeaderAt(m, a, size, hole) && SameOn(m, m', a, a + HEADER)
    ensures HeaderAt(m', a, size, hole)
  {
    LoadSame(m, m', a);
    LoadSame(m, m', a + 8);
    assert a + 4 in m;
  }

  lemma FooterSame(m: Mem, m': Mem, f: int, header: int)
    requires FooterAt(m, f, header) && SameOn(m, m', f, f + FOOTER)
    ensures FooterAt(m', f, header)
  {
    LoadSame(m, m', f);
    LoadSame(m, m', f + 4);
  }

  lemma TagsWritten(m: Mem, m1: Mem, m2: Mem, b: Block)
    requires b.size >= MIN_BLOCK
    requires HeaderAt(m1, b.addr, b.size, b.hole) && SameOutside(m, m1, b.addr, b.addr + HEADER)
    requires FooterAt(m2, b.End() - FOOTER, b.addr) && SameOutside(m1, m2, b.End() - FOOTER, b.End())
    ensures Tagged(m2, b) && SameOutside(m, m2, b.addr, b.End())
  {
    OutsideOn(m1, m2, b.End() - FOOTER, b.End(), b.addr, b.addr + HEADER);
    HeaderSame(m1, m2, b.addr, b.size, b.hole);
    OutsideTwice(m, m1, m2, b.addr, b.addr + HEADER, b.End() - FOOTER, b.End(), b.addr, b.End());
  }

  lemma MappedKept(m: Mem, m': Mem, lo: int, hi: int, a: int, n: nat)
    requires SameOutside(m, m', lo, hi) && Mapped(m, a, n)
    ensures Mapped(m', a, n)
  {
  }

  lemma TaggedSame(m: Mem, m': Mem, b: Block)
    requires Tagged(m, b) && b.size >= MIN_BLOCK && SameOn(m, m', b.addr, b.End())
    ensures Tagged(m', b)
  {
    HeaderSame(m, m', b.addr, b.size, b.hole);
    FooterSame(m, m', b.End() - FOOTER, b.addr);
  }

  lemma {:induction false} AllTaggedSame(m: Mem, m': Mem, bs: seq<Block>, lo: int, hi: int)
    requires AllTagged(m, bs) && Tiles(bs, lo, hi) && SameOn(m, m', lo, hi)
    ensures AllTagged(m', bs)
    decreases |bs|
  {
    if bs != [] {
      TilesBound(bs, lo, hi);
      TaggedSame(m, m', bs[0]);
      AllTaggedSame(m, m', bs[1..], bs[0].End(), hi);
    }
  }

  /** Rewriting the tags over [a, b) leaves those of the blocks around it. */
  lemma SpliceTagged(m: Mem, m': Mem, pre: seq<Block>, mid: seq<Block>, news: seq<Block>, post: seq<Block>,
                     lo: int, a: int, b: int, hi: int)
    requires AllTagged(m, pre + mid + post)
    requires Tiles(pre, lo, a) && Tiles(post, b, hi) && SameOutside(m, m', a, b)
    requires AllTagged(m', news)
    ensures AllTagged(m', pre + news + post)
  {
    AllTaggedConcat(m, pre, mid);
    AllTaggedConcat(m, pre + mid, post);
    OutsideOn(m, m', a, b, lo, a);
    OutsideOn(m, m', a, b, b, hi);
    AllTaggedSame(m, m', pre, lo, a);
    AllTaggedSame(m, m', post, b, hi);
    AllTaggedConcat(m', pre, news);
    AllTaggedConcat(m', pre + news, post);
  }

  // ---------------------------------------------------------------- the index

  /** The index lists each hole exactly once and nothing else, in the order of the sizes now in
      memory. */
  ghost predicate Indexed(m: Mem, idx: seq<int>, bs: seq<Block>) {
    multiset(idx) == HoleAddrs(bs) && Sorted(idx, SizeKey(m))
  }

  /** Memory and index together describe the partition `bs` of [lo, hi). */
  ghost predicate Represents(m: Mem, idx: seq<int>, bs: seq<Block>, lo: int, hi: int) {
    Tiles(bs, lo, hi) && AllTagged(m, bs) && Indexed(m, idx, bs)
  }

  lemma HoleOf(m: Mem, idx: seq<int>, bs: seq<Block>, i: nat) returns (k: nat)
    requires AllTagged(m, bs) && Indexed(m, idx, bs) && i < |idx|
    ensures k < |bs| && bs[k].hole && bs[k].addr == idx[i]
    ensures Mapped(m, idx[i], HEADER) && SizeAt(m, idx[i]) == bs[k].size
  {
    assert idx[i] in multiset(idx);
    HoleAddrsMember(bs, idx[i]);
    k :| 0 <= k < |bs| && bs[k].hole && bs[k].addr == idx[i];
    TaggedAt(m, bs, k);
  }

  lemma IndexOf(m: Mem, idx: seq<int>, bs: seq<Block>, k: nat) returns (i: nat)
    requires Indexed(m, idx, bs) && k < |bs| && bs[k].hole
    ensures i < |idx| && idx[i] == bs[k].addr
  {
    HoleAddrsMember(bs, bs[k].addr);
    assert bs[k].addr in multiset(idx);
    i :| 0 <= i < |idx| && idx[i] == bs[k].addr;
  }

  lemma SortedSame(m: Mem, m': Mem, idx: seq<int>)
    requires Sorted(idx, SizeKey(m))
    requires forall i :: 0 <= i < |idx| ==> SizeAt(m', idx[i]) == SizeAt(m, idx[i])
    ensures Sorted(idx, SizeKey(m'))
  {
    forall i, j | 0 <= i < j < |idx| ensures SizeKey(m')(idx[i]) <= SizeKey(m')(idx[j]) {
      assert SizeKey(m)(idx[i]) <= SizeKey(m)(idx[j]);
    }
  }

  // ---------------------------------------------------------------- heap_validate

  /** What the block walk of heap_validate asserts of the block at a. */
  predicate BlockOk(m: Mem, idx: seq<int>, a: int, end: int) {
    && Mapped(m, a, HEADER) && Load32(m, a) == MAGIC && MIN_BLOCK <= SizeAt(m, a) <= end - a
    && (var footer := a + SizeAt(m, a) - FOOTER;
        Mapped(m, footer, FOOTER) && Load32(m, footer) == MAGIC && Load32(m, footer + 4) == a)
    && (ByteOf(m, a + 4) != 0 ==> multiset(idx)[a] == 1)
  }

  /** The block walk from address a: the number of holes met, or -1 when an assertion fails
      or an unmapped byte would be read. */
  function Walk(m: Mem, idx: seq<int>, a: int, end: int): int
    decreases end - a
  {
    if a >= end then (if a == end then 0 else -1)
    else if !BlockOk(m, idx, a, end) then -1
    else
      var rest := Walk(m, idx, a + SizeAt(m, a), end);
      if rest < 0 then -1 else if ByteOf(m, a + 4) != 0 then rest + 1 else rest
  }

  /** What the second loop of heap_validate checks of entry i. */
  predicate EntryOk(m: Mem, idx: seq<int>, start: int, end: int, i: nat)
    requires i < |idx|
  {
    && start <= idx[i] < end && Mapped(m, idx[i], HEADER)
    && Load32(m, idx[i]) == MAGIC && ByteOf(m, idx[i] + 4) == 1
    && (i > 0 ==> SizeAt(m, idx[i - 1]) <= SizeAt(m, idx[i]))
  }

  ghost predicate Validates(m: Mem, idx: seq<int>, start: int, end: int, max: int) {
    && start < end <= max
    && Walk(m, idx, start, end) == |idx|
    && forall i :: 0 <= i < |idx| ==> EntryOk(m, idx, start, end, i)
  }

  lemma TaggedBlockOk(m: Mem, idx: seq<int>, b: Block, end: int)
    requires Tagged(m, b) && MIN_BLOCK <= b.size && b.End() <= end
    requires b.hole ==> multiset(idx)[b.addr] == 1
    ensures BlockOk(m, idx, b.addr, end)
    ensures SizeAt(m, b.addr) == b.size && (ByteOf(m, b.addr + 4) != 0 <==> b.hole)
  {
  }

  /** Every hole of bs is in the index exactly once. */
  ghost predicate HolesListed(idx: seq<int>, bs: seq<Block>) {
    bs == [] || ((bs[0].hole ==> multiset(idx)[bs[0].addr] == 1) && HolesListed(idx, bs[1..]))
  }

  lemma {:induction false} HolesListedWhole(idx: seq<int>, bs: seq<Block>, all: multiset<int>, lo: int, hi: int)
    requires multiset(idx) == HoleAddrs(bs) + all && Tiles(bs, lo, hi)
    requires forall a :: lo <= a < hi ==> a !in all
    ensures HolesListed(idx, bs)
    decreases |bs|
  {
    if bs != [] {
      TilesBound(bs, lo, hi);
      HoleAddrsOnce(bs, lo, hi, bs[0].addr);
      var head := if bs[0].hole then multiset{bs[0].addr} else multiset{};
      HolesListedWhole(idx, bs[1..], all + head, bs[0].End(), hi);
    }
  }

  lemma WalkStep(m: Mem, idx: seq<int>, b: Block, end: int, rest: nat)
    requires Tagged(m, b) && MIN_BLOCK <= b.size && b.End() <= end
    requires b.hole ==> multiset(idx)[b.addr] == 1
    requires Walk(m, idx, b.End(), end) == rest
    ensures Walk(m, idx, b.addr, end) == if b.hole then rest + 1 else rest
  {
    hide Tagged, BlockOk, Load32, ByteOf;
    TaggedBlockOk(m, idx, b, end);
  }

  lemma {:induction false} WalkOfTiles(m: Mem, idx: seq<int>, bs: seq<Block>, a: int, end: int)
    requires Tiles(bs, a, end) && AllTagged(m, bs) && HolesListed(idx, bs)
    ensures Walk(m, idx, a, end) == |HoleAddrs(bs)|
    decreases |bs|
  {
    if bs != [] {
      var b, rest := bs[0], bs[1..];
      TilesBound(rest, b.End(), end);
      WalkOfTiles(m, idx, rest, b.End(), end);
      WalkStep(m, idx, b, end, |HoleAddrs(rest)|);
    }
  }

  /** The partition that a successful walk has seen. */
  ghost function Seen(m: Mem, idx: seq<int>, a: int, end: int): seq<Block>
    requires Walk(m, idx, a, end) >= 0
    decreases end - a
  {
    if a >= end then []
    else [Block(a, SizeAt(m, a), ByteOf(m, a + 4) != 0)] + Seen(m, idx, a + SizeAt(m, a), end)
  }

  /** All that one step of the walk tells about the block it saw. */
  ghost predicate SeenBlock(m: Mem, idx: seq<int>, b: Block) {
    && (b.hole ==> multiset(idx)[b.addr] == 1)
    && (ByteOf(m, b.addr + 4) == HoleByte(b.hole) ==> Tagged(m, b))
    && (!b.hole ==> ByteOf(m, b.addr + 4) == 0)
  }

  lemma {:induction false} SeenTiles(m: Mem, idx: seq<int>, a: int, end: int)
    requires Walk(m, idx, a, end) >= 0
    ensures Tiles(Seen(m, idx, a, end), a, end)
    ensures |HoleAddrs(Seen(m, idx, a, end))| == Walk(m, idx, a, end)
    ensures forall i :: 0 <= i < |Seen(m, idx, a, end)| ==> SeenBlock(m, idx, Seen(m, idx, a, end)[i])
    decreases end - a
  {
    hide Tagged, BlockOk, Load32, ByteOf, SeenBlock;
    if a < end {
      var b := Block(a, SizeAt(m, a), ByteOf(m, a + 4) != 0);
      SeenStep(m, idx, b, end);
      SeenTiles(m, idx, b.End(), end);
    }
  }

  lemma SeenStep(m: Mem, idx: seq<int>, b: Block, end: int)
    requires b.size == SizeAt(m, b.addr) && (b.hole <==> ByteOf(m, b.addr + 4) != 0)
    requires BlockOk(m, idx, b.addr, end)
    ensures SeenBlock(m, idx, b) && b.size >= MIN_BLOCK
  {
  }

  lemma AdjacentSorted(idx: seq<int>, key: int -> int, i: nat, j: nat)
    requires i <= j < |idx|
    requires forall k :: 0 < k < |idx| ==> key(idx[k - 1]) <= key(idx[k])
    ensures key(idx[i]) <= key(idx[j])
  {
    if i < j { AdjacentSorted(idx, key, i, j - 1); }
  }

  lemma SameSizeSubset(a: multiset<int>, b: multiset<int>)
    requires a <= b && |a| == |b|
    ensures a == b
  {
    assert |b - a| == |b| - |a|;
    assert b == a + (b - a);
  }

  /** heap_validate succeeds exactly when memory and index describe some partition of the arena. */
  lemma ValidatesIff(m: Mem, idx: seq<int>, start: int, end: int, max: int)
    ensures Validates(m, idx, start, end, max) <==>
            start < end <= max && exists bs :: Represents(m, idx, bs, start, end)
  {
    if start < end <= max && exists bs :: Represents(m, idx, bs, start, end) {
      var bs :| Represents(m, idx, bs, start, end);
      RepresentsValidates(m, idx, bs, start, end, max);
    }
    if Validates(m, idx, start, end, max) {
      ValidatesRepresents(m, idx, start, end, max);
    }
  }

  lemma RepresentsValidates(m: Mem, idx: seq<int>, bs: seq<Block>, start: int, end: int, max: int)
    requires start < end <= max && Represents(m, idx, bs, start, end)
    ensures Validates(m, idx, start, end, max)
  {
    TilesBound(bs, start, end);
    HolesListedWhole(idx, bs, multiset{}, start, end);
    WalkOfTiles(m, idx, bs, start, end);
    assert |multiset(idx)| == |idx|;
    forall i | 0 <= i < |idx| ensures EntryOk(m, idx, start, end, i) {
      var k := HoleOf(m, idx, bs, i);
      TaggedAt(m, bs, k);
      if i > 0 { assert SizeKey(m)(idx[i - 1]) <= SizeKey(m)(idx[i]); }
    }
  }

  lemma {:induction false} TaggedAll(m: Mem, bs: seq<Block>)
    requires forall i :: 0 <= i < |bs| ==> Tagged(m, bs[i])
    ensures AllTagged(m, bs)
  {
    if bs != [] {
      forall i | 0 <= i < |bs[1..]| ensures Tagged(m, bs[1..][i]) { assert bs[1..][i] == bs[i + 1]; }
      TaggedAll(m, bs[1..]);
    }
  }

  lemma EntriesSorted(m: Mem, idx: seq<int>, start: int, end: int)
    requires forall i :: 0 <= i < |idx| ==> EntryOk(m, idx, start, end, i)
    ensures Sorted(idx, SizeKey(m))
  {
    var key := SizeKey(m);
    forall k | 0 < k < |idx| ensures key(idx[k - 1]) <= key(idx[k]) {
      assert EntryOk(m, idx, start, end, k);
    }
    forall i, j | 0 <= i < j < |idx| ensures key(idx[i]) <= key(idx[j]) {
      AdjacentSorted(idx, key, i, j);
    }
  }

  lemma SeenIndexed(m: Mem, idx: seq<int>, bs: seq<Block>, start: int, end: int)
    requires Tiles(bs, start, end) && |HoleAddrs(bs)| == |idx|
    requires forall i :: 0 <= i < |bs| ==> SeenBlock(m, idx, bs[i])
    ensures multiset(idx) == HoleAddrs(bs)
  {
    forall a ensures HoleAddrs(bs)[a] <= multiset(idx)[a] {
      HoleAddrsMember(bs, a);
      HoleAddrsOnce(bs, start, end, a);
    }
    assert |multiset(idx)| == |idx|;
    SameSizeSubset(HoleAddrs(bs), multiset(idx));
  }

  lemma ValidatesRepresents(m: Mem, idx: seq<int>, start: int, end: int, max: int)
    requires Validates(m, idx, start, end, max)
    ensures Represents(m, idx, Seen(m, idx, start, end), start, end)
  {
    hide Seen, Walk, Tagged, Tiles, HoleAddrs;
    var bs := Seen(m, idx, start, end);
    SeenTiles(m, idx, start, end);
    SeenIndexed(m, idx, bs, start, end);
    EntriesSorted(m, idx, start, end);
    forall i | 0 <= i < |bs| ensures Tagged(m, bs[i]) {
      if bs[i].hole {
        HoleAddrsMember(bs, bs[i].addr);
        assert bs[i].addr in multiset(idx);
        var j :| 0 <= j < |idx| && idx[j] == bs[i].addr;
        assert EntryOk(m, idx, start, end, j);
      }
    }
    TaggedAll(m, bs);
  }
}
