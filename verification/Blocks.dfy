/** The block partition of the kernel heap's arena, and what carving, releasing and growing
    do to it. `start` and `end` bound the arena; a block's size counts its header and footer. */
module Blocks {
  import opened Memory

  const HEADER := 12
  const FOOTER := 8
  const MIN_BLOCK := 20
  const MIN_LIVE := 21
  const HEAP_MIN_SIZE := 0x7_0000
  const HEAP_INDEX_SIZE := 0x2_0000

  datatype Block = Block(addr: int, size: int, hole: bool) {
    function End(): int { addr + size }
  }

  // ---------------------------------------------------------------- tilings

  /** The blocks lie end to end from lo to hi, none too small for its boundary tags. */
  ghost predicate Tiles(bs: seq<Block>, lo: int, hi: int) {
    if bs == [] then lo == hi
    else bs[0].addr == lo && bs[0].size >= MIN_BLOCK && Tiles(bs[1..], bs[0].End(), hi)
  }

  /** Where block k starts; hi when k is one past the last block. */
  ghost function Cut(bs: seq<Block>, k: nat, hi: int): int
    requires k <= |bs|
  {
    if k < |bs| then bs[k].addr else hi
  }

  lemma {:induction false} TilesConcat(xs: seq<Block>, ys: seq<Block>, lo: int, mid: int, hi: int)
    requires Tiles(xs, lo, mid) && Tiles(ys, mid, hi)
    ensures Tiles(xs + ys, lo, hi)
  {
    if xs == [] {
      assert xs + ys == ys;
    } else {
      TilesConcat(xs[1..], ys, xs[0].End(), mid, hi);
      assert (xs + ys)[1..] == xs[1..] + ys;
    }
  }

  lemma {:induction false} TilesSplit(bs: seq<Block>, k: nat, lo: int, hi: int)
    requires Tiles(bs, lo, hi) && k <= |bs|
    ensures Tiles(bs[..k], lo, Cut(bs, k, hi)) && Tiles(bs[k..], Cut(bs, k, hi), hi)
  {
    if k > 0 {
      TilesSplit(bs[1..], k - 1, bs[0].End(), hi);
      assert bs[..k][1..] == bs[1..][..k - 1];
    }
  }

  lemma {:induction false} TilesBound(bs: seq<Block>, lo: int, hi: int)
    requires Tiles(bs, lo, hi)
    ensures lo <= hi && (bs != [] ==> lo + MIN_BLOCK <= hi)
    ensures forall i :: 0 <= i < |bs| ==> bs[i].size >= MIN_BLOCK && lo <= bs[i].addr && bs[i].End() <= hi
  {
    if bs != [] {
      TilesBound(bs[1..], bs[0].End(), hi);
      forall i | 0 <= i < |bs|
        ensures bs[i].size >= MIN_BLOCK && lo <= bs[i].addr && bs[i].End() <= hi
      {
        if i > 0 { assert bs[i] == bs[1..][i - 1]; }
      }
    }
  }

  /** Blocks are pairwise disjoint and in address order. */
  lemma TilesOrder(bs: seq<Block>, lo: int, hi: int)
    requires Tiles(bs, lo, hi)
    ensures forall i :: 0 <= i < |bs| ==> bs[i].size >= MIN_BLOCK && lo <= bs[i].addr && bs[i].End() <= hi
    ensures forall i, j :: 0 <= i < j < |bs| ==> bs[i].End() <= bs[j].addr
  {
    TilesBound(bs, lo, hi);
    forall i, j | 0 <= i < j < |bs| ensures bs[i].End() <= bs[j].addr {
      TilesSplit(bs, j, lo, hi);
      TilesBound(bs[..j], lo, bs[j].addr);
      assert bs[..j][i] == bs[i];
    }
  }

  lemma TilesNext(bs: seq<Block>, i: nat, lo: int, hi: int)
    requires Tiles(bs, lo, hi) && i < |bs|
    ensures bs[i].End() == Cut(bs, i + 1, hi)
  {
    TilesSplit(bs, i, lo, hi);
    assert bs[i..][0] == bs[i] && bs[i..][1..] == bs[i + 1..];
    assert Tiles(bs[i + 1..], bs[i].End(), hi);
  }

  /** Putting other blocks in the place of blocks l..r, over the same extent. */
  function Splice(bs: seq<Block>, l: nat, r: nat, news: seq<Block>): seq<Block>
    requires l <= r <= |bs|
  {
    bs[..l] + news + bs[r..]
  }

  lemma SpliceTiles(bs: seq<Block>, l: nat, r: nat, news: seq<Block>, lo: int, hi: int)
    requires Tiles(bs, lo, hi) && l <= r <= |bs|
    requires Tiles(news, Cut(bs, l, hi), Cut(bs, r, hi))
    ensures Tiles(Splice(bs, l, r, news), lo, hi)
  {
    TilesSplit(bs, l, lo, hi);
    TilesSplit(bs, r, lo, hi);
    TilesConcat(bs[..l], news, lo, Cut(bs, l, hi), Cut(bs, r, hi));
    TilesConcat(bs[..l] + news, bs[r..], lo, Cut(bs, r, hi), hi);
  }

  lemma CutAt(bs: seq<Block>, k: nat)
    requires k < |bs|
    ensures bs == bs[..k] + [bs[k]] + bs[k + 1..]
  {
  }

  lemma CutRange(bs: seq<Block>, l: nat, r: nat)
    requires l <= r <= |bs|
    ensures bs == bs[..l] + bs[l..r] + bs[r..]
  {
  }

  // ---------------------------------------------------------------- holes

  /** Addresses of the holes, with multiplicity. */
  ghost function HoleAddrs(bs: seq<Block>): multiset<int> {
    if bs == [] then multiset{}
    else (if bs[0].hole then multiset{bs[0].addr} else multiset{}) + HoleAddrs(bs[1..])
  }

  lemma {:induction false} HoleAddrsConcat(xs: seq<Block>, ys: seq<Block>)
    ensures HoleAddrs(xs + ys) == HoleAddrs(xs) + HoleAddrs(ys)
  {
    if xs == [] {
      assert xs + ys == ys;
    } else {
      assert (xs + ys)[1..] == xs[1..] + ys && (xs + ys)[0] == xs[0];
      HoleAddrsConcat(xs[1..], ys);
      Assoc(if xs[0].hole then multiset{xs[0].addr} else multiset{}, HoleAddrs(xs[1..]), HoleAddrs(ys));
    }
  }

  lemma Assoc(a: multiset<int>, b: multiset<int>, c: multiset<int>)
    ensures (a + b) + c == a + (b + c)
    ensures (a + b) + c == (a + c) + b
  {
  }

  lemma HoleAddrsAround(pre: seq<Block>, mid: seq<Block>, post: seq<Block>)
    ensures HoleAddrs(pre + mid + post) == HoleAddrs(pre) + HoleAddrs(post) + HoleAddrs(mid)
  {
    hide HoleAddrs;
    HoleAddrsConcat(pre, mid);
    HoleAddrsConcat(pre + mid, post);
    Assoc(HoleAddrs(pre), HoleAddrs(mid), HoleAddrs(post));
  }

  lemma {:induction false} HoleAddrsMember(bs: seq<Block>, a: int)
    ensures a in HoleAddrs(bs) <==> exists i :: 0 <= i < |bs| && bs[i].hole && bs[i].addr == a
  {
    if bs != [] {
      HoleAddrsMember(bs[1..], a);
      if i :| 0 <= i < |bs| && bs[i].hole && bs[i].addr == a {
        if i > 0 { assert bs[1..][i - 1] == bs[i]; }
      }
      if a in HoleAddrs(bs[1..]) {
        var j :| 0 <= j < |bs[1..]| && bs[1..][j].hole && bs[1..][j].addr == a;
        assert bs[j + 1] == bs[1..][j];
      }
    }
  }

  /** In a tiling no address is listed twice. */
  lemma {:induction false} HoleAddrsOnce(bs: seq<Block>, lo: int, hi: int, a: int)
    requires Tiles(bs, lo, hi)
    ensures HoleAddrs(bs)[a] <= 1
  {
    if bs != [] {
      HoleAddrsOnce(bs[1..], bs[0].End(), hi, a);
      HoleAddrsMember(bs[1..], bs[0].addr);
      TilesBound(bs[1..], bs[0].End(), hi);
    }
  }

  ghost predicate EndsInHole(bs: seq<Block>) {
    bs != [] && bs[|bs| - 1].hole
  }

  ghost predicate StartsWithHole(bs: seq<Block>) {
    bs != [] && bs[0].hole
  }

  /** No two holes are neighbours, and every live block has at least one byte of payload. */
  ghost predicate Sound(bs: seq<Block>) {
    bs == [] ||
    (&& !(bs[0].hole && StartsWithHole(bs[1..]))
     && (!bs[0].hole ==> bs[0].size >= MIN_LIVE)
     && Sound(bs[1..]))
  }

  lemma {:induction false} SoundMeans(bs: seq<Block>)
    requires Sound(bs)
    ensures forall i :: 0 <= i < |bs| - 1 ==> !(bs[i].hole && bs[i + 1].hole)
    ensures forall i :: 0 <= i < |bs| && !bs[i].hole ==> bs[i].size >= MIN_LIVE
  {
    if bs != [] {
      var rest := bs[1..];
      SoundMeans(rest);
      forall i | 0 <= i < |bs| - 1 ensures !(bs[i].hole && bs[i + 1].hole) {
        if i > 0 { assert !(rest[i - 1].hole && rest[i - 1 + 1].hole); }
      }
      forall i | 0 <= i < |bs| && !bs[i].hole ensures bs[i].size >= MIN_LIVE {
        if i > 0 { assert rest[i - 1] == bs[i]; }
      }
    }
  }

  lemma {:induction false} HoleCount(bs: seq<Block>, lo: int, hi: int)
    requires Tiles(bs, lo, hi) && Sound(bs)
    ensures 41 * |HoleAddrs(bs)| <= hi - lo + (if StartsWithHole(bs) then MIN_LIVE else 0)
  {
    if bs != [] {
      HoleCount(bs[1..], bs[0].End(), hi);
    }
  }

  /** The sorted index of an arena of at most 0x38_0000 bytes never runs out of slots. */
  lemma IndexNeverFull(bs: seq<Block>, lo: int, hi: int)
    requires Tiles(bs, lo, hi) && Sound(bs) && hi - lo <= 0x38_0000
    ensures |HoleAddrs(bs)| < HEAP_INDEX_SIZE
  {
    HoleCount(bs, lo, hi);
  }

  lemma {:induction false} SoundConcat(xs: seq<Block>, ys: seq<Block>)
    ensures Sound(xs + ys) <==> Sound(xs) && Sound(ys) && !(EndsInHole(xs) && StartsWithHole(ys))
  {
    if xs == [] {
      assert xs + ys == ys;
    } else {
      assert (xs + ys)[1..] == xs[1..] + ys && (xs + ys)[0] == xs[0];
      SoundConcat(xs[1..], ys);
    }
  }

  /** The blocks around a hole are live. */
  lemma SoundAround(pre: seq<Block>, b: Block, post: seq<Block>)
    requires Sound(pre + [b] + post)
    ensures Sound(pre) && Sound([b]) && Sound(post)
    ensures b.hole ==> !EndsInHole(pre) && !StartsWithHole(post)
  {
    SoundConcat(pre + [b], post);
    SoundConcat(pre, [b]);
  }

  lemma SoundSplice(pre: seq<Block>, mid: seq<Block>, post: seq<Block>)
    requires Sound(pre) && Sound(mid) && Sound(post) && mid != []
    requires !(EndsInHole(pre) && StartsWithHole(mid)) && !(EndsInHole(mid) && StartsWithHole(post))
    ensures Sound(pre + mid + post)
  {
    SoundConcat(pre, mid);
    SoundConcat(pre + mid, post);
  }

  // ---------------------------------------------------------------- aligned placement

  /** Bytes to leave before the block header so that the payload starts on a page. */
  function AlignOffset(addr: int): (r: nat)
    ensures r == 0 || MIN_BLOCK <= r <= 0x1013
    ensures (addr + r + HEADER) % PAGE_SIZE == 0
  {
    var offset := (PAGE_SIZE - (addr + HEADER) % PAGE_SIZE) % PAGE_SIZE;
    if offset != 0 && offset < MIN_BLOCK then offset + PAGE_SIZE else offset
  }

  /** No smaller prefix both aligns the payload and is either empty or room for a hole. */
  lemma AlignOffsetLeast(addr: int, o: nat)
    requires o == 0 || o >= MIN_BLOCK
    requires (addr + o + HEADER) % PAGE_SIZE == 0
    ensures AlignOffset(addr) <= o
  {
    var base := (PAGE_SIZE - (addr + HEADER) % PAGE_SIZE) % PAGE_SIZE;
    assert (o - base) % PAGE_SIZE == 0;
  }

  function Lead(b: Block, aligned: bool): nat {
    if aligned then AlignOffset(b.addr) else 0
  }

  /** Hole b can serve n bytes, tags included. */
  predicate Fits(b: Block, n: nat, aligned: bool) {
    b.hole && b.size >= n + Lead(b, aligned)
  }

  ghost predicate NoneFits(bs: seq<Block>, n: nat, aligned: bool) {
    forall i :: 0 <= i < |bs| ==> !Fits(bs[i], n, aligned)
  }

  /** Block k fits, and no smaller hole does. */
  ghost predicate BestFit(bs: seq<Block>, k: nat, n: nat, aligned: bool) {
    && k < |bs| && Fits(bs[k], n, aligned)
    && forall i :: 0 <= i < |bs| && Fits(bs[i], n, aligned) ==> bs[k].size <= bs[i].size
  }

  lemma BestFits(bs: seq<Block>, k: nat, n: nat, aligned: bool)
    requires BestFit(bs, k, n, aligned)
    ensures k < |bs| && Fits(bs[k], n, aligned)
  {
  }

  // ---------------------------------------------------------------- carving

  /** Size given to the caller's block: the request, or the whole remainder when what
      would be left over is too small to be a hole. */
  function Taken(b: Block, n: nat, aligned: bool): int {
    var rest := b.size - Lead(b, aligned);
    if rest - n < MIN_BLOCK then rest else n
  }

  function Parts(b: Block, n: nat, aligned: bool): (ps: seq<Block>)
    requires Fits(b, n, aligned) && n >= MIN_LIVE
    ensures Tiles(ps, b.addr, b.End())
  {
    var lead := Lead(b, aligned);
    var taken := Taken(b, n, aligned);
    var live := Block(b.addr + lead, taken, false);
    var left := if lead != 0 then [Block(b.addr, lead, true)] else [];
    var right := if b.size - lead - taken != 0 then [Block(live.End(), b.size - lead - taken, true)] else [];
    TilesConcat(left, [live], b.addr, live.addr, live.End());
    TilesConcat(left + [live], right, b.addr, live.End(), b.End());
    left + [live] + right
  }

  function Carve(bs: seq<Block>, k: nat, n: nat, aligned: bool): seq<Block>
    requires k < |bs| && Fits(bs[k], n, aligned) && n >= MIN_LIVE
  {
    Splice(bs, k, k + 1, Parts(bs[k], n, aligned))
  }

  /** The block the caller gets from carving hole k. */
  function Carved(b: Block, n: nat, aligned: bool): Block {
    Block(b.addr + Lead(b, aligned), Taken(b, n, aligned), false)
  }

  ghost function Live(bs: seq<Block>): set<Block> {
    set b | b in bs && !b.hole
  }

  lemma CarveKeeps(bs: seq<Block>, k: nat, n: nat, aligned: bool, lo: int, hi: int)
    requires Tiles(bs, lo, hi) && Sound(bs)
    requires k < |bs| && Fits(bs[k], n, aligned) && n >= MIN_LIVE
    ensures Tiles(Carve(bs, k, n, aligned), lo, hi)
    ensures Sound(Carve(bs, k, n, aligned))
  {
    hide Tiles, Sound;
    var ps := Parts(bs[k], n, aligned);
    PartsShape(bs[k], n, aligned);
    CutAt(bs, k);
    TilesNext(bs, k, lo, hi);
    SpliceTiles(bs, k, k + 1, ps, lo, hi);
    SoundAround(bs[..k], bs[k], bs[k + 1..]);
    SoundSplice(bs[..k], ps, bs[k + 1..]);
  }

  /** Carving adds exactly one live block, inside the chosen hole, and touches no other. */
  lemma CarveLive(bs: seq<Block>, k: nat, n: nat, aligned: bool)
    requires k < |bs| && Fits(bs[k], n, aligned) && n >= MIN_LIVE
    ensures Live(Carve(bs, k, n, aligned)) == Live(bs) + {Carved(bs[k], n, aligned)}
  {
    hide Tiles;
    CutAt(bs, k);
    LiveAround(bs[..k], [bs[k]], bs[k + 1..]);
    LiveAround(bs[..k], Parts(bs[k], n, aligned), bs[k + 1..]);
  }

  lemma LiveAround(pre: seq<Block>, mid: seq<Block>, post: seq<Block>)
    ensures Live(pre + mid + post) == Live(pre) + Live(mid) + Live(post)
  {
  }

  // ---------------------------------------------------------------- releasing

  function LeftOf(bs: seq<Block>, k: nat): (l: nat)
    requires k < |bs|
    ensures l <= k
  {
    if k > 0 && bs[k - 1].hole then k - 1 else k
  }

  function RightOf(bs: seq<Block>, k: nat): (r: nat)
    requires k < |bs|
    ensures k < r <= |bs|
  {
    if k + 1 < |bs| && bs[k + 1].hole then k + 2 else k + 1
  }

  /** Block k and its hole neighbours as one hole. */
  function Merged(bs: seq<Block>, k: nat): Block
    requires k < |bs|
  {
    var l, r := LeftOf(bs, k), RightOf(bs, k);
    Block(bs[l].addr, bs[r - 1].End() - bs[l].addr, true)
  }

  /** Arena length after `contract` is asked to keep `keep` bytes. */
  function ContractLength(keep: int): int {
    var rounded := PageUp(keep);
    if rounded < HEAP_MIN_SIZE then HEAP_MIN_SIZE else rounded
  }

  /** Arena end after block k is released. */
  function ReleaseEnd(bs: seq<Block>, k: nat, start: int, end: int): int
    requires k < |bs|
  {
    if RightOf(bs, k) == |bs| then start + ContractLength(Merged(bs, k).addr - start) else end
  }

  function Release(bs: seq<Block>, k: nat, start: int, end: int): seq<Block>
    requires k < |bs|
  {
    var l, r, m := LeftOf(bs, k), RightOf(bs, k), Merged(bs, k);
    var newEnd := ReleaseEnd(bs, k, start, end);
    if r < |bs| then Splice(bs, l, r, [m]) else bs[..l] + [m.(size := newEnd - m.addr)]
  }

  /** Contraction would leave less of the freed tail hole than its boundary tags need:
      nothing at all when its header sits on the new end, or a remnant of 1 to 19 bytes. */
  predicate Stranded(bs: seq<Block>, k: nat, start: int, end: int)
    requires k < |bs|
  {
    RightOf(bs, k) == |bs| && ReleaseEnd(bs, k, start, end) - Merged(bs, k).addr < MIN_BLOCK
  }

  /** An arena of whole pages, no shorter than the contraction minimum. */
  ghost predicate ArenaShape(start: int, end: int) {
    start % PAGE_SIZE == 0 && end % PAGE_SIZE == 0 && end - start >= HEAP_MIN_SIZE
  }

  lemma MergedBounds(bs: seq<Block>, k: nat, start: int, end: int)
    requires Tiles(bs, start, end) && k < |bs|
    ensures Merged(bs, k).addr == Cut(bs, LeftOf(bs, k), end) >= start
    ensures Merged(bs, k).End() == Cut(bs, RightOf(bs, k), end) <= end
    ensures Merged(bs, k).size >= MIN_BLOCK
  {
    hide Tiles;
    var l, r := LeftOf(bs, k), RightOf(bs, k);
    TilesNext(bs, r - 1, start, end);
    TilesOrder(bs, start, end);
    if l < r - 1 { assert bs[l].End() <= bs[r - 1].addr; }
  }

  lemma ReleaseEndBounds(bs: seq<Block>, k: nat, start: int, end: int)
    requires Tiles(bs, start, end) && k < |bs| && ArenaShape(start, end)
    ensures ArenaShape(start, ReleaseEnd(bs, k, start, end))
    ensures ReleaseEnd(bs, k, start, end) <= end
    ensures RightOf(bs, k) == |bs| ==> Merged(bs, k).addr <= ReleaseEnd(bs, k, start, end)
  {
    MergedBounds(bs, k, start, end);
  }

  /** Releasing keeps the partition whenever the freed hole is not stranded. */
  lemma ReleaseKeeps(bs: seq<Block>, k: nat, start: int, end: int)
    requires Tiles(bs, start, end) && Sound(bs) && ArenaShape(start, end)
    requires k < |bs| && !bs[k].hole && !Stranded(bs, k, start, end)
    ensures Tiles(Release(bs, k, start, end), start, ReleaseEnd(bs, k, start, end))
    ensures Sound(Release(bs, k, start, end))
  {
    hide Sound;
    MergedBounds(bs, k, start, end);
    ReleaseEndBounds(bs, k, start, end);
    var l, r, m := LeftOf(bs, k), RightOf(bs, k), Merged(bs, k);
    var newEnd := ReleaseEnd(bs, k, start, end);
    MergedSurroundings(bs, k);
    HoleNotLive(m);
    HoleNotLive(m.(size := newEnd - m.addr));
    if r < |bs| {
      SpliceTiles(bs, l, r, [m], start, end);
      SoundSplice(bs[..l], [m], bs[r..]);
    } else {
      TilesSplit(bs, l, start, end);
      var tail := m.(size := newEnd - m.addr);
      assert Tiles([tail], m.addr, newEnd);
      TilesConcat(bs[..l], [tail], start, m.addr, newEnd);
      SoundConcat(bs[..l], [tail]);
    }
  }

  /** After merging, the blocks on either side are live. */
  lemma MergedSurroundings(bs: seq<Block>, k: nat)
    requires Sound(bs) && k < |bs| && !bs[k].hole
    ensures Sound(bs[..LeftOf(bs, k)]) && Sound(bs[RightOf(bs, k)..])
    ensures !EndsInHole(bs[..LeftOf(bs, k)]) && !StartsWithHole(bs[RightOf(bs, k)..])
  {
    hide Sound;
    var l, r := LeftOf(bs, k), RightOf(bs, k);
    CutAt(bs, l);
    SoundAround(bs[..l], bs[l], bs[l + 1..]);
    CutAt(bs, r - 1);
    SoundAround(bs[..r - 1], bs[r - 1], bs[r..]);
  }

  /** Releasing removes exactly the released block from the live ones. */
  lemma ReleaseLive(bs: seq<Block>, k: nat, start: int, end: int)
    requires Tiles(bs, start, end) && k < |bs| && !bs[k].hole
    ensures Live(Release(bs, k, start, end)) == Live(bs) - {bs[k]}
  {
    hide Tiles, Live;
    var l, r, m := LeftOf(bs, k), RightOf(bs, k), Merged(bs, k);
    LiveOnce(bs, k, start, end);
    CutRange(bs, l, r);
    MergedOnlyLive(bs, k);
    var hole := if r < |bs| then m else m.(size := ReleaseEnd(bs, k, start, end) - m.addr);
    HoleNotLive(hole);
    ReplaceLive(bs[..l], bs[l..r], [hole], bs[r..], bs[k]);
    if r == |bs| { NoTail(bs, bs[..l] + [hole]); }
  }

  lemma NoTail(bs: seq<Block>, xs: seq<Block>)
    ensures xs + bs[|bs|..] == xs
  {
  }

  lemma HoleNotLive(b: Block)
    requires b.hole
    ensures Live([b]) == {} && Sound([b])
  {
  }

  lemma ReplaceLive(pre: seq<Block>, mid: seq<Block>, news: seq<Block>, post: seq<Block>, b: Block)
    requires b !in pre && b !in post && Live(mid) == {b} && Live(news) == {}
    ensures Live(pre + news + post) == Live(pre + mid + post) - {b}
  {
    LiveAround(pre, mid, post);
    LiveAround(pre, news, post);
  }

  lemma MergedOnlyLive(bs: seq<Block>, k: nat)
    requires k < |bs| && !bs[k].hole
    ensures Live(bs[LeftOf(bs, k)..RightOf(bs, k)]) == {bs[k]}
  {
    var l, r := LeftOf(bs, k), RightOf(bs, k);
    var mid := bs[l..r];
    assert mid[k - l] == bs[k];
    assert l < k ==> mid[0].hole;
    assert k + 1 < r ==> mid[k + 1 - l].hole;
  }

  lemma LiveOnce(bs: seq<Block>, k: nat, start: int, end: int)
    requires Tiles(bs, start, end) && k < |bs|
    ensures bs[k] !in bs[..LeftOf(bs, k)] && bs[k] !in bs[RightOf(bs, k)..]
  {
    TilesOrder(bs, start, end);
    forall i | 0 <= i < |bs| && i != k ensures bs[i] != bs[k] {
      if i < k { assert bs[i].End() <= bs[k].addr; } else { assert bs[k].End() <= bs[i].addr; }
    }
  }

  // ---------------------------------------------------------------- growing

  /** Mapping `amount` more bytes at the end extends a final hole or appends one. */
  function Grow(bs: seq<Block>, end: int, amount: nat): seq<Block> {
    if bs != [] && bs[|bs| - 1].hole
    then bs[..|bs| - 1] + [bs[|bs| - 1].(size := bs[|bs| - 1].size + amount)]
    else bs + [Block(end, amount, true)]
  }

  lemma GrowTiles(bs: seq<Block>, start: int, end: int, amount: nat)
    requires Tiles(bs, start, end) && amount >= MIN_BLOCK
    ensures Tiles(Grow(bs, end, amount), start, end + amount)
  {
    if EndsInHole(bs) {
      var n := |bs| - 1;
      var tail := bs[n].(size := bs[n].size + amount);
      TilesNext(bs, n, start, end);
      TilesBound(bs, start, end);
      TilesSplit(bs, n, start, end);
      assert Tiles([tail], bs[n].addr, end + amount);
      TilesConcat(bs[..n], [tail], start, bs[n].addr, end + amount);
    } else {
      var tail := Block(end, amount, true);
      assert Tiles([tail], end, end + amount);
      TilesConcat(bs, [tail], start, end, end + amount);
    }
  }

  lemma GrowKeeps(bs: seq<Block>, end: int, amount: nat)
    requires Sound(bs)
    ensures Sound(Grow(bs, end, amount)) && Live(Grow(bs, end, amount)) == Live(bs)
  {
    if EndsInHole(bs) {
      var n := |bs| - 1;
      var tail := bs[n].(size := bs[n].size + amount);
      assert bs == bs[..n] + [bs[n]] + [];
      SoundAround(bs[..n], bs[n], []);
      SoundConcat(bs[..n], [tail]);
      LiveAround(bs[..n], [bs[n]], []);
      LiveAround(bs[..n], [tail], []);
      assert bs[..n] + [tail] + [] == bs[..n] + [tail];
      assert Live([tail]) == {} && Live([bs[n]]) == {};
    } else {
      var tail := Block(end, amount, true);
      SoundConcat(bs, [tail]);
      LiveAround(bs, [tail], []);
      assert bs + [tail] + [] == bs + [tail];
      assert Live([tail]) == {} && Live([]) == {};
    }
  }

  // ---------------------------------------------------------------- round trip

  /** Where the carved block sits after carving hole k. */
  function CarvedAt(bs: seq<Block>, k: nat, aligned: bool): nat
    requires k < |bs|
  {
    if Lead(bs[k], aligned) != 0 then k + 1 else k
  }

  /** Carving a hole that does not touch the arena end and then releasing the carved block
      gives back the very partition there was before, leading and trailing splits included. */
  lemma CarveThenRelease(bs: seq<Block>, k: nat, n: nat, aligned: bool, start: int, end: int)
    requires Tiles(bs, start, end) && Sound(bs)
    requires k < |bs| && Fits(bs[k], n, aligned) && n >= MIN_LIVE
    requires bs[k].End() < end
    ensures Carve(bs, k, n, aligned)[CarvedAt(bs, k, aligned)] == Carved(bs[k], n, aligned)
    ensures Release(Carve(bs, k, n, aligned), CarvedAt(bs, k, aligned), start, end) == bs
    ensures ReleaseEnd(Carve(bs, k, n, aligned), CarvedAt(bs, k, aligned), start, end) == end
    ensures !Stranded(Carve(bs, k, n, aligned), CarvedAt(bs, k, aligned), start, end)
  {
    hide Tiles, Sound;
    var pre, b, post := bs[..k], bs[k], bs[k + 1..];
    TilesNext(bs, k, start, end);
    CutAt(bs, k);
    SoundAround(pre, b, post);
    var c := CarvedAt(bs, k, aligned) - k;
    PartsShape(b, n, aligned);
    RemergeParts(pre, Parts(b, n, aligned), post, c, b, start, end);
  }

  /** Where the carved block is. */
  lemma CarvedIndex(bs: seq<Block>, k: nat, n: nat, aligned: bool)
    requires k < |bs| && Fits(bs[k], n, aligned) && n >= MIN_LIVE
    ensures CarvedAt(bs, k, aligned) < |Carve(bs, k, n, aligned)|
    ensures Carve(bs, k, n, aligned)[CarvedAt(bs, k, aligned)] == Carved(bs[k], n, aligned)
    ensures !Carved(bs[k], n, aligned).hole
  {
    PartsShape(bs[k], n, aligned);
  }

  /** What the caller gets out of a hole, in numbers: a block with at least the bytes it needs and less than 20 more,
      aligned when asked; whatever of the hole lies in front of it, or 20 bytes or more of it behind, are holes
      afterwards. */
  lemma CarvedMeans(bs: seq<Block>, k: nat, n: nat, aligned: bool)
    requires k < |bs| && Fits(bs[k], n, aligned) && n >= MIN_LIVE
    ensures var (h, b, after) := (bs[k], Carved(bs[k], n, aligned), Carve(bs, k, n, aligned));
            var left := h.addr + h.size - (b.addr + n);
            && b in after && !b.hole && n <= b.size < n + 20 && left >= 0
            && (if aligned then (b.addr + 12) % 4096 == 0 && (b.addr == h.addr || b.addr >= h.addr + 20)
                else b.addr == h.addr)
            && (b.addr > h.addr ==> Block(h.addr, b.addr - h.addr, true) in after)
            && (left >= 20 ==> b.size == n && Block(b.addr + n, left, true) in after)
            && (left < 20 ==> b.size == n + left)
  {
    var h, b, after := bs[k], Carved(bs[k], n, aligned), Carve(bs, k, n, aligned);
    var ps := Parts(h, n, aligned);
    PartsIn(bs, k, ps);
    var lead := Lead(h, aligned);
    assert ps[if lead != 0 then 1 else 0] == b;
    if lead != 0 { assert ps[0] == Block(h.addr, lead, true); }
    if b.End() != h.End() { assert ps[|ps| - 1] == Block(b.End(), h.End() - b.End(), true); }
  }

  /** A block of n bytes can start at a: at the start of b, or far enough behind it for a hole in front, with its
      payload on a page boundary when asked. */
  ghost predicate RoomAt(b: Block, a: int, n: nat, aligned: bool) {
    && (a == b.addr || (aligned && a >= b.addr + 20)) && a + n <= b.addr + b.size
    && (aligned ==> (a + 12) % 4096 == 0)
  }

  /** What alloc does to the partition for a block of n bytes, tags included: it takes hole k, the smallest with room,
      and makes a live block of it with less than 20 bytes to spare, its payload on a page boundary when asked; what is
      left of the hole, in front or 20 bytes or more behind, is a hole. */
  ghost predicate HandedOut(bs: seq<Block>, k: nat, after: seq<Block>, b: Block, n: nat, aligned: bool) {
    && k < |bs|
    && var h := bs[k];
       var left := h.addr + h.size - (b.addr + n);
       && h.hole && b in after && !b.hole && n <= b.size < n + 20 && left >= 0
       && (if aligned then (b.addr + 12) % 4096 == 0 && (b.addr == h.addr || b.addr >= h.addr + 20)
           else b.addr == h.addr)
       && (b.addr > h.addr ==> Block(h.addr, b.addr - h.addr, true) in after)
       && (left >= 20 ==> b.size == n && Block(b.addr + n, left, true) in after)
       && forall i, a :: 0 <= i < |bs| && bs[i].hole && RoomAt(bs[i], a, n, aligned) ==> h.size <= bs[i].size
  }

  lemma CarveHandsOut(bs: seq<Block>, k: nat, n: nat, aligned: bool)
    requires BestFit(bs, k, n, aligned) && n >= MIN_LIVE
    ensures HandedOut(bs, k, Carve(bs, k, n, aligned), Carved(bs[k], n, aligned), n, aligned)
  {
    hide Carve, Carved, Fits, Lead;
    CarvedMeans(bs, k, n, aligned);
    FitsMeans(bs[k], n, aligned);
    forall i, a | 0 <= i < |bs| && bs[i].hole && RoomAt(bs[i], a, n, aligned) ensures bs[k].size <= bs[i].size {
      FitsMeans(bs[i], n, aligned);
    }
  }

  lemma PartsIn(bs: seq<Block>, k: nat, ps: seq<Block>)
    requires k < |bs|
    ensures forall i :: 0 <= i < |ps| ==> ps[i] in Splice(bs, k, k + 1, ps)
  {
    forall i | 0 <= i < |ps| ensures ps[i] in Splice(bs, k, k + 1, ps) {
      assert Splice(bs, k, k + 1, ps)[k + i] == ps[i];
    }
  }

  /** A hole fits a request exactly when there is room in it. */
  lemma FitsMeans(b: Block, n: nat, aligned: bool)
    ensures Fits(b, n, aligned) <==> b.hole && exists a :: RoomAt(b, a, n, aligned)
  {
    if Fits(b, n, aligned) { assert RoomAt(b, b.addr + Lead(b, aligned), n, aligned); }
    if a :| RoomAt(b, a, n, aligned) {
      if aligned { AlignOffsetLeast(b.addr, a - b.addr); }
    }
  }

  /** Where the arena ends after a release, without the code's arithmetic: where it was when a live block lies behind
      the released one, and otherwise on the first page boundary that leaves the minimum arena and every live block. */
  lemma ReleaseEndMeans(bs: seq<Block>, k: nat, start: int, end: int)
    requires Tiles(bs, start, end) && Sound(bs) && ArenaShape(start, end) && k < |bs| && !bs[k].hole
    ensures var after := ReleaseEnd(bs, k, start, end);
            if exists i :: k < i < |bs| && !bs[i].hole then after == end
            else
              && after % 4096 == 0 && after >= start + 0x7_0000 && after <= end
              && (forall i :: 0 <= i < |bs| && i != k && !bs[i].hole ==> bs[i].addr + bs[i].size <= after)
              && forall e ::
                   && e % 4096 == 0 && e >= start + 0x7_0000
                   && (forall i :: 0 <= i < |bs| && i != k && !bs[i].hole ==> bs[i].addr + bs[i].size <= e) ==>
                     after <= e
  {
    hide Tiles, Sound, ReleaseEnd, Merged;
    TilesOrder(bs, start, end);
    SoundMeans(bs);
    ReleaseEndBounds(bs, k, start, end);
    ReleasedTail(bs, k, start, end);
    if RightOf(bs, k) < |bs| {
      assert !bs[RightOf(bs, k)].hole;
    } else {
      var l := LeftOf(bs, k);
      if l > 0 {
        TilesNext(bs, l - 1, start, end);
        assert !bs[l - 1].hole && bs[l - 1].addr + bs[l - 1].size == bs[l].addr;
      }
      forall i | 0 <= i < |bs| && i != k && !bs[i].hole ensures i < l && bs[i].addr + bs[i].size <= bs[l].addr {
        if i < l { assert bs[i].End() <= bs[l].addr; }
      }
    }
  }

  lemma ReleasedTail(bs: seq<Block>, k: nat, start: int, end: int)
    requires Tiles(bs, start, end) && ArenaShape(start, end) && k < |bs|
    ensures RightOf(bs, k) < |bs| ==> ReleaseEnd(bs, k, start, end) == end
    ensures RightOf(bs, k) == |bs| ==>
              var (from, after) := (bs[LeftOf(bs, k)].addr, ReleaseEnd(bs, k, start, end));
              && start <= from && from <= after && after % 4096 == 0
              && forall e :: e % 4096 == 0 && e >= start + 0x7_0000 && e >= from ==> after <= e
    ensures LeftOf(bs, k) == 0 && RightOf(bs, k) == |bs| ==> bs[0].addr == start
  {
    hide ContractLength;
    TilesOrder(bs, start, end);
    LeastEnd(start, bs[LeftOf(bs, k)].addr);
  }

  lemma LeastEnd(start: int, from: int)
    requires start % PAGE_SIZE == 0 && start <= from
    ensures var after := start + ContractLength(from - start);
            from <= after && after % 4096 == 0 && forall e ::
              e % 4096 == 0 && e >= start + 0x7_0000 && e >= from ==> after <= e
  {
  }

  /** A split hole is one live block with at most one hole on either side. */
  lemma PartsShape(b: Block, n: nat, aligned: bool)
    requires Fits(b, n, aligned) && n >= MIN_LIVE
    ensures var ps := Parts(b, n, aligned);
            var c := if Lead(b, aligned) != 0 then 1 else 0;
            && c < |ps| <= c + 2 && ps[c] == Carved(b, n, aligned)
            && (c == 1 ==> ps[0].hole) && (|ps| == c + 2 ==> ps[c + 1].hole)
            && ps[0].addr == b.addr && ps[|ps| - 1].End() == b.End() && Sound(ps)
  {
    var ps := Parts(b, n, aligned);
    if |ps| == 3 { assert Sound(ps[1..][1..]); }
  }

  /** Releasing the one live part of a split hole merges the parts again. */
  lemma RemergeParts(pre: seq<Block>, ps: seq<Block>, post: seq<Block>, c: nat, b: Block, start: int, end: int)
    requires c < |ps| && !ps[c].hole && c <= 1 && |ps| <= c + 2
    requires (c == 1 ==> ps[0].hole) && (|ps| == c + 2 ==> ps[c + 1].hole)
    requires !EndsInHole(pre) && !StartsWithHole(post) && post != []
    requires b == Block(ps[0].addr, ps[|ps| - 1].End() - ps[0].addr, true)
    ensures Release(pre + ps + post, |pre| + c, start, end) == pre + [b] + post
    ensures ReleaseEnd(pre + ps + post, |pre| + c, start, end) == end
    ensures !Stranded(pre + ps + post, |pre| + c, start, end)
    ensures (pre + ps + post)[|pre| + c] == ps[c]
  {
    var cs := pre + ps + post;
    assert LeftOf(cs, |pre| + c) == |pre|;
    assert RightOf(cs, |pre| + c) == |pre| + |ps|;
    assert cs[..|pre|] == pre && cs[|pre| + |ps|..] == post;
  }

  // ---------------------------------------------------------------- growth is bounded

  /** Growing g times by the page-rounded request. */
  ghost function GrowTimes(bs: seq<Block>, end: int, amount: nat, g: nat): seq<Block>
    decreases g
  {
    if g == 0 then bs else GrowTimes(Grow(bs, end, amount), end + amount, amount, g - 1)
  }

  function GrownEnd(end: int, amount: nat, g: nat): int
    decreases g
  {
    if g == 0 then end else GrownEnd(end + amount, amount, g - 1)
  }

  /** One growth is enough for an unaligned request, and two for an aligned one. */
  lemma GrowthSuffices(bs: seq<Block>, start: int, end: int, n: nat, aligned: bool)
    requires Tiles(bs, start, end) && n >= MIN_LIVE && end % PAGE_SIZE == 0
    ensures !aligned ==> !NoneFits(GrowTimes(bs, end, PageUp(n), 1), n, aligned)
    ensures !NoneFits(GrowTimes(bs, end, PageUp(n), 2), n, aligned)
  {
    hide Tiles, Grow, GrowTimes, Fits, PageUp;
    var r := PageUp(n);
    var g1 := Grow(bs, end, r);
    var g2 := Grow(g1, end + r, r);
    FirstTail(bs, start, end, r);
    NextTail(g1, end + r, r);
    OnceAndTwice(bs, end, r);
    TailRoom(g1[|g1| - 1], g2[|g2| - 1], end, n, aligned);
  }

  lemma OnceAndTwice(bs: seq<Block>, end: int, r: nat)
    ensures GrowTimes(bs, end, r, 1) == Grow(bs, end, r)
    ensures GrowTimes(bs, end, r, 2) == Grow(Grow(bs, end, r), end + r, r)
  {
    hide Grow;
    var g1 := Grow(bs, end, r);
    var g2 := Grow(g1, end + r, r);
    assert GrowTimes(g1, end + r, r, 0) == g1 && GrowTimes(g2, end + r + r, r, 0) == g2;
    assert GrowTimes(g1, end + r, r, 1) == g2;
  }

  /** After a growth the last block is a hole: the new pages alone, or joined to the hole that was last. */
  lemma FirstTail(bs: seq<Block>, start: int, end: int, r: nat)
    requires Tiles(bs, start, end)
    ensures var grown := Grow(bs, end, r);
            && grown != [] && grown[|grown| - 1].hole
            && (grown[|grown| - 1].size >= MIN_BLOCK + r || grown[|grown| - 1] == Block(end, r, true))
  {
    TilesBound(bs, start, end);
    hide Tiles;
  }

  lemma NextTail(bs: seq<Block>, end: int, r: nat)
    requires bs != [] && bs[|bs| - 1].hole
    ensures var grown := Grow(bs, end, r);
            grown != [] && grown[|grown| - 1] == bs[|bs| - 1].(size := bs[|bs| - 1].size + r)
  {
  }

  lemma AlignOffsetOnPage(end: int)
    requires end % PAGE_SIZE == 0
    ensures AlignOffset(end) == PAGE_SIZE - HEADER
  {
  }

  lemma PageUpBound(n: nat)
    requires n > 0
    ensures PageUp(n) >= n && PageUp(n) >= PAGE_SIZE && PageUp(n) % PAGE_SIZE == 0
  {
  }

  lemma TailRoom(b1: Block, b2: Block, end: int, n: nat, aligned: bool)
    requires n >= MIN_LIVE && end % PAGE_SIZE == 0
    requires b1.hole && b2 == b1.(size := b1.size + PageUp(n))
    requires b1.size >= MIN_BLOCK + PageUp(n) || b1 == Block(end, PageUp(n), true)
    ensures Fits(b2, n, aligned) && (!aligned ==> Fits(b1, n, aligned))
  {
    hide PageUp, AlignOffset;
    PageUpBound(n);
    AlignOffsetOnPage(end);
  }

  /** Two can be needed: a page-sized aligned request on an arena whose last block is live. */
  lemma OneGrowthCanFallShort()
    ensures var bs := [Block(0, HEAP_MIN_SIZE, false)];
            && Tiles(bs, 0, HEAP_MIN_SIZE) && Sound(bs)
            && NoneFits(GrowTimes(bs, HEAP_MIN_SIZE, PageUp(0x1000), 1), 0x1000, true)
  {
    var bs := [Block(0, HEAP_MIN_SIZE, false)];
    assert GrowTimes(bs, HEAP_MIN_SIZE, 0x1000, 1) == Grow(bs, HEAP_MIN_SIZE, 0x1000);
  }

  /** The ordinary way to strand a hole: fill the initial arena, allocate once more so that the
      heap grows by a page, and free that allocation. Its header is the first byte of the page
      that contraction takes away. */
  lemma GrowThenFreeStrands()
    ensures var start, end := 0xC008_0000, 0xC010_0000;
            var full := [Block(start, end - start, false)];
            var grown := Grow(full, end, PageUp(100 + MIN_BLOCK));
            var carved := Carve(grown, 1, 100 + MIN_BLOCK, false);
            && BestFit([Block(start, end - start, true)], 0, end - start, false)
            && full == Carve([Block(start, end - start, true)], 0, end - start, false)
            && Tiles(full, start, end) && Sound(full) && NoneFits(full, 100 + MIN_BLOCK, false)
            && BestFit(grown, 1, 100 + MIN_BLOCK, false)
            && carved[1] == Block(end, 100 + MIN_BLOCK, false)
            && Stranded(carved, 1, start, end + PAGE_SIZE)
            && ReleaseEnd(carved, 1, start, end + PAGE_SIZE) == Merged(carved, 1).addr
  {
    var start, end := 0xC008_0000, 0xC010_0000;
    var full := [Block(start, end - start, false)];
    var grown := Grow(full, end, PageUp(100 + MIN_BLOCK));
    assert grown == [full[0], Block(end, PAGE_SIZE, true)];
    var carved := Carve(grown, 1, 100 + MIN_BLOCK, false);
    assert carved == [full[0], Block(end, 120, false), Block(end + 120, PAGE_SIZE - 120, true)];
  }
}
