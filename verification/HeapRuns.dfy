/** Runs of the kernel heap: what every sequence of completed allocations and frees keeps.
    A step is what `Heap.Alloc` and `Heap.Free` promise when they complete. */
module HeapRuns {
  import opened Memory
  import opened Blocks

  datatype State = State(blocks: seq<Block>, end: int)

  datatype Op =
    | Took(n: nat, aligned: bool, growths: nat, hole: nat)
    | Freed(block: nat)

  ghost predicate Good(s: State, start: int) {
    Tiles(s.blocks, start, s.end) && Sound(s.blocks) && ArenaShape(start, s.end)
  }

  ghost function Grown(s: State, op: Op): State
    requires op.Took?
  {
    State(GrowTimes(s.blocks, s.end, PageUp(op.n), op.growths), GrownEnd(s.end, PageUp(op.n), op.growths))
  }

  ghost predicate Steps(s: State, op: Op, s': State, start: int) {
    match op
    case Took(n, aligned, growths, hole) =>
      && n >= MIN_LIVE && BestFit(Grown(s, op).blocks, hole, n, aligned)
      && s' == State(Carve(Grown(s, op).blocks, hole, n, aligned), Grown(s, op).end)
    case Freed(k) =>
      && k < |s.blocks| && !s.blocks[k].hole && !Stranded(s.blocks, k, start, s.end)
      && s' == State(Release(s.blocks, k, start, s.end), ReleaseEnd(s.blocks, k, start, s.end))
  }

  /** The live block that an operation creates or destroys. */
  ghost function Subject(s: State, op: Op): Block
    requires match op case Took(n, aligned, _, hole) => BestFit(Grown(s, op).blocks, hole, n, aligned)
                      case Freed(k) => k < |s.blocks|
  {
    match op
    case Took(n, aligned, _, hole) => Carved(Grown(s, op).blocks[hole], n, aligned)
    case Freed(k) => s.blocks[k]
  }

  lemma {:induction false} GrownGood(bs: seq<Block>, start: int, end: int, amount: nat, g: nat)
    requires Good(State(bs, end), start) && amount % PAGE_SIZE == 0 && amount > 0
    ensures Good(State(GrowTimes(bs, end, amount, g), GrownEnd(end, amount, g)), start)
    ensures Live(GrowTimes(bs, end, amount, g)) == Live(bs)
    decreases g
  {
    hide Tiles, Sound, Live, Grow;
    if g > 0 {
      GrowTiles(bs, start, end, amount);
      GrowKeeps(bs, end, amount);
      GrownGood(Grow(bs, end, amount), start, end + amount, amount, g - 1);
    }
  }

  /** Any two live blocks are disjoint, and all lie inside the arena. */
  lemma LiveDisjoint(s: State, start: int, a: Block, b: Block)
    requires Good(s, start) && a in Live(s.blocks) && b in Live(s.blocks)
    ensures a == b || a.End() <= b.addr || b.End() <= a.addr
    ensures start <= a.addr && a.End() <= s.end && a.size >= MIN_LIVE
  {
    TilesOrder(s.blocks, start, s.end);
    SoundMeans(s.blocks);
    var i :| 0 <= i < |s.blocks| && s.blocks[i] == a;
    var j :| 0 <= j < |s.blocks| && s.blocks[j] == b;
    if i < j { assert s.blocks[i].End() <= s.blocks[j].addr; }
    if j < i { assert s.blocks[j].End() <= s.blocks[i].addr; }
  }

  /** One step of the heap is one step of the simplest allocator: it adds one block that no live
      block overlaps, big enough and aligned when asked, or removes one. */
  lemma StepRefines(s: State, op: Op, s': State, start: int)
    requires Good(s, start) && Steps(s, op, s', start)
    ensures Good(s', start)
    ensures op.Took? ==>
              var b := Subject(s, op);
              && Live(s'.blocks) == Live(s.blocks) + {b} && b !in Live(s.blocks) && b.size >= op.n
              && (op.aligned ==> (b.addr + HEADER) % PAGE_SIZE == 0)
              && start <= b.addr && b.End() <= s'.end
              && forall a :: a in Live(s.blocks) ==> a.End() <= b.addr || b.End() <= a.addr
    ensures op.Freed? ==> Live(s'.blocks) == Live(s.blocks) - {Subject(s, op)} && Subject(s, op) in Live(s.blocks)
  {
    hide Tiles, Sound, Live, Release, Carve, Grow, Merged, GrowTimes, GrownEnd, ReleaseEnd, Stranded;
    match op
    case Took(n, aligned, growths, k) =>
      GrownGood(s.blocks, start, s.end, PageUp(n), growths);
      var g := Grown(s, op);
      CarveKeeps(g.blocks, k, n, aligned, start, g.end);
      CarveLive(g.blocks, k, n, aligned);
      CarvedInside(g.blocks, k, n, aligned, start, g.end);
    case Freed(k) =>
      ReleaseEndBounds(s.blocks, k, start, s.end);
      ReleaseKeeps(s.blocks, k, start, s.end);
      ReleaseLive(s.blocks, k, start, s.end);
      LiveMember(s.blocks, k);
  }

  lemma LiveMember(bs: seq<Block>, k: nat)
    requires k < |bs| && !bs[k].hole
    ensures bs[k] in Live(bs)
  {
  }

  lemma CarvedInside(bs: seq<Block>, k: nat, n: nat, aligned: bool, start: int, end: int)
    requires Tiles(bs, start, end) && k < |bs| && Fits(bs[k], n, aligned) && n >= MIN_LIVE
    ensures var b := Carved(bs[k], n, aligned);
            && b.size >= n && bs[k].addr <= b.addr && b.End() <= bs[k].End()
            && (aligned ==> (b.addr + HEADER) % PAGE_SIZE == 0)
            && start <= b.addr && b.End() <= end && b !in Live(bs)
            && forall a :: a in Live(bs) ==> a.End() <= b.addr || b.End() <= a.addr
  {
    TilesOrder(bs, start, end);
    var b := Carved(bs[k], n, aligned);
    forall a | a in Live(bs) ensures a.End() <= b.addr || b.End() <= a.addr {
      var i :| 0 <= i < |bs| && bs[i] == a;
      if i < k { assert bs[i].End() <= bs[k].addr; } else { assert bs[k].End() <= bs[i].addr; }
    }
  }

  /** A run: states[i] steps to states[i + 1] by ops[i]. */
  ghost predicate Run(states: seq<State>, ops: seq<Op>, start: int) {
    && |states| == |ops| + 1
    && forall i :: 0 <= i < |ops| ==> Steps(states[i], ops[i], states[i + 1], start)
  }

  lemma {:induction false} RunGood(states: seq<State>, ops: seq<Op>, start: int, i: nat)
    requires Run(states, ops, start) && Good(states[0], start) && i < |states|
    ensures Good(states[i], start)
  {
    if i > 0 {
      RunGood(states, ops, start, i - 1);
      assert Steps(states[i - 1], ops[i - 1], states[i - 1 + 1], start);
      StepRefines(states[i - 1], ops[i - 1], states[i], start);
    }
  }

  /** Over every run a live block keeps its extent until it is itself freed: no split, merge,
      growth or contraction made for another request moves or resizes it. */
  lemma {:induction false} BlockSurvives(states: seq<State>, ops: seq<Op>, start: int, b: Block, i: nat, j: nat)
    requires Run(states, ops, start) && Good(states[0], start) && i <= j < |states|
    requires b in Live(states[i].blocks)
    requires forall t :: i <= t < j && ops[t].Freed? && ops[t].block < |states[t].blocks| ==>
               states[t].blocks[ops[t].block] != b
    ensures b in Live(states[j].blocks)
  {
    hide Live, Good;
    if i < j {
      BlockSurvives(states, ops, start, b, i, j - 1);
      RunGood(states, ops, start, j - 1);
      assert Steps(states[j - 1], ops[j - 1], states[j - 1 + 1], start);
      StepRefines(states[j - 1], ops[j - 1], states[j], start);
    }
  }

  lemma RunLonger(states: seq<State>, ops: seq<Op>, start: int, op: Op, s: State)
    requires Run(states, ops, start) && Steps(states[|ops|], op, s, start)
    ensures Run(states + [s], ops + [op], start)
  {
    hide Steps;
    var states', ops' := states + [s], ops + [op];
    forall i | 0 <= i < |ops'| ensures Steps(states'[i], ops'[i], states'[i + 1], start) {
      if i < |ops| { assert Steps(states[i], ops[i], states[i + 1], start); }
    }
  }

  lemma FirstState(s: State, start: int)
    ensures Run([s], [], start)
  {
  }
}
