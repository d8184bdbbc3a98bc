/** Whole runs of the heap's code, driven by a client that also writes into the blocks it holds. */
module HeapSessions {
  import opened Memory
  import opened Blocks
  import opened KernelHeap
  import opened HeapRuns

  /** What a client does: ask for memory, give back one of the pointers it holds, or store a byte behind one of them. */
  datatype Request =
    | Take(size: nat, aligned: bool)
    | Give(which: nat)
    | Put(which: nat, offset: nat, value: Byte)

  /** What a client knows: its pointers, the sizes it asked for, and the bytes it last wrote into blocks it still
      holds. */
  datatype Client = Client(held: seq<int>, sizes: seq<nat>, wrote: map<int, Byte>)

  /** Address a is in the i-th piece of memory the client holds. */
  predicate Within(c: Client, i: int, a: int) {
    0 <= i < |c.held| && i < |c.sizes| && c.held[i] <= a < c.held[i] + c.sizes[i]
  }

  /** The client after one request; p is the pointer a Take was answered with. */
  function Served(c: Client, q: Request, p: int): Client
    requires |c.sizes| == |c.held|
  {
    match q
    case Take(size, _) => Client(c.held + [p], c.sizes + [size], c.wrote)
    case Give(which) =>
      if which >= |c.held| then c
      else Client(c.held[..which] + c.held[which + 1..], c.sizes[..which] + c.sizes[which + 1..],
                  map a | a in c.wrote && !Within(c, which, a) :: c.wrote[a])
    case Put(which, offset, value) =>
      if which < |c.held| && offset < c.sizes[which] then c.(wrote := c.wrote[c.held[which] + offset := value]) else c
  }

  /** The client after a sequence of requests, from nothing. */
  function Replay(requests: seq<Request>, ps: seq<int>): (c: Client)
    requires |ps| == |requests|
    ensures |c.sizes| == |c.held|
  {
    var n := |requests|;
    if n == 0 then Client([], [], map[]) else Served(Replay(requests[..n - 1], ps[..n - 1]), requests[n - 1], ps[n - 1])
  }

  ghost function StateOf(h: Heap): State
    reads h
  {
    State(h.blocks, h.end)
  }

  /** The pointers of the live blocks. */
  ghost function Payloads(bs: seq<Block>): set<int> {
    set b | b in Live(bs) :: b.addr + HEADER
  }

  /** The client holds exactly the live blocks, each once. */
  ghost predicate HeldAre(held: seq<int>, bs: seq<Block>) {
    (forall i, j :: 0 <= i < j < |held| ==> held[i] != held[j]) && forall p :: p in held <==> p in Payloads(bs)
  }

  /** Every held block has the bytes that were asked for and 20 for its tags, and less than 20 more. */
  ghost predicate Roomy(c: Client, bs: seq<Block>) {
    && |c.sizes| == |c.held|
    && forall i, b :: 0 <= i < |c.held| && b in Live(bs) && b.addr + HEADER == c.held[i] ==>
         c.sizes[i] + 20 <= b.size < c.sizes[i] + 40
  }

  /** Every byte the client wrote, into blocks it still holds, is there. */
  ghost predicate Remembers(c: Client, m: Mem) {
    forall a :: a in c.wrote ==> a in m && m[a] == c.wrote[a] && exists i :: Within(c, i, a)
  }

  ghost predicate Holds(c: Client, bs: seq<Block>, m: Mem) {
    HeldAre(c.held, bs) && Roomy(c, bs) && Remembers(c, m)
  }

  /** What serving one request did in state s: a Take is one allocation of that size and alignment, answered with the
      payload of the block it made, which has less than 20 bytes to spare; a Give of a held pointer frees the block
      behind it; nothing else is an operation. */
  ghost predicate Did(c: Client, q: Request, p: int, s: State, ops: seq<Op>) {
    match q
    case Take(size, aligned) =>
      && |ops| == 1 && ops[0].Took? && ops[0].n == size + MIN_BLOCK && ops[0].aligned == aligned
      && BestFit(Grown(s, ops[0]).blocks, ops[0].hole, ops[0].n, aligned)
      && p == Subject(s, ops[0]).addr + HEADER && size + 20 <= Subject(s, ops[0]).size < size + 40
      && (aligned ==> p % PAGE_SIZE == 0)
    case Give(which) =>
      if which >= |c.held| then ops == []
      else
        && |ops| == 1 && ops[0].Freed? && ops[0].block < |s.blocks|
        && s.blocks[ops[0].block].addr + HEADER == c.held[which]
    case Put(_, _, _) => ops == []
  }

  /** The operations of a run are those of the requests served so far: marks[i] is how many there were before request
      i. */
  ghost predicate Traced(requests: seq<Request>, ps: seq<int>, states: seq<State>, ops: seq<Op>, marks: seq<nat>) {
    && |ps| <= |requests| && |marks| == |ps| + 1 && |states| == |ops| + 1 && marks[0] == 0 && marks[|ps|] == |ops|
    && forall i :: 0 <= i < |ps| ==> TracedAt(requests, ps, states, ops, marks, i)
  }

  ghost predicate TracedAt(requests: seq<Request>, ps: seq<int>, states: seq<State>, ops: seq<Op>, marks: seq<nat>,
                           i: int)
    requires |ps| <= |requests| && |marks| == |ps| + 1 && |states| == |ops| + 1 && 0 <= i < |ps|
  {
    && marks[i] <= marks[i + 1] <= |ops|
    && Did(Replay(requests[..i], ps[..i]), requests[i], ps[i], states[marks[i]], ops[marks[i]..marks[i + 1]])
  }

  lemma TracedStill(requests: seq<Request>, ps: seq<int>, states: seq<State>, ops: seq<Op>, marks: seq<nat>, p: int,
                    more: seq<State>, did: seq<Op>, mark: nat, i: nat)
    requires |ps| < |requests| && |marks| == |ps| + 1 && |states| == |ops| + 1 && i < |ps| && |more| == |did|
    requires TracedAt(requests, ps, states, ops, marks, i)
    ensures TracedAt(requests, ps + [p], states + more, ops + did, marks + [mark], i)
  {
    hide Did, Replay;
    assert (ps + [p])[..i] == ps[..i];
    assert (ops + did)[marks[i]..marks[i + 1]] == ops[marks[i]..marks[i + 1]];
  }

  lemma TracedLast(requests: seq<Request>, ps: seq<int>, states: seq<State>, ops: seq<Op>, marks: seq<nat>, p: int,
                   more: seq<State>, did: seq<Op>)
    requires |ps| < |requests| && |marks| == |ps| + 1 && |states| == |ops| + 1 && marks[|ps|] == |ops|
    requires |more| == |did|
    requires Did(Replay(requests[..|ps|], ps), requests[|ps|], p, states[|ops|], did)
    ensures TracedAt(requests, ps + [p], states + more, ops + did, marks + [|ops| + |did|], |ps|)
  {
    hide Did, Replay;
    assert (ps + [p])[..|ps|] == ps;
    assert (ops + did)[|ops|..|ops| + |did|] == did;
  }

  lemma TracedNext(requests: seq<Request>, ps: seq<int>, states: seq<State>, ops: seq<Op>, marks: seq<nat>, p: int,
                   more: seq<State>, did: seq<Op>)
    requires Traced(requests, ps, states, ops, marks) && |ps| < |requests| && |more| == |did|
    requires Did(Replay(requests[..|ps|], ps), requests[|ps|], p, states[|ops|], did)
    ensures Traced(requests, ps + [p], states + more, ops + did, marks + [|ops| + |did|])
  {
    hide Did, Replay, TracedAt;
    var mark := |ops| + |did|;
    forall i | 0 <= i < |ps| + 1 ensures TracedAt(requests, ps + [p], states + more, ops + did, marks + [mark], i) {
      if i < |ps| {
        TracedStill(requests, ps, states, ops, marks, p, more, did, mark, i);
      } else {
        TracedLast(requests, ps, states, ops, marks, p, more, did);
      }
    }
  }

  /** Every aligned request was answered with a page-aligned pointer. */
  lemma AlignedAnswers(requests: seq<Request>, ps: seq<int>, states: seq<State>, ops: seq<Op>, marks: seq<nat>, i: nat)
    requires Traced(requests, ps, states, ops, marks) && i < |ps| && requests[i].Take? && requests[i].aligned
    ensures ps[i] % PAGE_SIZE == 0
  {
    hide Replay, Grown, Subject, BestFit;
    assert TracedAt(requests, ps, states, ops, marks, i);
  }

  lemma HeapIsGood(h: Heap)
    requires h.Valid()
    ensures Good(StateOf(h), h.start) && h.start > 0
  {
  }

  /** Growth moves frames into the arena and loses none. */
  lemma {:induction false} GrowthConserves(frames: int, end: int, amount: nat, g: nat)
    requires amount % PAGE_SIZE == 0
    ensures FramesLeft(frames, amount, g) * PAGE_SIZE + GrownEnd(end, amount, g) == frames * PAGE_SIZE + end
    decreases g
  {
    if g > 0 { GrowthConserves(frames - amount / PAGE_SIZE, end + amount, amount, g - 1); }
  }

  lemma HeldMore(held: seq<int>, bs: seq<Block>, bs': seq<Block>, b: Block)
    requires HeldAre(held, bs) && Live(bs') == Live(bs) + {b} && forall a :: a in Live(bs) ==> a.addr != b.addr
    ensures HeldAre(held + [b.addr + HEADER], bs')
  {
    hide Live;
    var p := b.addr + HEADER;
    assert p !in Payloads(bs);
    assert b in Live(bs');
    forall q ensures q in held + [p] <==> q in Payloads(bs') {
      if q in Payloads(bs) { var a :| a in Live(bs) && q == a.addr + HEADER; assert a in Live(bs'); }
    }
  }

  lemma HeldLess(held: seq<int>, which: nat, bs: seq<Block>, bs': seq<Block>, b: Block)
    requires HeldAre(held, bs) && which < |held| && held[which] == b.addr + HEADER
    requires Live(bs') == Live(bs) - {b} && b in Live(bs) && forall a :: a in Live(bs) && a != b ==> a.addr != b.addr
    ensures HeldAre(held[..which] + held[which + 1..], bs')
  {
    hide Live;
    var rest := held[..which] + held[which + 1..];
    forall q ensures q in rest <==> q in Payloads(bs') {
      if q in rest {
        var i :| 0 <= i < |rest| && rest[i] == q;
        assert q == held[if i < which then i else i + 1];
        assert q in Payloads(bs);
        var a :| a in Live(bs) && q == a.addr + HEADER;
        assert a in Live(bs');
      }
      if q in Payloads(bs') {
        var a :| a in Live(bs') && q == a.addr + HEADER;
        assert q in Payloads(bs);
        var i :| 0 <= i < |held| && held[i] == q;
        assert q == rest[if i < which then i else i - 1];
      }
    }
  }

  lemma HeldIn(held: seq<int>, i: nat, bs: seq<Block>)
    requires HeldAre(held, bs) && i < |held|
    ensures held[i] in Payloads(bs)
  {
    hide Payloads;
    assert held[i] in held;
  }

  /** Which block a held pointer belongs to. */
  lemma HeldBlock(held: seq<int>, which: nat, bs: seq<Block>) returns (k: nat)
    requires HeldAre(held, bs) && which < |held|
    ensures k < |bs| && !bs[k].hole && held[which] == bs[k].addr + HEADER && bs[k] in Live(bs)
  {
    assert held[which] in held;
    var b :| b in Live(bs) && held[which] == b.addr + HEADER;
    k :| k < |bs| && bs[k] == b;
  }

  lemma OneAtAddress(s: State, start: int, b: Block)
    requires Good(s, start) && b in Live(s.blocks)
    ensures forall a :: a in Live(s.blocks) && a != b ==> a.addr != b.addr
  {
    hide Live, Good;
    forall a | a in Live(s.blocks) && a != b
      ensures a.addr != b.addr
    {
      LiveDisjoint(s, start, a, b);
      LiveDisjoint(s, start, b, a);
    }
  }

  /** Bytes behind a held pointer survive whatever keeps its block. */
  lemma ByteSurvives(c: Client, bs: seq<Block>, m: Mem, m': Mem, live: set<Block>, i: nat, a: int)
    requires HeldAre(c.held, bs) && Roomy(c, bs) && Within(c, i, a) && a in m && Kept(m, m', live)
    requires forall b :: b in Live(bs) && b.addr + HEADER == c.held[i] ==> b in live
    ensures a in m' && m'[a] == m[a]
  {
    hide Live;
    var k := HeldBlock(c.held, i, bs);
    assert bs[k] in live && bs[k].size >= c.sizes[i] + MIN_BLOCK;
    assert SameOn(m, m', bs[k].addr, bs[k].End());
  }

  lemma TakenHolds(c: Client, bs: seq<Block>, bs': seq<Block>, m: Mem, m': Mem, b: Block, size: nat, aligned: bool)
    requires Holds(c, bs, m) && Live(bs') == Live(bs) + {b} && Kept(m, m', Live(bs))
    requires size + 20 <= b.size < size + 40
    requires forall a :: a in Live(bs) ==> a.addr != b.addr
    ensures Holds(Served(c, Take(size, aligned), b.addr + HEADER), bs', m')
  {
    hide Live, Kept;
    var c' := Served(c, Take(size, aligned), b.addr + HEADER);
    HeldMore(c.held, bs, bs', b);
    forall i | 0 <= i < |c.held| ensures c.held[i] in Payloads(bs) { HeldIn(c.held, i, bs); }
    forall a | a in c'.wrote ensures a in m' && m'[a] == c'.wrote[a] && exists i :: Within(c', i, a) {
      var i :| Within(c, i, a);
      ByteSurvives(c, bs, m, m', Live(bs), i, a);
      assert Within(c', i, a);
    }
  }

  lemma RoomyLess(c: Client, bs: seq<Block>, bs': seq<Block>, which: nat, p: int)
    requires Roomy(c, bs) && Live(bs') <= Live(bs) && which < |c.held|
    ensures Roomy(Served(c, Give(which), p), bs')
  {
    hide Live;
    var c' := Served(c, Give(which), p);
    forall i, x | 0 <= i < |c'.held| && x in Live(bs') && x.addr + HEADER == c'.held[i]
      ensures c'.sizes[i] + 20 <= x.size < c'.sizes[i] + 40
    {
      var j := if i < which then i else i + 1;
      assert c'.held[i] == c.held[j] && c'.sizes[i] == c.sizes[j] && x in Live(bs);
    }
  }

  lemma GivenHolds(c: Client, bs: seq<Block>, bs': seq<Block>, m: Mem, m': Mem, b: Block, which: nat, p: int)
    requires Holds(c, bs, m) && Live(bs') == Live(bs) - {b} && b in Live(bs) && Kept(m, m', Live(bs) - {b})
    requires which < |c.held| && c.held[which] == b.addr + HEADER
    requires forall a :: a in Live(bs) && a != b ==> a.addr != b.addr
    ensures Holds(Served(c, Give(which), p), bs', m')
  {
    hide Live, Kept;
    var c' := Served(c, Give(which), p);
    HeldLess(c.held, which, bs, bs', b);
    RoomyLess(c, bs, bs', which, p);
    forall a | a in c'.wrote ensures a in m' && m'[a] == c'.wrote[a] && exists i :: Within(c', i, a) {
      var i :| Within(c, i, a);
      assert i != which && c.held[i] != c.held[which];
      ByteSurvives(c, bs, m, m', Live(bs) - {b}, i, a);
      assert Within(c', if i < which then i else i - 1, a);
    }
  }

  lemma PutHolds(c: Client, bs: seq<Block>, m: Mem, which: nat, offset: nat, v: Byte, p: int)
    requires Holds(c, bs, m) && which < |c.held| && offset < c.sizes[which] && c.held[which] + offset in m
    ensures Holds(Served(c, Put(which, offset, v), p), bs, m[c.held[which] + offset := v])
  {
    var at, c' := c.held[which] + offset, Served(c, Put(which, offset, v), p);
    assert c' == c.(wrote := c.wrote[at := v]) && Within(c, which, at);
    forall a | a in c'.wrote ensures exists i :: Within(c', i, a) {
      assert a == at || a in c.wrote;
      var i :| Within(c, i, a);
      SameWithin(c, c', i, a);
    }
  }

  lemma SameWithin(c: Client, c': Client, i: int, a: int)
    requires c'.held == c.held && c'.sizes == c.sizes
    ensures Within(c', i, a) == Within(c, i, a)
  {
  }

  method TakeOne(h: Heap, size: nat, aligned: bool, frameBytes: int -> Byte, ghost c: Client)
      returns (r: Outcome, ghost op: Op)
    requires h.Valid() && Holds(c, h.blocks, h.mem)
    modifies h, h.index, h.index.data
    ensures r.Done? ==> h.Valid() && Steps(old(StateOf(h)), op, StateOf(h), h.start)
    ensures r.Done? ==> Holds(Served(c, Take(size, aligned), r.p), h.blocks, h.mem)
    ensures r.Done? ==> Did(c, Take(size, aligned), r.p, old(StateOf(h)), [op])
    ensures r.Done? ==> h.freeFrames * PAGE_SIZE + h.end == old(h.freeFrames) * PAGE_SIZE + old(h.end)
    ensures r.Halt? ==> r.why != Corrupt && r.why != PageFault
  {
    hide Heap.Valid, Heap.GrowsTo, Heap.Refused, HeldAre, Live, Carve, Carved, BestFit, GrowTimes, GrownEnd, FramesLeft,
         Good, PageUp, Kept, Roomy, Remembers, Served;
    HeapIsGood(h);
    ghost var before, m := StateOf(h), h.mem;
    ghost var g, k;
    r, g, k := h.Alloc(size, aligned, frameBytes);
    op := Took(size + MIN_BLOCK, aligned, g, k);
    if r.Halt? { return; }
    StepRefines(before, op, StateOf(h), h.start);
    GrowthConserves(old(h.freeFrames), before.end, PageUp(size + MIN_BLOCK), g);
    TakenApart(before, op, StateOf(h), h.start);
    TakenRoom(before, op, size);
    TakenHolds(c, before.blocks, h.blocks, m, h.mem, Subject(before, op), size, aligned);
  }

  lemma TakenApart(s: State, op: Op, s': State, start: int)
    requires Good(s, start) && op.Took? && Steps(s, op, s', start)
    ensures var b := Subject(s, op); forall a :: a in Live(s.blocks) ==> a.addr != b.addr
  {
    hide Good, Live, Carve, BestFit, GrowTimes, GrownEnd, Carved;
    StepRefines(s, op, s', start);
    var b := Subject(s, op);
    forall a | a in Live(s.blocks) ensures a.addr != b.addr { LiveDisjoint(s', start, a, b); }
  }

  lemma TakenRoom(s: State, op: Op, size: nat)
    requires op.Took? && op.n == size + MIN_BLOCK && size > 0
    requires BestFit(Grown(s, op).blocks, op.hole, op.n, op.aligned)
    ensures size + 20 <= Subject(s, op).size < size + 40
  {
    hide Carve, GrowTimes, GrownEnd;
    CarvedMeans(Grown(s, op).blocks, op.hole, op.n, op.aligned);
  }

  method GiveOne(h: Heap, p: int, which: nat, ghost c: Client) returns (r: Outcome, ghost op: Op)
    requires h.Valid() && Holds(c, h.blocks, h.mem) && which < |c.held| && p == c.held[which]
    modifies h, h.index, h.index.data
    ensures op.Freed? && op.block < |old(h.blocks)| && old(h.blocks)[op.block].addr + HEADER == p
    ensures r.Halt? <==> Stranded(old(h.blocks), op.block, h.start, old(h.end))
    ensures r.Done? ==> h.Valid() && Steps(old(StateOf(h)), op, StateOf(h), h.start)
    ensures r.Done? ==> Holds(Served(c, Give(which), r.p), h.blocks, h.mem)
    ensures r.Done? ==> Did(c, Give(which), r.p, old(StateOf(h)), [op])
    ensures r.Done? ==> h.freeFrames * PAGE_SIZE + h.end == old(h.freeFrames) * PAGE_SIZE + old(h.end)
  {
    hide Heap.Valid, HeldAre, Live, Release, ReleaseEnd, Merged, Stranded, Good, Kept, Roomy, Remembers, Served;
    HeapIsGood(h);
    ghost var before, m := StateOf(h), h.mem;
    ghost var k := HeldBlock(c.held, which, h.blocks);
    op := Freed(k);
    PayloadsPositive(before, h.start, before.blocks[k]);
    OneAtAddress(before, h.start, before.blocks[k]);
    r := h.Free(p, k);
    if r.Halt? { return; }
    StepRefines(before, op, StateOf(h), h.start);
    GivenHolds(c, before.blocks, h.blocks, m, h.mem, before.blocks[k], which, r.p);
  }

  method PutOne(h: Heap, which: nat, offset: nat, v: Byte, c: Client, ghost p: int)
    requires h.Valid() && Holds(c, h.blocks, h.mem) && |c.sizes| == |c.held| && which < |c.held|
    requires offset < c.sizes[which]
    modifies h`mem
    ensures h.Valid() && Holds(Served(c, Put(which, offset, v), p), h.blocks, h.mem)
  {
    hide Heap.Valid, HeldAre, Live, Served;
    ghost var m := h.mem;
    ghost var k := HeldBlock(c.held, which, h.blocks);
    h.ClientStore(c.held[which] + offset, v, k);
    hide Roomy, Remembers;
    PutHolds(c, h.blocks, m, which, offset, v, p);
  }

  lemma PayloadsPositive(s: State, start: int, b: Block)
    requires Good(s, start) && b in Live(s.blocks) && start > 0
    ensures b.addr + HEADER != 0
  {
    hide Live, Good;
    LiveDisjoint(s, start, b, b);
  }

  lemma ReplayOne(requests: seq<Request>, ps: seq<int>, i: nat, p: int)
    requires i < |requests| && |ps| == i
    ensures Replay(requests[..i + 1], ps + [p]) == Served(Replay(requests[..i], ps), requests[i], p)
  {
    hide Served;
    assert requests[..i + 1][..i] == requests[..i] && (ps + [p])[..i] == ps;
  }

  method ServeOne(h: Heap, q: Request, c: Client, frameBytes: int -> Byte) returns (r: Outcome, ghost did: seq<Op>)
    requires h.Valid() && Holds(c, h.blocks, h.mem) && |c.sizes| == |c.held|
    modifies h, h.index, h.index.data
    ensures |did| <= 1
    ensures r.Done? ==>
              && h.Valid() && Holds(Served(c, q, r.p), h.blocks, h.mem) && Did(c, q, r.p, old(StateOf(h)), did)
              && h.freeFrames * PAGE_SIZE + h.end == old(h.freeFrames) * PAGE_SIZE + old(h.end)
    ensures r.Done? && did == [] ==> StateOf(h) == old(StateOf(h))
    ensures r.Done? && did != [] ==> Steps(old(StateOf(h)), did[0], StateOf(h), h.start)
    ensures r == Halt(Corrupt) || r == Halt(PageFault) ==>
              exists k :: 0 <= k < |old(h.blocks)| && Stranded(old(h.blocks), k, h.start, old(h.end))
  {
    hide Heap.Valid, HeldAre, Roomy, Remembers, Live, Stranded, Steps, Served, BestFit, Subject, Grown;
    r, did := Done(0), [];
    ghost var op;
    match q
    case Take(size, aligned) =>
      r, op := TakeOne(h, size, aligned, frameBytes, c);
      did := [op];
    case Give(which) =>
      if which < |c.held| {
        r, op := GiveOne(h, c.held[which], which, c);
        did := [op];
      } else {
        Ignored(c, q, 0);
      }
    case Put(which, offset, value) =>
      if which < |c.held| && offset < c.sizes[which] {
        PutOne(h, which, offset, value, c, 0);
      } else {
        Ignored(c, q, 0);
      }
  }

  /** Whole runs of the code: every completed call is a step, and the steps are those of the requests, so what is proved
      of runs holds of them; the pointers handed out and not yet given back are exactly those of the live blocks, every
      byte last written behind one of them is still there, and frames are conserved. The only halt in `free` is the
      stranded hole. */
  method Session(h: Heap, requests: seq<Request>, frameBytes: int -> Byte)
      returns (r: Outcome, c: Client, ghost ps: seq<int>, ghost states: seq<State>, ghost ops: seq<Op>,
               ghost marks: seq<nat>)
    requires h.Valid() && Live(h.blocks) == {}
    modifies h, h.index, h.index.data
    ensures Run(states, ops, h.start) && states[0] == old(StateOf(h)) && Traced(requests, ps, states, ops, marks)
    ensures r.Done? ==> |ps| == |requests| && c == Replay(requests, ps)
    ensures r.Done? ==> h.Valid() && states[|ops|] == StateOf(h) && Holds(c, h.blocks, h.mem)
    ensures r.Done? ==> h.freeFrames * PAGE_SIZE + h.end == old(h.freeFrames) * PAGE_SIZE + old(h.end)
    ensures r == Halt(Corrupt) || r == Halt(PageFault) ==>
              var last := states[|ops|];
              exists k :: 0 <= k < |last.blocks| && Stranded(last.blocks, k, h.start, last.end)
  {
    hide Heap.Valid, Holds, Live, Stranded, Steps, Run, Served, Replay, Did, Traced;
    c, ps, states, ops, marks, r := Client([], [], map[]), [], [StateOf(h)], [], [0], Done(0);
    NothingHeld(h.blocks, h.mem);
    FirstState(states[0], h.start);
    NothingTraced(requests, states[0]);
    assert requests[..0] == [];
    var i := 0;
    while i < |requests|
      invariant i == |ps| <= |requests| && c == Replay(requests[..i], ps) && h.Valid() && Holds(c, h.blocks, h.mem)
      invariant |states| == |ops| + 1 && Run(states, ops, h.start) && states[0] == old(StateOf(h))
      invariant states[|ops|] == StateOf(h) && Traced(requests, ps, states, ops, marks)
      invariant h.freeFrames * PAGE_SIZE + h.end == old(h.freeFrames) * PAGE_SIZE + old(h.end) && r.Done?
      decreases |requests| - i
    {
      var q := requests[i];
      ghost var did;
      r, did := ServeOne(h, q, c, frameBytes);
      if r.Halt? { return; }
      ghost var more := if did == [] then [] else [StateOf(h)];
      if did != [] {
        RunLonger(states, ops, h.start, did[0], StateOf(h));
        assert [did[0]] == did;
      } else {
        assert states + more == states && ops + did == ops;
      }
      ReplayOne(requests, ps, i, r.p);
      TracedNext(requests, ps, states, ops, marks, r.p, more, did);
      marks := marks + [|ops| + |did|];
      states, ops := states + more, ops + did;
      c, ps, i := Served(c, q, r.p), ps + [r.p], i + 1;
    }
    assert requests[..i] == requests;
  }

  lemma NothingTraced(requests: seq<Request>, s: State)
    ensures Traced(requests, [], [s], [], [0])
  {
  }

  lemma Ignored(c: Client, q: Request, p: int)
    requires |c.sizes| == |c.held|
    requires (q.Give? && q.which >= |c.held|) || (q.Put? && (q.which >= |c.held| || q.offset >= c.sizes[q.which]))
    ensures Served(c, q, p) == c
  {
  }

  lemma NothingHeld(bs: seq<Block>, m: Mem)
    requires Live(bs) == {}
    ensures Replay([], []) == Client([], [], map[]) && Holds(Client([], [], map[]), bs, m)
  {
  }

  /** alloc and then free of the same block: when nothing grew and the chosen hole did not touch the arena end, the free
      completes and everything is as it was before. */
  method AllocThenFree(h: Heap, size: nat, aligned: bool, frameBytes: int -> Byte)
      returns (taken: Outcome, r: Outcome, ghost g: nat, ghost k: nat)
    requires h.Valid()
    modifies h, h.index, h.index.data
    ensures taken.Done? && g == 0 ==> BestFit(old(h.blocks), k, size + MIN_BLOCK, aligned)
    ensures taken.Done? && g == 0 && old(h.blocks)[k].End() < old(h.end) ==>
              && r.Done? && h.Valid() && h.blocks == old(h.blocks) && h.end == old(h.end)
              && h.freeFrames == old(h.freeFrames) && Kept(old(h.mem), h.mem, old(Live(h.blocks)))
  {
    hide Heap.Valid, Heap.GrowsTo, Heap.Refused, Live, Carve, Carved, BestFit, GrowTimes, GrownEnd, FramesLeft, PageUp,
         Kept, CarvedAt, Release, ReleaseEnd, Stranded, Merged;
    ghost var before, m := StateOf(h), h.mem;
    ghost var frames := h.freeFrames;
    HeapIsGood(h);
    taken, g, k := h.Alloc(size, aligned, frameBytes);
    r := taken;
    if taken.Halt? { return; }
    ghost var n, amount := size + MIN_BLOCK, PageUp(size + MIN_BLOCK);
    ghost var grown := GrowTimes(before.blocks, before.end, amount, g);
    BestFits(grown, k, n, aligned);
    CarvedIndex(grown, k, n, aligned);
    ghost var at, m1 := CarvedAt(grown, k, aligned), h.mem;
    ghost var carved := h.blocks;
    HeapIsGood(h);
    LiveMember(carved, at);
    PayloadsPositive(StateOf(h), h.start, carved[at]);
    r := h.Free(taken.p, at);
    if g == 0 {
      NoGrowth(before, frames, amount);
      if before.blocks[k].End() < before.end {
        CarveThenRelease(before.blocks, k, n, aligned, h.start, before.end);
        CarveLive(before.blocks, k, n, aligned);
        NotAmong(before, h.start, k, n, aligned);
        KeptTwice(m, m1, h.mem, Live(before.blocks), Live(carved) - {carved[at]});
      }
    }
  }

  lemma NoGrowth(s: State, frames: int, amount: nat)
    ensures GrowTimes(s.blocks, s.end, amount, 0) == s.blocks && GrownEnd(s.end, amount, 0) == s.end
    ensures FramesLeft(frames, amount, 0) == frames
  {
  }

  lemma NotAmong(s: State, start: int, k: nat, n: nat, aligned: bool)
    requires Good(s, start) && k < |s.blocks| && Fits(s.blocks[k], n, aligned) && n >= MIN_LIVE
    ensures Carved(s.blocks[k], n, aligned) !in Live(s.blocks)
  {
    hide Tiles, Sound, Live;
    CarvedInside(s.blocks, k, n, aligned, start, s.end);
  }

  lemma KeptTwice(m0: Mem, m1: Mem, m2: Mem, live: set<Block>, more: set<Block>)
    requires Kept(m0, m1, live) && Kept(m1, m2, more) && live <= more
    ensures Kept(m0, m2, live)
  {
    forall b | b in live ensures SameOn(m0, m2, b.addr, b.End()) { assert SameOn(m1, m2, b.addr, b.End()); }
  }
}
