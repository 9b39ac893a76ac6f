/** sbrk and the profiler's slab allocator on top of it: what is handed out never overlaps. */
module Heap {
  import opened Words

  const SLAB := 1020 // MCOUNT_SLAB_INCREMENT

  // Where the linker puts the heap: below the addresses that bypass the cache.
  datatype Layout = Layout(start: nat, limit: nat)

  predicate Placed(l: Layout) {
    l.start <= l.limit < 0x8000_0000
  }

  // heap_end, mcount_slab_ptr and mcount_slab_size.
  datatype State = State(end: u32, slab: u32, left: s32)

  function Up4(a: nat): nat {
    (a + 3) / 4 * 4
  }

  lemma Rounded(a: nat)
    ensures a <= Up4(a) < a + 4 && Up4(a) % 4 == 0
  {
  }

  lemma Rounding(a: nat, b: nat)
    ensures a <= Up4(b) ==> a <= Up4(a) <= Up4(b)
    ensures a <= b ==> a <= Up4(b)
    ensures b <= Up4(b) < b + 4
  {
  }

  const FAILED: u32 := 0xFFFF_FFFF // (caddr_t) -1

  // What sbrk returns, and leaves behind.
  function SbrkTo(l: Layout, s: State, incr: s32): (r: (State, u32))
    requires Placed(l) && s.end <= Up4(l.limit) && Up4(s.end) + incr >= 0
  {
    var e := Up4(s.end);
    if e + incr > l.limit then (s.(end := e), FAILED) else (s.(end := e + incr), e)
  }

  // The slab has no room for size bytes, compared unsigned.
  predicate Short(s: State, size: u32) {
    size > ToU32(s.left)
  }

  function Refilled(l: Layout, s: State, size: u32): State
    requires Placed(l) && s.end <= Up4(l.limit)
  {
    if Short(s, size) then
      var (s', p) := SbrkTo(l, s, SLAB);
      s'.(slab := p, left := SLAB)
    else s
  }

  function McountTo(l: Layout, s: State, size: u32): (State, u32)
    requires Placed(l) && s.end <= Up4(l.limit)
  {
    var r := Refilled(l, s, size);
    (r.(slab := ToU32(r.slab + size), left := ToS32(r.left - size)), r.slab)
  }

  class Allocator {
    const layout: Layout
    var heap_end: u32
    var slab_ptr: u32
    var slab_size: s32

    predicate Valid()
      reads this
    {
      Placed(layout) && heap_end <= Up4(layout.limit)
    }

    function Now(): State
      reads this
    {
      State(heap_end, slab_ptr, slab_size)
    }

    constructor (layout: Layout)
      requires Placed(layout)
      ensures Valid() && this.layout == layout && Now() == Initial(layout)
    {
      this.layout := layout;
      heap_end, slab_ptr, slab_size := layout.start, 0, 0;
    }

    // sbrk.
    method Sbrk(incr: s32) returns (p: u32)
      requires Valid() && Up4(heap_end) + incr >= 0
      modifies this
      ensures Valid() && (Now(), p) == SbrkTo(layout, old(Now()), incr)
    {
      Rounding(heap_end, layout.limit);
      heap_end := (heap_end + 3) / 4 * 4;
      if heap_end + incr > layout.limit {
        return FAILED;
      }
      p := heap_end;
      heap_end := heap_end + incr;
    }

    // mcount_allocate.
    method McountAllocate(size: u32) returns (data: u32)
      requires Valid()
      modifies this
      ensures Valid() && (Now(), data) == McountTo(layout, old(Now()), size)
    {
      if size > ToU32(slab_size) {
        slab_ptr := Sbrk(SLAB);
        slab_size := SLAB;
      }
      data := slab_ptr;
      slab_ptr := ToU32(slab_ptr + size);
      slab_size := ToS32(slab_size - size);
    }
  }

  // ---------- Runs ----------

  function Initial(l: Layout): State
    requires Placed(l)
  {
    State(l.start, 0, 0)
  }

  datatype Op = Sbrk(incr: s32) | Mcount(size: u32)

  // What was handed out: [lo, hi), for mcount out of the slab that starts at `slab`.
  datatype Block = Block(lo: nat, hi: nat, slab: Option<nat>)

  // The state, what sbrk returned for the current slab, and what was handed out so far.
  datatype World = World(s: State, base: nat, blocks: seq<Block>)

  // Clients ask for more, not less; mcount's for 1 to 1020 bytes.
  predicate Asked(op: Op) {
    match op
    case Sbrk(incr) => incr >= 0
    case Mcount(size) => 1 <= size <= SLAB
  }

  // If the call is an mcount that needs a refill, the slab fits below the limit.
  predicate RefillSucceeds(l: Layout, s: State, op: Op) {
    op.Mcount? && Short(s, op.size) ==> Up4(s.end) + SLAB <= l.limit
  }

  // heap_end passes the limit by no more than its rounding.
  predicate Bounded(l: Layout, s: State) {
    Placed(l) && s.end <= Up4(l.limit)
  }

  function Step(l: Layout, w: World, op: Op): World
    requires Bounded(l, w.s) && Asked(op)
  {
    match op
    case Sbrk(incr) =>
      var (s, p) := SbrkTo(l, w.s, incr);
      if p == FAILED then w.(s := s) else World(s, w.base, w.blocks + [Block(p, p + incr, None)])
    case Mcount(size) =>
      var (s, p) := McountTo(l, w.s, size);
      var base := SlabBase(l, w, size);
      World(s, base, w.blocks + [Block(p, p + size, Some(base))])
  }

  // What sbrk returned for the slab an mcount takes from.
  function SlabBase(l: Layout, w: World, size: u32): nat
    requires Bounded(l, w.s)
  {
    if Short(w.s, size) then Refilled(l, w.s, size).slab else w.base
  }

  lemma StepBounded(l: Layout, w: World, op: Op)
    requires Bounded(l, w.s) && Asked(op)
    ensures Bounded(l, Step(l, w, op).s)
    ensures |Step(l, w, op).blocks| <= |w.blocks| + 1 && w.blocks <= Step(l, w, op).blocks
  {
    hide Up4;
    Rounding(w.s.end, l.limit);
    Rounding(Up4(w.s.end) + SLAB, l.limit);
    Rounding(Up4(w.s.end) + if op.Sbrk? then op.incr else 0, l.limit);
  }

  predicate Disjoint(a: Block, b: Block) {
    a.hi <= b.lo || b.hi <= a.lo
  }

  // Every block is below heap_end, and clear of what the slab has left.
  ghost predicate Clear(w: World) {
    forall i :: 0 <= i < |w.blocks| ==>
      w.blocks[i].hi <= w.s.end && (w.blocks[i].hi <= w.s.slab || w.s.slab + w.s.left <= w.blocks[i].lo)
  }

  // sbrk's blocks are word-aligned and in the heap, mcount's in a slab that is.
  predicate Fits(l: Layout, b: Block) {
    var from := if b.slab.Some? then b.slab.value else b.lo;
    var to := if b.slab.Some? then b.slab.value + SLAB else b.hi;
    l.start <= from <= b.lo <= b.hi <= to <= l.limit && from % 4 == 0
  }

  ghost predicate AllFit(l: Layout, blocks: seq<Block>) {
    forall i :: 0 <= i < |blocks| ==> Fits(l, blocks[i])
  }

  ghost predicate AllDisjoint(blocks: seq<Block>) {
    forall i, j :: 0 <= i < j < |blocks| ==> Disjoint(blocks[i], blocks[j])
  }

  // The slab in use, if there has been one, lies in the heap.
  predicate SlabPlaced(l: Layout, w: World) {
    && 0 <= w.s.left <= SLAB && w.s.slab + w.s.left <= w.s.end
    && (w.s.left > 0 ==> w.base + SLAB == w.s.slab + w.s.left <= l.limit && l.start <= w.base && w.base % 4 == 0)
  }

  ghost predicate Inv(l: Layout, w: World) {
    && Placed(l) && l.start <= w.s.end <= Up4(l.limit)
    && SlabPlaced(l, w) && Clear(w) && AllFit(l, w.blocks) && AllDisjoint(w.blocks)
  }

  lemma AddBlock(l: Layout, blocks: seq<Block>, b: Block)
    requires AllFit(l, blocks) && AllDisjoint(blocks) && Fits(l, b)
    requires forall i :: 0 <= i < |blocks| ==> Disjoint(blocks[i], b)
    ensures AllFit(l, blocks + [b]) && AllDisjoint(blocks + [b])
  {
    hide Fits, Disjoint;
  }

  lemma SbrkInv(l: Layout, w: World, incr: s32)
    requires Inv(l, w) && incr >= 0
    ensures Inv(l, Step(l, w, Sbrk(incr)))
  {
    hide AllFit, AllDisjoint, Up4;
    Rounded(w.s.end);
    Rounding(w.s.end, l.limit);
    Rounding(Up4(w.s.end) + incr, l.limit);
    var e := Up4(w.s.end);
    if e + incr <= l.limit {
      AddBlock(l, w.blocks, Block(e, e + incr, None));
    }
  }

  // The slab after a refill that succeeds: it has room, and everything handed out is below it or clear of it.
  lemma RefillInv(l: Layout, w: World, size: u32)
    requires Inv(l, w) && 1 <= size <= SLAB && RefillSucceeds(l, w.s, Mcount(size))
    ensures var r := Refilled(l, w.s, size);
      && Inv(l, World(r, if Short(w.s, size) then r.slab else w.base, w.blocks)) && size <= r.left
  {
    hide AllFit, AllDisjoint, Up4;
    Rounded(w.s.end);
    Rounding(w.s.end, l.limit);
    Rounding(Up4(w.s.end) + SLAB, l.limit);
  }

  lemma TakeInv(l: Layout, w: World, size: u32)
    requires Inv(l, w) && 1 <= size <= w.s.left
    ensures Inv(l, World(w.s.(slab := w.s.slab + size, left := w.s.left - size), w.base,
                         w.blocks + [Block(w.s.slab, w.s.slab + size, Some(w.base))]))
  {
    hide AllFit, AllDisjoint;
    AddBlock(l, w.blocks, Block(w.s.slab, w.s.slab + size, Some(w.base)));
  }

  lemma McountInv(l: Layout, w: World, size: u32)
    requires Inv(l, w) && 1 <= size <= SLAB && RefillSucceeds(l, w.s, Mcount(size))
    ensures Inv(l, Step(l, w, Mcount(size)))
  {
    hide Clear, AllFit, AllDisjoint, Refilled, Up4, Short, RefillSucceeds;
    RefillInv(l, w, size);
    var r := Refilled(l, w.s, size);
    var full := World(r, if Short(w.s, size) then r.slab else w.base, w.blocks);
    TakeInv(l, full, size);
    SlabRoom(r, size);
    Rounding(0, l.limit);
  }

  // The slab's pointer and size do not wrap.
  lemma SlabRoom(s: State, size: u32)
    requires 0 < size <= s.left && s.slab + s.left < WRAP
    ensures ToU32(s.slab + size) == s.slab + size && ToS32(s.left - size) == s.left - size
  {
  }

  lemma {:induction false} StepInv(l: Layout, w: World, op: Op)
    requires Inv(l, w) && Asked(op) && RefillSucceeds(l, w.s, op)
    ensures Inv(l, Step(l, w, op))
  {
    match op
    case Sbrk(incr) => SbrkInv(l, w, incr);
    case Mcount(size) => McountInv(l, w, size);
  }

  predicate AllAsked(ops: seq<Op>) {
    forall k :: 0 <= k < |ops| ==> Asked(ops[k])
  }

  function After(l: Layout, w: World, ops: seq<Op>): (r: World)
    requires Bounded(l, w.s) && AllAsked(ops)
    ensures Bounded(l, r.s)
  {
    if ops == [] then w
    else
      var front := After(l, w, ops[..|ops| - 1]);
      StepBounded(l, front, ops[|ops| - 1]);
      Step(l, front, ops[|ops| - 1])
  }

  // Every refill along the run succeeds.
  predicate Refills(l: Layout, w: World, ops: seq<Op>)
    requires Bounded(l, w.s) && AllAsked(ops)
  {
    ops == [] ||
    (var n := |ops| - 1;
     Refills(l, w, ops[..n]) && RefillSucceeds(l, After(l, w, ops[..n]).s, ops[n]))
  }

  function Start(l: Layout): World
    requires Placed(l)
    ensures Bounded(l, Start(l).s)
  {
    Rounding(l.start, l.limit);
    World(Initial(l), 0, [])
  }

  lemma {:induction false} RunInv(l: Layout, ops: seq<Op>)
    requires Placed(l) && AllAsked(ops) && Refills(l, Start(l), ops)
    ensures Inv(l, After(l, Start(l), ops))
  {
    if ops == [] {
      Rounding(l.start, l.limit);
    } else {
      RunInv(l, ops[..|ops| - 1]);
      StepInv(l, After(l, Start(l), ops[..|ops| - 1]), ops[|ops| - 1]);
    }
  }

  // Over every run whose refills succeed, all blocks handed out fit and are pairwise disjoint.
  lemma {:induction false} RunDisjoint(l: Layout, ops: seq<Op>)
    requires Placed(l) && AllAsked(ops) && Refills(l, Start(l), ops)
    ensures var blocks := After(l, Start(l), ops).blocks; AllFit(l, blocks) && AllDisjoint(blocks)
  {
    RunInv(l, ops);
  }

  // ---------- Refills that fail ----------

  // The slab in use after any run: in memory that sbrk granted, or what a failed refill left of one
  // that starts at the address -1.
  ghost predicate SlabKnown(l: Layout, w: World) {
    && Bounded(l, w.s) && l.start <= w.s.end && 0 <= w.s.left <= SLAB
    && if w.base == FAILED then w.s.slab + w.s.left == SLAB - 1 else SlabPlaced(l, w)
  }

  // The guard: the refill the call needs succeeds or, if it needs none, the last one did.
  predicate SlabGranted(l: Layout, w: World, size: u32) {
    if Short(w.s, size) then Up4(w.s.end) + SLAB <= l.limit else w.base != FAILED
  }

  lemma SbrkKnown(l: Layout, w: World, incr: s32)
    requires SlabKnown(l, w) && incr >= 0
    ensures SlabKnown(l, Step(l, w, Sbrk(incr)))
  {
    hide Up4;
    StepBounded(l, w, Sbrk(incr));
    Rounded(w.s.end);
  }

  // The slab a call takes from, if it is not short or its refill succeeds.
  lemma RefilledPlaced(l: Layout, w: World, size: u32)
    requires SlabKnown(l, w) && 1 <= size <= SLAB && SlabGranted(l, w, size)
    ensures var r, base := Refilled(l, w.s, size), SlabBase(l, w, size);
      && Bounded(l, r) && l.start <= r.end && base != FAILED
      && SlabPlaced(l, World(r, base, w.blocks)) && size <= r.left
  {
    hide Up4;
    Rounded(w.s.end);
    Rounding(w.s.end, l.limit);
    Rounding(Up4(w.s.end) + SLAB, l.limit);
  }

  lemma RefillFails(l: Layout, w: World, size: u32)
    requires SlabKnown(l, w) && 1 <= size <= SLAB && !SlabGranted(l, w, size)
    ensures var r := Refilled(l, w.s, size);
      && Bounded(l, r) && l.start <= r.end && SlabBase(l, w, size) == FAILED && size <= r.left <= SLAB
      && (if Short(w.s, size) then r.slab == FAILED && r.left == SLAB else r.slab + r.left == SLAB - 1)
  {
    hide Up4;
    Rounded(w.s.end);
    Rounding(w.s.end, l.limit);
  }

  lemma McountKnown(l: Layout, w: World, size: u32)
    requires SlabKnown(l, w) && 1 <= size <= SLAB
    ensures SlabKnown(l, Step(l, w, Mcount(size)))
  {
    hide Up4, Refilled, Short;
    StepBounded(l, w, Mcount(size));
    var r := Refilled(l, w.s, size);
    Rounding(0, l.limit);
    if SlabGranted(l, w, size) {
      RefilledPlaced(l, w, size);
      SlabRoom(r, size);
    } else {
      RefillFails(l, w, size);
      SlabWraps(r, size);
    }
  }

  lemma SlabWraps(s: State, size: u32)
    requires 0 < size <= s.left <= SLAB
    requires (s.slab == FAILED && s.left == SLAB) || s.slab + s.left == SLAB - 1
    ensures ToU32(s.slab + size) == (if s.slab == FAILED then size - 1 else s.slab + size)
    ensures ToS32(s.left - size) == s.left - size
  {
  }

  lemma {:induction false} RunKnown(l: Layout, ops: seq<Op>)
    requires Placed(l) && AllAsked(ops)
    ensures SlabKnown(l, After(l, Start(l), ops))
  {
    if ops == [] {
      Rounding(l.start, l.limit);
    } else {
      var front := After(l, Start(l), ops[..|ops| - 1]);
      RunKnown(l, ops[..|ops| - 1]);
      match ops[|ops| - 1]
      case Sbrk(incr) => SbrkKnown(l, front, incr);
      case Mcount(size) => McountKnown(l, front, size);
    }
  }

  // What an mcount hands out.
  function Handed(l: Layout, w: World, size: u32): Block
    requires Bounded(l, w.s)
  {
    var p := McountTo(l, w.s, size).1;
    Block(p, p + size, Some(SlabBase(l, w, size)))
  }

  // After any run, refills failing or not: mcount's block lies in a slab inside the heap exactly if the
  // slab it takes from was granted.
  lemma {:induction false} McountFitsIff(l: Layout, ops: seq<Op>, size: u32)
    requires Placed(l) && AllAsked(ops) && 1 <= size <= SLAB
    ensures var w := After(l, Start(l), ops); Fits(l, Handed(l, w, size)) <==> SlabGranted(l, w, size)
  {
    RunKnown(l, ops);
    KnownFitsIff(l, After(l, Start(l), ops), size);
  }

  lemma KnownFitsIff(l: Layout, w: World, size: u32)
    requires SlabKnown(l, w) && 1 <= size <= SLAB
    ensures Fits(l, Handed(l, w, size)) <==> SlabGranted(l, w, size)
  {
    hide Up4, Refilled, Short, Bounded;
    if SlabGranted(l, w, size) {
      RefilledPlaced(l, w, size);
    } else {
      RefillFails(l, w, size);
    }
  }

  // The same of the addresses alone, in terms of the three words the allocator keeps.  Where the heap does
  // not begin in the first 1019 bytes of memory, the slab itself tells.
  lemma {:induction false} McountInHeapIff(l: Layout, ops: seq<Op>, size: u32)
    requires Placed(l) && AllAsked(ops) && 1 <= size <= SLAB
    ensures var s := After(l, Start(l), ops).s; var p := McountTo(l, s, size).1;
      && (l.start <= p && p + size <= l.limit <==>
          if Short(s, size) then Up4(s.end) + SLAB <= l.limit else l.start <= s.slab && s.slab + size <= l.limit)
      && (SLAB - 1 <= l.start && !Short(s, size) ==>
          (l.start <= p && p + size <= l.limit <==> l.start <= s.slab && s.slab + s.left <= s.end))
  {
    hide Up4, Short;
    RunKnown(l, ops);
    var w := After(l, Start(l), ops);
    if SlabGranted(l, w, size) {
      RefilledPlaced(l, w, size);
    } else {
      RefillFails(l, w, size);
    }
  }

  // Two allocations in a row, the refill of the first failing: the second gets the bytes from address
  // a - 1 on.
  lemma {:induction false} SecondAfterFailure(l: Layout, ops: seq<Op>, a: u32, b: u32)
    requires Placed(l) && AllAsked(ops) && 1 <= a <= SLAB && 1 <= b <= SLAB - a
    requires var s := After(l, Start(l), ops).s; Short(s, a) && Up4(s.end) + SLAB > l.limit
    ensures var s1 := McountTo(l, After(l, Start(l), ops).s, a).0;
      Bounded(l, s1) && !Short(s1, b) && McountTo(l, s1, b).1 == a - 1
    ensures var w := After(l, Start(l), ops); !Fits(l, Handed(l, Step(l, w, Mcount(a)), b))
  {
    hide Up4;
    RunKnown(l, ops);
    var w := After(l, Start(l), ops);
    StepBounded(l, w, Mcount(a));
    RefillFails(l, w, a);
    SlabWraps(Refilled(l, w.s, a), a);
    McountKnown(l, w, a);
    KnownFitsIff(l, Step(l, w, Mcount(a)), b);
  }

  // Over whole runs: everything handed out fits exactly if every refill succeeds.
  lemma {:induction false} RunFitsIff(l: Layout, ops: seq<Op>)
    requires Placed(l) && AllAsked(ops)
    ensures AllFit(l, After(l, Start(l), ops).blocks) <==> Refills(l, Start(l), ops)
  {
    hide Step, AllFit, RefillSucceeds, Bounded;
    if Refills(l, Start(l), ops) {
      RunInv(l, ops);
    } else {
      var n := |ops| - 1;
      var front := After(l, Start(l), ops[..n]);
      if Refills(l, Start(l), ops[..n]) {
        RunKnown(l, ops[..n]);
        FailedStep(l, front, ops[n]);
      } else {
        RunFitsIff(l, ops[..n]);
        StepBounded(l, front, ops[n]);
        MisfitStays(l, front.blocks, Step(l, front, ops[n]).blocks);
      }
    }
  }

  lemma MisfitStays(l: Layout, blocks: seq<Block>, more: seq<Block>)
    requires !AllFit(l, blocks) && blocks <= more
    ensures !AllFit(l, more)
  {
    var i :| 0 <= i < |blocks| && !Fits(l, blocks[i]);
    assert more[i] == blocks[i];
  }

  lemma FailedStep(l: Layout, w: World, op: Op)
    requires SlabKnown(l, w) && Asked(op) && !RefillSucceeds(l, w.s, op)
    ensures !AllFit(l, Step(l, w, op).blocks)
  {
    hide Up4;
    KnownFitsIff(l, w, op.size);
    var blocks := Step(l, w, op).blocks;
    assert blocks[|w.blocks|] == Handed(l, w, op.size);
  }

  // ---------- What each call grants ----------

  // sbrk, with an increment of either sign: the least word-aligned address from heap_end on, if what is
  // asked for ends at or below the limit; otherwise -1, and only the rounding is kept.
  lemma SbrkOutcome(l: Layout, s: State, incr: s32, e: nat)
    requires Bounded(l, s) && s.end <= e < s.end + 4 && e % 4 == 0 && e + incr >= 0
    ensures e == Up4(s.end)
    ensures SbrkTo(l, s, incr) ==
            if e + incr <= l.limit then (State(e + incr, s.slab, s.left), e) else (State(e, s.slab, s.left), 0xFFFF_FFFF)
  {
    Rounding(s.end, l.limit);
  }

  // After any run: sbrk hands out a block of incr bytes at the rounded heap_end exactly if it fits.
  lemma {:induction false} SbrkGrants(l: Layout, ops: seq<Op>, incr: s32)
    requires Placed(l) && AllAsked(ops) && incr >= 0
    ensures var w := After(l, Start(l), ops);
      var e, next := Up4(w.s.end), Step(l, w, Sbrk(incr));
      && w.s.end <= e < w.s.end + 4 && e % 4 == 0
      && next.base == w.base && next.s.slab == w.s.slab && next.s.left == w.s.left
      && if e + incr <= l.limit then
           next.blocks == w.blocks + [Block(e, e + incr, None)] && next.s.end == e + incr
         else
           next.blocks == w.blocks && next.s.end == e
  {
    hide After, SbrkTo, Up4;
    var w := After(l, Start(l), ops);
    Rounded(w.s.end);
    Rounding(w.s.end, l.limit);
    SbrkOutcome(l, w.s, incr, Up4(w.s.end));
  }

  // What an mcount hands out and leaves behind.
  ghost predicate Takes(w: World, next: World, block: Block, end: nat, slab: nat, left: int) {
    && next.blocks == w.blocks + [block] && Some(next.base) == block.slab
    && next.s.end == end && next.s.slab == slab && next.s.left == left
  }

  // After any run: mcount takes the next bytes of the slab if there is room, else the first of a new one;
  // a refill that fails leaves the slab at address -1.
  lemma {:induction false} McountTakes(l: Layout, ops: seq<Op>, size: u32)
    requires Placed(l) && AllAsked(ops) && 1 <= size <= SLAB
    ensures var w := After(l, Start(l), ops);
      var s, e, next := w.s, Up4(w.s.end), Step(l, w, Mcount(size));
      if size <= s.left then
        Takes(w, next, Block(s.slab, s.slab + size, Some(w.base)), s.end, s.slab + size, s.left - size)
      else if e + 1020 <= l.limit then
        Takes(w, next, Block(e, e + size, Some(e)), e + 1020, e + size, 1020 - size)
      else
        Takes(w, next, Block(0xFFFF_FFFF, 0xFFFF_FFFF + size, Some(0xFFFF_FFFF)), e, size - 1, 1020 - size)
  {
    hide After, Step, Takes, Up4;
    var w := After(l, Start(l), ops);
    RunKnown(l, ops);
    if size <= w.s.left {
      TakesNext(l, w, size);
    } else {
      TakesNew(l, w, size);
    }
  }

  lemma TakesNext(l: Layout, w: World, size: u32)
    requires SlabKnown(l, w) && 1 <= size <= w.s.left
    ensures Takes(w, Step(l, w, Mcount(size)), Block(w.s.slab, w.s.slab + size, Some(w.base)),
                  w.s.end, w.s.slab + size, w.s.left - size)
  {
    hide Up4;
    Rounding(0, l.limit);
    SlabRoom(w.s, size);
  }

  lemma TakesNew(l: Layout, w: World, size: u32)
    requires SlabKnown(l, w) && w.s.left < size <= SLAB
    ensures var e, next := Up4(w.s.end), Step(l, w, Mcount(size));
      if e + 1020 <= l.limit then
        Takes(w, next, Block(e, e + size, Some(e)), e + 1020, e + size, 1020 - size)
      else
        Takes(w, next, Block(0xFFFF_FFFF, 0xFFFF_FFFF + size, Some(0xFFFF_FFFF)), e, size - 1, 1020 - size)
  {
    hide Up4, SlabPlaced;
    Rounding(w.s.end, l.limit);
    var e := Up4(w.s.end);
    if e + 1020 <= l.limit {
      SlabRoom(State(e + 1020, e, 1020), size);
    } else {
      SlabWraps(State(e, 0xFFFF_FFFF, 1020), size);
    }
  }

  // ---------- Memory given back ----------

  // sbrk's results under increments of either sign: the highest end of a block so far, and the blocks.
  datatype Break = Break(end: u32, top: nat, blocks: seq<Block>)

  // heap_end stays an address.
  predicate StaysAddress(b: Break, incr: s32) {
    Up4(b.end) + incr >= 0
  }

  function Move(l: Layout, b: Break, incr: s32): Break
    requires Placed(l) && b.end <= Up4(l.limit) && StaysAddress(b, incr)
  {
    var (s, p) := SbrkTo(l, State(b.end, 0, 0), incr);
    if p == FAILED || incr <= 0 then b.(end := s.end)
    else Break(s.end, if p + incr > b.top then p + incr else b.top, b.blocks + [Block(p, p + incr, None)])
  }

  // The address was handed out.
  predicate InBlock(blocks: seq<Block>, a: nat) {
    exists i :: 0 <= i < |blocks| && blocks[i].lo <= a < blocks[i].hi
  }

  // From the heap's start to the highest end, every word-aligned address was handed out.
  ghost predicate Covered(l: Layout, b: Break) {
    && Placed(l) && b.end <= Up4(b.top) && l.start <= b.top <= l.limit
    && (forall i :: 0 <= i < |b.blocks| ==> b.blocks[i].hi <= b.top)
    && forall a: nat :: l.start <= a < b.top && a % 4 == 0 ==> InBlock(b.blocks, a)
  }

  lemma AlignedAbove(a: nat, top: nat)
    requires a % 4 == 0 && top <= a
    ensures Up4(top) <= a
  {
  }

  lemma CoverMore(l: Layout, b: Break, incr: s32, a: nat)
    requires Covered(l, b) && b.end <= Up4(l.limit) && StaysAddress(b, incr)
    requires l.start <= a < Move(l, b, incr).top && a % 4 == 0
    ensures InBlock(Move(l, b, incr).blocks, a)
  {
    hide Up4;
    var m := Move(l, b, incr);
    if a < b.top {
      assert InBlock(b.blocks, a);
      var i :| 0 <= i < |b.blocks| && b.blocks[i].lo <= a < b.blocks[i].hi;
      assert m.blocks[i] == b.blocks[i];
    } else {
      AlignedAbove(a, b.top);
      Rounding(b.end, b.top);
      var n := |b.blocks|;
      assert m.blocks[n].lo <= a < m.blocks[n].hi;
    }
  }

  lemma MoveCovered(l: Layout, b: Break, incr: s32)
    requires Covered(l, b) && b.end <= Up4(l.limit) && StaysAddress(b, incr)
    ensures Covered(l, Move(l, b, incr)) && Move(l, b, incr).end <= Up4(l.limit)
  {
    hide Up4, InBlock;
    var e, m := Up4(b.end), Move(l, b, incr);
    Rounded(b.end);
    Rounding(b.end, b.top);
    Rounding(b.end, l.limit);
    Rounding(e + incr, l.limit);
    Rounding(e + incr, m.top);
    forall a: nat | l.start <= a < m.top && a % 4 == 0 ensures InBlock(m.blocks, a) {
      CoverMore(l, b, incr, a);
    }
  }

  // The states met from reset on, under these increments.
  ghost predicate Moves(l: Layout, bs: seq<Break>, incrs: seq<s32>) {
    && Placed(l) && |bs| == |incrs| + 1
    && bs[0] == Break(l.start, l.start, [])
    && forall k :: 0 <= k < |incrs| ==>
         bs[k].end <= Up4(l.limit) && StaysAddress(bs[k], incrs[k]) && bs[k + 1] == Move(l, bs[k], incrs[k])
  }

  lemma {:induction false} MovesCovered(l: Layout, bs: seq<Break>, incrs: seq<s32>, k: nat)
    requires Moves(l, bs, incrs) && k < |bs|
    ensures Covered(l, bs[k]) && bs[k].end <= Up4(l.limit)
  {
    hide Move, StaysAddress, Up4;
    if k == 0 {
      Rounding(l.start, l.start);
      Rounding(l.start, l.limit);
    } else {
      MovesCovered(l, bs, incrs, k - 1);
      MoveCovered(l, bs[k - 1], incrs[k - 1]);
    }
  }

  // After any such run, if heap_end is in the heap: what sbrk hands out next overlaps something handed out
  // before exactly if the rounded heap_end is below the highest end a block has had.
  lemma OverlapIff(l: Layout, bs: seq<Break>, incrs: seq<s32>, incr: s32)
    requires Moves(l, bs, incrs) && incr > 0
    ensures var b := bs[|incrs|];
      var p := Up4(b.end);
      l.start <= p && p + incr <= l.limit ==>
        (p < b.top <==>
         exists i :: 0 <= i < |b.blocks| && !Disjoint(b.blocks[i], Block(p, p + incr, None)))
  {
    hide Move, StaysAddress, Up4;
    var b := bs[|incrs|];
    MovesCovered(l, bs, incrs, |incrs|);
    Rounded(b.end);
    var p := Up4(b.end);
    if l.start <= p < b.top {
      assert InBlock(b.blocks, p);
      var i :| 0 <= i < |b.blocks| && b.blocks[i].lo <= p < b.blocks[i].hi;
      assert !Disjoint(b.blocks[i], Block(p, p + incr, None));
    }
  }

  // For one: what is handed out, given back and asked for again is the same block.
  lemma ShrinkReuses(l: Layout, s: State, n: s32)
    requires Bounded(l, s) && 0 < n && n % 4 == 0 && Up4(s.end) + n <= l.limit
    ensures var (s1, p1) := SbrkTo(l, s, n); var (s2, p2) := SbrkTo(l, s1, -n); SbrkTo(l, s2, n).1 == p1
  {
    hide Up4;
    Rounded(s.end);
    Rounding(Up4(s.end), l.limit);
    Rounding(Up4(s.end) + n, l.limit);
    Aligned(Up4(s.end));
    Aligned(Up4(s.end) + n);
  }

  lemma Aligned(a: nat)
    ensures a % 4 == 0 ==> Up4(a) == a
  {
  }
}
