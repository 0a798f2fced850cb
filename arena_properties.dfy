/** Properties of the arena that span several operations: recycling order,
    the bump path's alignment step, what a run of operations can and cannot
    change, where the buffer runs out, and the concrete request sequences
    the allocator is meant to serve. */
module ArenaProperties {
  import opened Memory
  import opened Alignment
  import opened ArenaModel

  // ---------------------------------------------------------------------------
  // Runs of operations

  /** One call on the allocator. A call that ends the process (AlignFault)
      leaves the fields as they were. */
  datatype Op = Alloc(size: nat) | Free(ptr: nat, osize: nat) | Realloc(ptr: nat, osize: nat, nsize: nat) | Reset

  function Apply(p: Pool, op: Op): Pool
  {
    match op
    case Alloc(s) => AllocateStep(p, s).0
    case Free(a, s) => DeallocateStep(p, a, s).0
    case Realloc(a, o, n) => ReallocateStep(p, a, o, n).0
    case Reset => ResetStep(p)
  }

  function Run(p: Pool, ops: seq<Op>): Pool
    decreases |ops|
  {
    if ops == [] then p else Run(Apply(p, ops[0]), ops[1..])
  }

  /** The state after n identical requests of size bytes. */
  function Repeat(p: Pool, size: nat, n: nat): Pool
  {
    if n == 0 then p else AllocateStep(Repeat(p, size, n - 1), size).0
  }

  /** A single call never moves the buffer and never gives pool_size back:
      the padding std::align takes is gone for good, reset_pool included. */
  lemma ApplyKeepsBuffer(p: Pool, op: Op)
    ensures Apply(p, op).begin == p.begin && Apply(p, op).end == p.end
    ensures Apply(p, op).poolSize <= p.poolSize
    ensures !op.Reset? ==> p.curr <= Apply(p, op).curr
  {
    match op
    case Alloc(s) =>
    case Free(a, s) =>
      assert DeallocateStep(p, a, s).0.(freeList := p.freeList) == p;
    case Realloc(a, o, n) =>
      var q := AllocateStep(p, n).0;
      assert DeallocateStep(q, a, o).0.(freeList := q.freeList) == q;
    case Reset =>
  }

  /** Over any run: the buffer stays where it is and pool_size never grows. */
  lemma {:induction false} RunKeepsBuffer(p: Pool, ops: seq<Op>)
    ensures Run(p, ops).begin == p.begin && Run(p, ops).end == p.end
    ensures Run(p, ops).poolSize <= p.poolSize
    decreases |ops|
  {
    if ops != [] {
      ApplyKeepsBuffer(p, ops[0]);
      RunKeepsBuffer(Apply(p, ops[0]), ops[1..]);
    }
  }

  /** Without reset_pool the bump cursor never moves back, whatever mix of
      allocations, frees and reallocations the run holds. */
  lemma {:induction false} CursorNeverDecreases(p: Pool, ops: seq<Op>)
    requires forall i :: 0 <= i < |ops| ==> !ops[i].Reset?
    ensures p.curr <= Run(p, ops).curr
    decreases |ops|
  {
    if ops != [] {
      ApplyKeepsBuffer(p, ops[0]);
      CursorNeverDecreases(Apply(p, ops[0]), ops[1..]);
    }
  }

  /** Routing by provenance is fixed by the buffer alone: after any run, a
      pointer is forwarded to the global allocator exactly when it lies
      outside [begin, end] of the allocator as first built. */
  lemma RoutingIsStable(p: Pool, ops: seq<Op>, ptr: nat, osize: nat)
    ensures DeallocateStep(Run(p, ops), ptr, osize).1 == Forwarded <==> !(p.begin <= ptr <= p.end)
    ensures InArena(p, ptr) ==>
      DeallocateStep(Run(p, ops), ptr, osize).1 == (if osize <= MIN_BLOCK_SIZE then Pushed else Burned)
  {
    RunKeepsBuffer(p, ops);
  }

  // ---------------------------------------------------------------------------
  // Single operations

  /** The recycling path: a request that rounds to the minimum size takes the
      head of a non-empty free list and leaves the cursor and pool_size alone. */
  lemma PopTakesHead(p: Pool, sizeBytes: nat)
    requires sizeBytes <= MIN_BLOCK_SIZE && p.freeList != []
    ensures AllocateStep(p, sizeBytes).1 == Recycled(p.freeList[0])
    ensures AllocateStep(p, sizeBytes).0 == p.(freeList := p.freeList[1..])
  {
    assert SizeToAllocate(sizeBytes) == MIN_BLOCK_SIZE;
  }

  /** LIFO recycling: freeing a minimum-size arena block and then asking for
      a block of at most the minimum size hands the same block back and
      restores every field, the cursor included. */
  lemma LifoRecycling(p: Pool, ptr: nat, s: nat, t: nat)
    requires InArena(p, ptr) && s <= MIN_BLOCK_SIZE && t <= MIN_BLOCK_SIZE
    ensures DeallocateStep(p, ptr, s).1 == Pushed
    ensures AllocateStep(DeallocateStep(p, ptr, s).0, t) == (p, Recycled(ptr))
  {
    var q := DeallocateStep(p, ptr, s).0;
    assert q == p.(freeList := [ptr] + p.freeList);
    PopTakesHead(q, t);
    assert q.freeList[1..] == p.freeList;
  }

  /** Freeing never changes the cursor or pool_size; freeing an arena block
      above the minimum size, or a heap block, changes no field at all. */
  lemma DeallocateRoutes(p: Pool, ptr: nat, osize: nat)
    ensures DeallocateStep(p, ptr, osize).0.curr == p.curr
    ensures DeallocateStep(p, ptr, osize).0.poolSize == p.poolSize
    ensures InArena(p, ptr) && osize <= MIN_BLOCK_SIZE ==>
      DeallocateStep(p, ptr, osize) == (p.(freeList := [ptr] + p.freeList), Pushed)
    ensures InArena(p, ptr) && osize > MIN_BLOCK_SIZE ==> DeallocateStep(p, ptr, osize) == (p, Burned)
    ensures !InArena(p, ptr) ==> DeallocateStep(p, ptr, osize) == (p, Forwarded)
  {
    assert DeallocateStep(p, ptr, osize).0.(freeList := p.freeList) == p;
  }

  /** The bump path. std::align moves the cursor to the first multiple of 8
      at or after it (at most 7 bytes on), pool_size drops by exactly those
      bytes, the block starts there and the cursor ends just past it, whether
      the block is kept or the request goes to the global allocator with its
      unrounded size. The block is kept exactly when it ends at or before end. */
  lemma BumpPath(p: Pool, sizeBytes: nat)
    requires !(SizeToAllocate(sizeBytes) == MIN_BLOCK_SIZE && p.freeList != [])
    requires AllocateStep(p, sizeBytes).1 != AlignFault
    ensures var (q, src) := AllocateStep(p, sizeBytes);
      var ptr := q.curr - SizeToAllocate(sizeBytes);
      && ptr % ALIGNMENT == 0 && p.curr <= ptr < p.curr + ALIGNMENT
      && (forall a :: p.curr <= a < ptr ==> a % ALIGNMENT != 0)
      && q.poolSize == p.poolSize - (ptr - p.curr)
      && q.freeList == p.freeList
      && (src == Bumped(ptr) <==> ptr + SizeToAllocate(sizeBytes) <= p.end)
      && (src != Bumped(ptr) ==> src == Fallback(sizeBytes))
  {
    var (q, src) := AllocateStep(p, sizeBytes);
    var ptr := q.curr - SizeToAllocate(sizeBytes);
    forall a | p.curr <= a < ptr
      ensures a % ALIGNMENT != 0
    {
      if a % ALIGNMENT == 0 {
        NoMultipleBeforePadding(p.curr, ALIGNMENT, a);
      }
    }
  }

  /** std::align gives up, and the process exits, exactly when the bump path
      is taken and pool_size cannot hold the padding plus sizeof(Thing). */
  lemma AlignFaultExactly(p: Pool, sizeBytes: nat)
    ensures AllocateStep(p, sizeBytes).1 == AlignFault <==>
      && !(SizeToAllocate(sizeBytes) == MIN_BLOCK_SIZE && p.freeList != [])
      && p.poolSize < Padding(p.curr, ALIGNMENT) + THING_SIZE
    ensures AllocateStep(p, sizeBytes).1 == AlignFault ==> AllocateStep(p, sizeBytes).0 == p
  {
    PaddingReachesMultiple(p.curr, ALIGNMENT);
  }

  // ---------------------------------------------------------------------------
  // Exhaustion

  /** An 8-aligned buffer of exactly k minimum blocks, filled with requests of
      at most the minimum size: the first k - 1 are carved one after another
      from begin; the k-th, whose block would end exactly one past the last
      byte, fails the check curr <= end and goes to the global allocator, and
      so does every request after it, each moving the cursor 64 bytes on. */
  lemma {:induction false} FillUp(b: nat, k: nat, size: nat, i: nat)
    requires 0 < b && b % ALIGNMENT == 0 && 1 <= k && b + MIN_BLOCK_SIZE * k - 1 < ADDRESS_LIMIT
    requires size <= MIN_BLOCK_SIZE
    ensures Repeat(Construct(b, b + MIN_BLOCK_SIZE * k - 1), size, i)
      == Pool(b, b + MIN_BLOCK_SIZE * k - 1, b + MIN_BLOCK_SIZE * i, MIN_BLOCK_SIZE * k, [])
    ensures AllocateStep(Repeat(Construct(b, b + MIN_BLOCK_SIZE * k - 1), size, i), size).1
      == if i + 1 < k then Bumped(b + MIN_BLOCK_SIZE * i) else Fallback(size)
  {
    var e := b + MIN_BLOCK_SIZE * k - 1;
    if i > 0 {
      FillUp(b, k, size, i - 1);
      FillStep(b, k, size, i - 1);
      assert b + MIN_BLOCK_SIZE * (i - 1) + MIN_BLOCK_SIZE == b + MIN_BLOCK_SIZE * i;
    }
    FillStep(b, k, size, i);
  }

  /** One request in the buffer of FillUp once i blocks' worth of cursor has
      gone by: std::align pads nothing, the cursor moves one minimum block on,
      and the block is kept exactly while i + 1 < k. */
  lemma FillStep(b: nat, k: nat, size: nat, i: nat)
    requires 0 < b && b % ALIGNMENT == 0 && 1 <= k && size <= MIN_BLOCK_SIZE
    ensures var e := b + MIN_BLOCK_SIZE * k - 1;
      var c := b + MIN_BLOCK_SIZE * i;
      AllocateStep(Pool(b, e, c, MIN_BLOCK_SIZE * k, []), size)
        == (Pool(b, e, c + MIN_BLOCK_SIZE, MIN_BLOCK_SIZE * k, []),
            if i + 1 < k then Bumped(c) else Fallback(size))
  {
    var c := b + MIN_BLOCK_SIZE * i;
    var q := b / ALIGNMENT;
    assert b == ALIGNMENT * q;
    DivModUnique(c, ALIGNMENT, q + 8 * i, 0);
    assert Padding(c, ALIGNMENT) == 0;
    assert StdAlign(ALIGNMENT, THING_SIZE, c, MIN_BLOCK_SIZE * k) == Aligned(c, MIN_BLOCK_SIZE * k);
    assert c + MIN_BLOCK_SIZE <= b + MIN_BLOCK_SIZE * k - 1 <==> i + 1 < k by {
      assert MIN_BLOCK_SIZE * k - MIN_BLOCK_SIZE * i == MIN_BLOCK_SIZE * (k - i);
    }
  }

  /** A 128-byte arena fits one 64-byte block, not two: the first request
      of 8 bytes is carved at begin, and the second and every one after it,
      while nothing is freed, goes to the global allocator, leaving the
      cursor past end. */
  lemma TwoBlockArena(b: nat, e: nat)
    requires 0 < b && b % ALIGNMENT == 0 && e == b + 127 && e < ADDRESS_LIMIT
    ensures AllocateStep(Construct(b, e), 8).1 == Bumped(b)
    ensures forall i: nat :: i >= 1 ==> AllocateStep(Repeat(Construct(b, e), 8, i), 8).1 == Fallback(8)
    ensures forall i: nat :: i >= 2 ==> Repeat(Construct(b, e), 8, i).curr > e
  {
    FillUp(b, 2, 8, 0);
    forall i: nat | i >= 1
      ensures AllocateStep(Repeat(Construct(b, e), 8, i), 8).1 == Fallback(8)
      ensures i >= 2 ==> Repeat(Construct(b, e), 8, i).curr > e
    {
      FillUp(b, 2, 8, i);
    }
  }

  /** pool_size is never restored, so padding can use it up: on the 16-byte
      buffer [8, 23], three requests of 65 bytes fall back twice (leaving the
      cursor past end + 1) and the third makes std::align fail, so the process
      exits, although the buffer was never used for a single block. */
  lemma AlignFaultReachable()
    ensures AllocateStep(Construct(8, 23), 65).1 == Fallback(65)
    ensures AllocateStep(Repeat(Construct(8, 23), 65, 1), 65).1 == Fallback(65)
    ensures Repeat(Construct(8, 23), 65, 2).curr > Construct(8, 23).end + 1
    ensures AllocateStep(Repeat(Construct(8, 23), 65, 2), 65).1 == AlignFault
  {
    var p0 := Construct(8, 23);
    assert Padding(8, ALIGNMENT) == 0;
    assert StdAlign(ALIGNMENT, THING_SIZE, 8, 16) == Aligned(8, 16);
    var p1 := Pool(8, 23, 73, 16, []);
    assert AllocateStep(p0, 65) == (p1, Fallback(65));
    assert Repeat(p0, 65, 1) == p1;
    assert Padding(73, ALIGNMENT) == 7;
    assert StdAlign(ALIGNMENT, THING_SIZE, 73, 16) == Aligned(80, 9);
    var p2 := Pool(8, 23, 145, 9, []);
    assert AllocateStep(p1, 65) == (p2, Fallback(65));
    assert Repeat(p0, 65, 2) == p2;
    assert Padding(145, ALIGNMENT) == 7;
    assert StdAlign(ALIGNMENT, THING_SIZE, 145, 9) == Misfit;
  }

  // ---------------------------------------------------------------------------
  // Request sequences

  /** A 4096-byte buffer: a 4-byte request gets a 64-byte block at begin; once
      freed, the next 4-byte request gets the same address back and the
      cursor stays where the first request left it. */
  lemma FreeThenAllocateReuses(b: nat)
    requires 0 < b && b % ALIGNMENT == 0 && b + 4095 < ADDRESS_LIMIT
    ensures AllocateStep(Construct(b, b + 4095), 4).1 == Bumped(b)
    ensures var p1 := AllocateStep(Construct(b, b + 4095), 4).0;
      && DeallocateStep(p1, b, 4).1 == Pushed
      && AllocateStep(DeallocateStep(p1, b, 4).0, 4) == (p1, Recycled(b))
      && p1.curr == b + MIN_BLOCK_SIZE
  {
    var p0 := Construct(b, b + 4095);
    assert Padding(b, ALIGNMENT) == 0;
    var p1 := AllocateStep(p0, 4).0;
    LifoRecycling(p1, b, 4, 4);
  }

  /** A 4096-byte buffer: two requests of 200 bytes get adjacent, disjoint,
      8-aligned blocks from begin and leave the cursor 400 bytes on. */
  lemma TwoLargeRequests(b: nat)
    requires 0 < b && b % ALIGNMENT == 0 && b + 4095 < ADDRESS_LIMIT
    ensures AllocateStep(Construct(b, b + 4095), 200).1 == Bumped(b)
    ensures AllocateStep(Repeat(Construct(b, b + 4095), 200, 1), 200).1 == Bumped(b + 200)
    ensures Repeat(Construct(b, b + 4095), 200, 2).curr == b + 400
    ensures Disjoint(b, 200, b + 200, 200) && (b + 200) % ALIGNMENT == 0
  {
    var p0 := Construct(b, b + 4095);
    assert Padding(b, ALIGNMENT) == 0;
    assert StdAlign(ALIGNMENT, THING_SIZE, b, 4096) == Aligned(b, 4096);
    var p1 := p0.(curr := b + 200);
    assert AllocateStep(p0, 200) == (p1, Bumped(b));
    assert Repeat(p0, 200, 1) == p1;
    assert Padding(b + 200, ALIGNMENT) == 0;
  }
}
