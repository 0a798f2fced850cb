/** The state of an AlignedArenaAllocator as a value, each of its operations
    as a function from the old state to the new one, and the layout invariant
    that the operations preserve: every block the arena has handed out, and
    every block on its free list, is 8-aligned, lies inside the buffer below
    the bump cursor, and overlaps no other. */
module ArenaModel {
  import opened Memory
  import opened Alignment

  /** Requests are rounded up to this size; it is the one recycled size class. */
  const MIN_BLOCK_SIZE: nat := 64

  /** The alignment passed to std::align (alignof(Thing)). */
  const ALIGNMENT: nat := 8

  /** The size passed to std::align (sizeof(Thing), two floats). */
  const THING_SIZE: nat := 8

  /** The size a request occupies: the request itself, but at least MIN_BLOCK_SIZE. */
  function SizeToAllocate(size: nat): (r: nat)
    ensures r >= size && r >= MIN_BLOCK_SIZE
    ensures r == size || r == MIN_BLOCK_SIZE
  {
    if size < MIN_BLOCK_SIZE then MIN_BLOCK_SIZE else size
  }

  /** The allocator's fields: the buffer [begin, end] (end is its last byte),
      the bump cursor, the pool_size that std::align is given as the space left,
      and the free list, head first. */
  datatype Pool = Pool(begin: nat, end: nat, curr: nat, poolSize: nat, freeList: seq<nat>)

  /** Pointer provenance: an address in [begin, end] belongs to the arena. */
  predicate InArena(p: Pool, a: nat)
  {
    p.begin <= a <= p.end
  }

  /** Where Allocate takes its block from. Fallback carries the size handed to
      the global allocator; AlignFault is the exit(EXIT_FAILURE) taken when
      std::align fails. */
  datatype Source = Recycled(ptr: nat) | Bumped(ptr: nat) | Fallback(size: nat) | AlignFault

  /** What DeAllocate does with a block. */
  datatype Route = Pushed | Burned | Forwarded

  function Construct(begin: nat, end: nat): (p: Pool)
    requires 0 < begin <= end < ADDRESS_LIMIT
    ensures Layout(p, map[])
    ensures p.poolSize == p.end - p.begin + 1
  {
    Pool(begin, end, begin, end - begin + 1, [])
  }

  /** reset_pool: the state of a freshly built arena on the same buffer,
      except that pool_size keeps whatever padding has already taken. */
  function ResetStep(p: Pool): (r: Pool)
    ensures 0 < p.begin <= p.end < ADDRESS_LIMIT ==>
      r == Construct(p.begin, p.end).(poolSize := p.poolSize) && Layout(r, map[])
  {
    p.(curr := p.begin, freeList := [])
  }

  /** One call of Allocate(sizeBytes): the new state and where the block comes from. */
  function AllocateStep(p: Pool, sizeBytes: nat): (r: (Pool, Source))
    ensures r.0.begin == p.begin && r.0.end == p.end
    ensures p.curr <= r.0.curr && r.0.poolSize <= p.poolSize
  {
    var bytes := SizeToAllocate(sizeBytes);
    if bytes == MIN_BLOCK_SIZE && p.freeList != [] then
      (p.(freeList := p.freeList[1..]), Recycled(p.freeList[0]))
    else
      match StdAlign(ALIGNMENT, THING_SIZE, p.curr, p.poolSize)
      case Misfit => (p, AlignFault)
      case Aligned(ptr, space) =>
        (p.(curr := ptr + bytes, poolSize := space),
         if ptr + bytes <= p.end then Bumped(ptr) else Fallback(sizeBytes))
  }

  function Min(a: nat, b: nat): nat
  {
    if a < b then a else b
  }

  /** One call of ReAllocate(ptr, osize, nsize): a fresh block for nsize, then
      DeAllocate of the old one, unless allocating ends the process. */
  function ReallocateStep(p: Pool, ptr: nat, osize: nat, nsize: nat): (r: (Pool, Source))
    ensures r.1 == AllocateStep(p, nsize).1
    ensures r.0.begin == p.begin && r.0.end == p.end
    ensures p.curr <= r.0.curr && r.0.poolSize <= p.poolSize
  {
    var (q, s) := AllocateStep(p, nsize);
    if s == AlignFault then (q, s) else (DeallocateStep(q, ptr, osize).0, s)
  }

  /** One call of DeAllocate(ptr, osize): the new state and the route taken. */
  function DeallocateStep(p: Pool, ptr: nat, osize: nat): (r: (Pool, Route))
    ensures r.1 == Forwarded <==> !InArena(p, ptr)
    ensures r.0.(freeList := p.freeList) == p
  {
    if InArena(p, ptr) then
      if SizeToAllocate(osize) == MIN_BLOCK_SIZE then
        (p.(freeList := [ptr] + p.freeList), Pushed)
      else
        (p, Burned)
    else
      (p, Forwarded)
  }

  // ---------------------------------------------------------------------------
  // Layout invariant

  ghost predicate Disjoint(a: nat, n: nat, b: nat, k: nat)
  {
    a + n <= b || b + k <= a
  }

  /** The block [a, a + n) was carved from the buffer by the bump path:
      8-aligned, at or after begin, below the cursor and below end. */
  ghost predicate Carved(p: Pool, a: nat, n: nat)
  {
    p.begin <= a && a % ALIGNMENT == 0 && a + n <= p.curr && a + n <= p.end
  }

  /** A live block at a is carved and has at least the minimum size. */
  ghost predicate Placed(p: Pool, live: map<nat, nat>, a: nat)
  {
    a in live ==> MIN_BLOCK_SIZE <= live[a] && Carved(p, a, live[a])
  }

  /** Live blocks at two different addresses do not overlap. */
  ghost predicate Apart(live: map<nat, nat>, a: nat, b: nat)
  {
    a in live && b in live && a != b ==> Disjoint(a, live[a], b, live[b])
  }

  /** The i-th free-list node, if there is one, is a live minimum-size block. */
  ghost predicate FreeNode(p: Pool, live: map<nat, nat>, i: nat)
  {
    i < |p.freeList| ==> p.freeList[i] in live && live[p.freeList[i]] == MIN_BLOCK_SIZE
  }

  /** Entries i < j of s, if there are such, differ. */
  ghost predicate Unrepeated(s: seq<nat>, i: nat, j: nat)
  {
    i < j < |s| ==> s[i] != s[j]
  }

  /** live maps each block carved from the buffer since the last reset and not
      given up since (in use by the caller, or waiting on the free list) to the
      bytes it occupies. Live blocks are carved and pairwise disjoint; the free
      list holds distinct live blocks of the minimum size. Each quantifier
      ranges over a named predicate, so a proof uses an instance only where it
      names it. */
  ghost predicate Layout(p: Pool, live: map<nat, nat>)
  {
    && 0 < p.begin <= p.end < ADDRESS_LIMIT
    && p.begin <= p.curr
    && (forall a :: Placed(p, live, a))
    && (forall a, b :: Apart(live, a, b))
    && (forall i :: FreeNode(p, live, i))
    && (forall i, j :: Unrepeated(p.freeList, i, j))
  }

  /** a is a block handed out to the caller and not yet given back. */
  ghost predicate Issued(p: Pool, live: map<nat, nat>, a: nat)
  {
    a in live && a !in p.freeList
  }

  /** Allocate keeps the layout. A recycled block stays live and leaves the
      free list; a bumped block is new, occupies SizeToAllocate(sizeBytes)
      bytes and overlaps no live block. Either way the block is then issued. */
  lemma AllocatePreservesLayout(p: Pool, live: map<nat, nat>, sizeBytes: nat)
    requires Layout(p, live)
    ensures var q := AllocateStep(p, sizeBytes).0;
      match AllocateStep(p, sizeBytes).1
      case Recycled(a) =>
        && !Issued(p, live, a) && Layout(q, live) && Issued(q, live, a)
        && live[a] == SizeToAllocate(sizeBytes) && Carved(q, a, MIN_BLOCK_SIZE)
      case Bumped(a) =>
        && a !in live && Layout(q, live[a := SizeToAllocate(sizeBytes)])
        && Issued(q, live[a := SizeToAllocate(sizeBytes)], a) && Carved(q, a, SizeToAllocate(sizeBytes))
      case Fallback(_) => Layout(q, live)
      case AlignFault => q == p
  {
    var (q, s) := AllocateStep(p, sizeBytes);
    match s
    case Recycled(a) =>
      PopPreservesLayout(p, live);
    case Bumped(a) =>
      var bytes := SizeToAllocate(sizeBytes);
      var p' := p.(curr := q.curr, poolSize := q.poolSize);
      AdvancePreservesLayout(p, live, q.curr, q.poolSize);
      forall b | b in live
        ensures b + live[b] <= a
      {
        assert Placed(p, live, b);
      }
      CarvePreservesLayout(p', live, a, bytes);
    case Fallback(_) =>
      AdvancePreservesLayout(p, live, q.curr, q.poolSize);
    case AlignFault =>
  }

  /** Taking the head off the free list issues it. */
  lemma PopPreservesLayout(p: Pool, live: map<nat, nat>)
    requires Layout(p, live) && p.freeList != []
    ensures Layout(p.(freeList := p.freeList[1..]), live)
    ensures Issued(p.(freeList := p.freeList[1..]), live, p.freeList[0])
    ensures live[p.freeList[0]] == MIN_BLOCK_SIZE && Carved(p, p.freeList[0], MIN_BLOCK_SIZE)
  {
    var q := p.(freeList := p.freeList[1..]);
    assert FreeNode(p, live, 0);
    assert Placed(p, live, p.freeList[0]);
    forall a
      ensures Placed(q, live, a)
    {
      assert Placed(p, live, a);
    }
    forall i: nat
      ensures FreeNode(q, live, i)
    {
      assert FreeNode(p, live, i + 1);
    }
    forall i: nat, j: nat
      ensures Unrepeated(q.freeList, i, j)
    {
      assert Unrepeated(p.freeList, i + 1, j + 1);
    }
    forall i | 0 <= i < |q.freeList|
      ensures q.freeList[i] != p.freeList[0]
    {
      assert Unrepeated(p.freeList, 0, i + 1);
    }
  }

  /** Moving the cursor forward keeps every carved block carved. */
  lemma AdvancePreservesLayout(p: Pool, live: map<nat, nat>, curr: nat, poolSize: nat)
    requires Layout(p, live) && p.curr <= curr
    ensures Layout(p.(curr := curr, poolSize := poolSize), live)
  {
    var q := p.(curr := curr, poolSize := poolSize);
    forall a
      ensures Placed(q, live, a)
    {
      assert Placed(p, live, a);
    }
    forall i: nat
      ensures FreeNode(q, live, i)
    {
      assert FreeNode(p, live, i);
    }
  }

  /** A fresh block that starts at or after every live block's end and ends
      at or before the cursor joins the live blocks. */
  lemma CarvePreservesLayout(p: Pool, live: map<nat, nat>, a: nat, bytes: nat)
    requires Layout(p, live) && MIN_BLOCK_SIZE <= bytes
    requires p.begin <= a && a + bytes <= p.curr && a + bytes <= p.end && a % ALIGNMENT == 0
    requires forall b :: b in live ==> b + live[b] <= a
    ensures a !in live && a !in p.freeList
    ensures Layout(p, live[a := bytes])
  {
    var live' := live[a := bytes];
    assert Placed(p, live, a);
    forall i | 0 <= i < |p.freeList|
      ensures p.freeList[i] != a
    {
      assert FreeNode(p, live, i);
    }
    forall b
      ensures Placed(p, live', b)
    {
      assert Placed(p, live, b);
    }
    forall b, c
      ensures Apart(live', b, c)
    {
      assert Apart(live, b, c);
    }
    forall i: nat
      ensures FreeNode(p, live', i)
    {
      assert FreeNode(p, live, i);
    }
  }

  /** DeAllocate keeps the layout, given what the source demands of its caller:
      an arena pointer is an issued block, passed with the size it was
      requested with. A pushed block stays live on the free list; a burned
      block is given up for good. Either way it is no longer issued. */
  lemma DeallocatePreservesLayout(p: Pool, live: map<nat, nat>, ptr: nat, osize: nat)
    requires Layout(p, live)
    requires InArena(p, ptr) ==> Issued(p, live, ptr) && live[ptr] == SizeToAllocate(osize)
    ensures var (q, route) := DeallocateStep(p, ptr, osize);
      var live' := if route == Burned then live - {ptr} else live;
      Layout(q, live') && !Issued(q, live', ptr)
  {
    var (q, route) := DeallocateStep(p, ptr, osize);
    match route
    case Pushed =>
      PushPreservesLayout(p, live, ptr);
    case Burned =>
      BurnPreservesLayout(p, live, ptr);
    case Forwarded =>
      assert Placed(p, live, ptr);
  }

  /** A freed minimum block becomes the head of the free list. */
  lemma PushPreservesLayout(p: Pool, live: map<nat, nat>, ptr: nat)
    requires Layout(p, live) && Issued(p, live, ptr) && live[ptr] == MIN_BLOCK_SIZE
    ensures Layout(p.(freeList := [ptr] + p.freeList), live)
  {
    var q := p.(freeList := [ptr] + p.freeList);
    forall a
      ensures Placed(q, live, a)
    {
      assert Placed(p, live, a);
    }
    forall i: nat
      ensures FreeNode(q, live, i)
    {
      if i > 0 {
        assert FreeNode(p, live, i - 1);
      }
    }
    forall i: nat, j: nat
      ensures Unrepeated(q.freeList, i, j)
    {
      if 0 < i < j < |q.freeList| {
        assert Unrepeated(p.freeList, i - 1, j - 1);
      }
    }
  }

  /** A freed block larger than the minimum leaves the live blocks for good. */
  lemma BurnPreservesLayout(p: Pool, live: map<nat, nat>, ptr: nat)
    requires Layout(p, live) && Issued(p, live, ptr)
    ensures Layout(p, live - {ptr})
  {
    var live' := live - {ptr};
    forall a
      ensures Placed(p, live', a)
    {
      assert Placed(p, live, a);
    }
    forall a, b
      ensures Apart(live', a, b)
    {
      assert Apart(live, a, b);
    }
    forall i: nat
      ensures FreeNode(p, live', i)
    {
      assert FreeNode(p, live, i);
    }
  }

  /** No free-list node's link word meets the first n bytes of an issued block. */
  lemma FreeWordsApart(p: Pool, live: map<nat, nat>, a: nat, n: nat)
    requires Layout(p, live) && Issued(p, live, a) && n <= live[a]
    ensures forall i :: 0 <= i < |p.freeList| ==> Disjoint(p.freeList[i], WORD_SIZE, a, n)
  {
    forall i | 0 <= i < |p.freeList|
      ensures Disjoint(p.freeList[i], WORD_SIZE, a, n)
    {
      assert FreeNode(p, live, i);
      assert Apart(live, p.freeList[i], a);
    }
  }

  /** ReAllocate keeps the invariant: the fresh block joins the blocks in use
      when it was carved, and the old block leaves them when it was given up
      for good; the old block is no longer handed out. */
  lemma ReallocatePreservesLayout(p: Pool, live: map<nat, nat>, ptr: nat, osize: nat, nsize: nat)
    requires Layout(p, live)
    requires InArena(p, ptr) ==> Issued(p, live, ptr) && live[ptr] == SizeToAllocate(osize)
    ensures var (q, src) := ReallocateStep(p, ptr, osize, nsize);
      var grown := if src.Bumped? then live[src.ptr := SizeToAllocate(nsize)] else live;
      var kept := if src != AlignFault && InArena(p, ptr) && SizeToAllocate(osize) != MIN_BLOCK_SIZE
        then grown - {ptr} else grown;
      Layout(q, kept) && (src != AlignFault ==> !Issued(q, kept, ptr))
  {
    var (p1, src) := AllocateStep(p, nsize);
    AllocatePreservesLayout(p, live, nsize);
    if src != AlignFault {
      var grown := if src.Bumped? then live[src.ptr := SizeToAllocate(nsize)] else live;
      if InArena(p, ptr) {
        assert ptr in live && ptr !in p.freeList;
        assert p1.freeList == p.freeList || p1.freeList == p.freeList[1..];
      }
      DeallocatePreservesLayout(p1, grown, ptr, osize);
    }
  }

  // ---------------------------------------------------------------------------
  // The intrusive free list in memory

  /** The list that starts at head and follows the link word stored in each
      freed block is exactly nodes, ending in NULL. */
  ghost predicate FreeChain(m: Mem, head: nat, nodes: seq<nat>)
    decreases |nodes|
  {
    if nodes == [] then head == NULL
    else head == nodes[0] && FreeChain(m, LoadWord(m, nodes[0]), nodes[1..])
  }

  /** A write to [lo, lo + n) that misses every node's link word keeps the chain. */
  lemma {:induction false} FreeChainFrame(m: Mem, m': Mem, head: nat, nodes: seq<nat>, lo: nat, n: nat)
    requires FreeChain(m, head, nodes)
    requires forall k: nat :: !(lo <= k < lo + n) ==> ByteAt(m', k) == ByteAt(m, k)
    requires forall i :: 0 <= i < |nodes| ==> Disjoint(nodes[i], WORD_SIZE, lo, n)
    ensures FreeChain(m', head, nodes)
    decreases |nodes|
  {
    if nodes != [] {
      LoadWordFrame(m, m', nodes[0], lo, n);
      FreeChainFrame(m, m', LoadWord(m, nodes[0]), nodes[1..], lo, n);
    }
  }

  /** Pushing a block: writing the old head into the block's first word and
      making the block the head yields the old list with the block in front. */
  lemma PushKeepsChain(m: Mem, head: nat, nodes: seq<nat>, ptr: nat)
    requires FreeChain(m, head, nodes) && head < ADDRESS_LIMIT
    requires forall i :: 0 <= i < |nodes| ==> Disjoint(nodes[i], WORD_SIZE, ptr, WORD_SIZE)
    ensures FreeChain(StoreWord(m, ptr, head), ptr, [ptr] + nodes)
  {
    var m' := StoreWord(m, ptr, head);
    LoadStoreWord(m, ptr, head);
    FreeChainFrame(m, m', head, nodes, ptr, WORD_SIZE);
    assert ([ptr] + nodes)[1..] == nodes;
  }

  /** The whole recycling path of DeAllocate on the model: the step pushes
      ptr, the layout and the chain through memory survive it, ptr stops being
      issued and every other issued block stays issued. */
  lemma PushStep(p: Pool, live: map<nat, nat>, m: Mem, head: nat, ptr: nat, osize: nat)
    requires Layout(p, live) && FreeChain(m, head, p.freeList) && head < ADDRESS_LIMIT
    requires InArena(p, ptr) && Issued(p, live, ptr) && live[ptr] == SizeToAllocate(osize)
    requires SizeToAllocate(osize) == MIN_BLOCK_SIZE
    ensures DeallocateStep(p, ptr, osize) == (p.(freeList := [ptr] + p.freeList), Pushed)
    ensures Layout(p.(freeList := [ptr] + p.freeList), live)
    ensures FreeChain(StoreWord(m, ptr, head), ptr, [ptr] + p.freeList)
    ensures !Issued(p.(freeList := [ptr] + p.freeList), live, ptr)
    ensures forall a :: a != ptr && Issued(p, live, a) ==> Issued(p.(freeList := [ptr] + p.freeList), live, a)
  {
    PushPreservesLayout(p, live, ptr);
    FreeWordsApart(p, live, ptr, WORD_SIZE);
    PushKeepsChain(m, head, p.freeList, ptr);
  }

  /** Free-list nodes lie in the buffer, so none is NULL, and the head is
      NULL exactly when the list is empty. */
  lemma ChainHeadNull(p: Pool, live: map<nat, nat>, m: Mem, head: nat)
    requires Layout(p, live) && FreeChain(m, head, p.freeList)
    ensures head == NULL <==> p.freeList == []
  {
    if p.freeList != [] {
      assert FreeNode(p, live, 0);
      assert Placed(p, live, p.freeList[0]);
    }
  }

}
