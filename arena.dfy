/** AlignedArenaAllocator, the GlobalAllocator it falls back on, and the
    l_alloc callback through which the interpreter calls it. Each method is
    proved against the step function of ArenaModel that gives its new state. */
module Arena {
  import opened Memory
  import opened Alignment
  import opened ArenaModel

  /** What an allocation hands back: a pointer, or the end of the process
      through exit(EXIT_FAILURE) when std::align fails. */
  datatype Reply = Ptr(addr: nat) | ExitFailure

  /** GlobalAllocator forwards to ::operator new with 8-byte alignment and to
      ::operator delete. The process heap behind them is modelled by its
      observable promises: every block is 8-aligned, starts at or above floor
      (the arena lies below floor) and overlaps no block still in use. Blocks
      are handed out upwards from top and addresses are never reused. */
  class GlobalAllocator {
    const floor: nat
    var top: nat
    /** Heap blocks in use: address to requested size. */
    var blocks: map<nat, nat>

    ghost predicate Valid()
      reads this
    {
      && floor <= top && top % ALIGNMENT == 0
      && (forall a :: a in blocks ==> floor <= a < top && a % ALIGNMENT == 0 && a + blocks[a] <= top)
      && (forall a, b :: a in blocks && b in blocks && a != b ==> Disjoint(a, blocks[a], b, blocks[b]))
    }

    constructor (floor: nat)
      ensures Valid() && this.floor == floor && blocks == map[]
    {
      this.floor := floor;
      PaddingReachesMultiple(floor, ALIGNMENT);
      top := floor + Padding(floor, ALIGNMENT);
      blocks := map[];
    }

    /** ::operator new(sizeBytes, std::align_val_t(8)). */
    method Allocate(sizeBytes: nat) returns (r: nat)
      requires Valid()
      modifies this
      ensures Valid()
      ensures floor <= r && r % ALIGNMENT == 0 && r !in old(blocks)
      ensures forall a :: a in old(blocks) ==> Disjoint(a, old(blocks)[a], r, sizeBytes)
      ensures blocks == old(blocks)[r := sizeBytes]
    {
      r := top;
      top := top + ALIGNMENT * (sizeBytes / ALIGNMENT + 1);
      blocks := blocks[r := sizeBytes];
    }

    /** ::operator delete(ptr); the size is not used. */
    method DeAllocate(ptr: nat, size: nat)
      requires Valid() && ptr in blocks
      modifies this
      ensures Valid()
      ensures blocks == old(blocks) - {ptr} && top == old(top)
    {
      blocks := blocks - {ptr};
    }
  }

  /** The arena: a caller-supplied buffer [begin, end] carved by a bump cursor,
      with an intrusive LIFO free list of minimum-size blocks, falling back on
      the global allocator. */
  class AlignedArenaAllocator {
    const begin: nat
    const end: nat
    var curr: nat
    var poolSize: nat
    /** The free-list head; the rest of the list is linked through memory. */
    var freeListHead: nat
    /** The bytes of memory the allocator reads and writes: the arena buffer and the heap blocks. */
    var mem: Mem
    const heap: GlobalAllocator

    /** The free list, head first, as the chain of link words in mem spells it. */
    ghost var freeList: seq<nat>
    /** The arena blocks carved since the last reset and not given up: those
        handed out and those on the free list, with the bytes each occupies. */
    ghost var live: map<nat, nat>

    ghost function View(): Pool
      reads this
    {
      Pool(begin, end, curr, poolSize, freeList)
    }

    /** The buffer is a real, non-null range of 64-bit addresses below the heap. */
    ghost predicate Bounded()
      reads this, heap
    {
      0 < begin <= end < ADDRESS_LIMIT && heap.Valid() && end < heap.floor
    }

    ghost predicate Valid()
      reads this, heap
    {
      && Bounded()
      && Layout(View(), live)
      && FreeChain(mem, freeListHead, freeList)
      && freeListHead < ADDRESS_LIMIT
    }

    /** ptr is a block this allocator handed out and has not taken back, and
        size is the size it was requested with. */
    ghost predicate IsBlock(ptr: nat, size: nat)
      reads this, heap
    {
      if begin <= ptr <= end then Issued(View(), live, ptr) && live[ptr] == SizeToAllocate(size)
      else ptr in heap.blocks && heap.blocks[ptr] == size
    }

    constructor (begin: nat, end: nat)
      requires 0 < begin <= end < ADDRESS_LIMIT
      ensures Valid() && fresh(heap)
      ensures View() == Construct(begin, end) && live == map[] && heap.blocks == map[]
    {
      this.begin := begin;
      this.end := end;
      poolSize := end - begin + 1;
      heap := new GlobalAllocator(end + 1);
      mem := map[];
      new;
      ResetPool();
    }

    /** reset_pool: rewind the cursor and empty the free list. Every block
        handed out before is taken back; pool_size is left as it is. */
    method ResetPool()
      requires Bounded()
      modifies this
      ensures Valid()
      ensures View() == ResetStep(old(View())) && live == map[]
      ensures mem == old(mem)
    {
      curr := begin;
      freeListHead := NULL;
      freeList := [];
      live := map[];
    }

    /** Allocate: a recycled free-list node for a request that rounds to the
        minimum block size, else the next 8-aligned block carved by the bump
        cursor, else (when that block would pass end) a block of the global
        allocator; exit(EXIT_FAILURE) when std::align fails. */
    method Allocate(sizeBytes: nat) returns (r: Reply)
      requires Valid()
      modifies this, heap
      ensures Valid()
      ensures View() == AllocateStep(old(View()), sizeBytes).0
      ensures mem == old(mem)
      ensures match AllocateStep(old(View()), sizeBytes).1
        case Recycled(a) => r == Ptr(a) && live == old(live) && unchanged(heap)
        case Bumped(a) =>
          r == Ptr(a) && live == old(live)[a := SizeToAllocate(sizeBytes)] && unchanged(heap)
        case Fallback(n) =>
          && r.Ptr? && end < r.addr && live == old(live)
          && heap.blocks == old(heap.blocks)[r.addr := n]
          && forall a :: a in old(heap.blocks) ==> Disjoint(a, old(heap.blocks)[a], r.addr, n)
        case AlignFault => r == ExitFailure && live == old(live) && unchanged(heap)
      ensures r.Ptr? ==> r.addr != NULL && r.addr % ALIGNMENT == 0 && IsBlock(r.addr, sizeBytes)
      ensures r.Ptr? ==> forall a, n :: old(IsBlock(a, n)) ==> Disjoint(a, n, r.addr, sizeBytes)
      ensures r.Ptr? ==> !Issued(old(View()), old(live), r.addr) && r.addr !in old(heap.blocks)
      ensures forall a, n :: old(IsBlock(a, n)) ==> IsBlock(a, n)
      ensures forall a, n :: IsBlock(a, n) ==> (r.Ptr? && a == r.addr) || old(IsBlock(a, n))
      ensures r == ExitFailure ==> unchanged(this, heap)
    {
      var allocateBytes := SizeToAllocate(sizeBytes);
      if allocateBytes == MIN_BLOCK_SIZE && freeListHead != NULL {
        var ptr := PopFreeList(sizeBytes);
        r := Ptr(ptr);
      } else {
        r := BumpAllocate(sizeBytes);
      }
    }

    /** The recycling path of Allocate: the head of the free list is unlinked
        and handed out. */
    method PopFreeList(sizeBytes: nat) returns (ptr: nat)
      requires Valid() && SizeToAllocate(sizeBytes) == MIN_BLOCK_SIZE && freeListHead != NULL
      modifies this
      ensures Valid()
      ensures AllocateStep(old(View()), sizeBytes) == (View(), Recycled(ptr))
      ensures live == old(live) && mem == old(mem)
      ensures Issued(View(), live, ptr) && !Issued(old(View()), old(live), ptr)
      ensures begin <= ptr <= end && ptr != NULL && ptr % ALIGNMENT == 0 && live[ptr] == MIN_BLOCK_SIZE
      ensures forall a, n :: old(IsBlock(a, n)) ==> Disjoint(a, n, ptr, sizeBytes)
      ensures forall a, n :: old(IsBlock(a, n)) ==> IsBlock(a, n)
      ensures forall a, n :: IsBlock(a, n) ==> a == ptr || old(IsBlock(a, n))
    {
      ChainHeadNull(View(), live, mem, freeListHead);
      PopPreservesLayout(View(), live);
      HeadIsApart(sizeBytes);
      ptr := freeListHead;
      freeListHead := LoadWord(mem, ptr);
      freeList := freeList[1..];
    }

    /** The head of the free list overlaps no block in use. */
    lemma HeadIsApart(sizeBytes: nat)
      requires Valid() && freeList != [] && sizeBytes <= MIN_BLOCK_SIZE
      ensures forall a, n :: IsBlock(a, n) ==> Disjoint(a, n, freeList[0], sizeBytes)
    {
      var h := freeList[0];
      assert FreeNode(View(), live, 0);
      assert Placed(View(), live, h);
      forall a: nat, n: nat | IsBlock(a, n)
        ensures Disjoint(a, n, h, sizeBytes)
      {
        if begin <= a <= end {
          assert Apart(live, a, h);
        }
      }
    }

    /** Every arena block in use ends at or before the cursor and before end. */
    lemma BlocksBelowCursor()
      requires Valid()
      ensures forall a: nat, n: nat :: IsBlock(a, n) && begin <= a <= end ==> a + n <= curr && a + n <= end
    {
      forall a: nat, n: nat | IsBlock(a, n) && begin <= a <= end
        ensures a + n <= curr && a + n <= end
      {
        assert Placed(View(), live, a);
      }
    }

    /** The bump path of Allocate: align the cursor with std::align, carve the
        block there and, when it would pass end, hand the request to the global
        allocator instead. */
    method BumpAllocate(sizeBytes: nat) returns (r: Reply)
      requires Valid() && !(SizeToAllocate(sizeBytes) == MIN_BLOCK_SIZE && freeListHead != NULL)
      modifies this, heap
      ensures Valid()
      ensures View() == AllocateStep(old(View()), sizeBytes).0
      ensures mem == old(mem)
      ensures match AllocateStep(old(View()), sizeBytes).1
        case Recycled(a) => false
        case Bumped(a) =>
          && r == Ptr(a) && live == old(live)[a := SizeToAllocate(sizeBytes)] && unchanged(heap)
          && a !in old(live) && Issued(View(), live, a) && begin <= a <= end && a != NULL && a % ALIGNMENT == 0
        case Fallback(n) =>
          && r.Ptr? && end < r.addr && r.addr % ALIGNMENT == 0 && live == old(live)
          && heap.blocks == old(heap.blocks)[r.addr := n] && r.addr !in old(heap.blocks)
          && forall a :: a in old(heap.blocks) ==> Disjoint(a, old(heap.blocks)[a], r.addr, n)
        case AlignFault => r == ExitFailure && live == old(live) && unchanged(heap)
      ensures r.Ptr? ==> !Issued(old(View()), old(live), r.addr) && r.addr !in old(heap.blocks)
      ensures r.Ptr? ==> forall a, n :: old(IsBlock(a, n)) ==> Disjoint(a, n, r.addr, sizeBytes)
      ensures forall a, n :: old(IsBlock(a, n)) ==> IsBlock(a, n)
      ensures forall a, n :: IsBlock(a, n) ==> (r.Ptr? && a == r.addr) || old(IsBlock(a, n))
      ensures r == ExitFailure ==> unchanged(this, heap)
    {
      ChainHeadNull(View(), live, mem, freeListHead);
      var allocateBytes := SizeToAllocate(sizeBytes);
      var aligned := StdAlign(ALIGNMENT, THING_SIZE, curr, poolSize);
      if aligned.Misfit? {
        return ExitFailure;
      }
      var ptr := aligned.ptr;
      if ptr + allocateBytes <= end {
        CarveBlock(sizeBytes, ptr, aligned.space);
        r := Ptr(ptr);
      } else {
        var a := ServeFromHeap(sizeBytes, ptr, aligned.space);
        r := Ptr(a);
      }
    }

    /** The bump path when the block fits: the cursor moves past it and the
        block is handed out. */
    method CarveBlock(sizeBytes: nat, ptr: nat, space: nat)
      requires Valid() && !(SizeToAllocate(sizeBytes) == MIN_BLOCK_SIZE && freeList != [])
      requires AllocateStep(View(), sizeBytes)
        == (View().(curr := ptr + SizeToAllocate(sizeBytes), poolSize := space), Bumped(ptr))
      modifies this
      ensures Valid()
      ensures View() == AllocateStep(old(View()), sizeBytes).0
      ensures mem == old(mem) && live == old(live)[ptr := SizeToAllocate(sizeBytes)]
      ensures ptr !in old(live) && Issued(View(), live, ptr) && begin <= ptr <= end
      ensures ptr != NULL && ptr % ALIGNMENT == 0 && ptr !in heap.blocks
      ensures forall a, n :: old(IsBlock(a, n)) ==> Disjoint(a, n, ptr, sizeBytes)
      ensures forall a, n :: IsBlock(a, n) ==> a == ptr || old(IsBlock(a, n))
    {
      AllocatePreservesLayout(View(), live, sizeBytes);
      BlocksBelowCursor();
      curr, poolSize := ptr + SizeToAllocate(sizeBytes), space;
      live := live[ptr := SizeToAllocate(sizeBytes)];
    }

    /** The bump path when the block would pass end: the cursor still moves,
        and the global allocator serves the unrounded request. */
    method ServeFromHeap(sizeBytes: nat, ptr: nat, space: nat) returns (a: nat)
      requires Valid() && !(SizeToAllocate(sizeBytes) == MIN_BLOCK_SIZE && freeList != [])
      requires AllocateStep(View(), sizeBytes)
        == (View().(curr := ptr + SizeToAllocate(sizeBytes), poolSize := space), Fallback(sizeBytes))
      modifies this, heap
      ensures Valid()
      ensures View() == AllocateStep(old(View()), sizeBytes).0
      ensures mem == old(mem) && live == old(live)
      ensures end < a && a % ALIGNMENT == 0 && a !in old(heap.blocks) && !Issued(old(View()), old(live), a)
      ensures heap.blocks == old(heap.blocks)[a := sizeBytes]
      ensures forall b :: b in old(heap.blocks) ==> Disjoint(b, old(heap.blocks)[b], a, sizeBytes)
      ensures forall b, n :: old(IsBlock(b, n)) ==> Disjoint(b, n, a, sizeBytes)
      ensures forall b, n :: IsBlock(b, n) ==> b == a || old(IsBlock(b, n))
    {
      AllocatePreservesLayout(View(), live, sizeBytes);
      BlocksBelowCursor();
      curr, poolSize := ptr + SizeToAllocate(sizeBytes), space;
      a := heap.Allocate(sizeBytes);
      assert Placed(View(), live, a);
    }

    /** DeAllocate: an arena block of the minimum size is pushed on the free
        list by writing the old head into its first word; a larger arena block
        is given up for good; any other pointer goes to the global allocator. */
    method DeAllocate(ptr: nat, osize: nat)
      requires Valid() && IsBlock(ptr, osize)
      modifies this, heap
      ensures Valid()
      ensures View() == DeallocateStep(old(View()), ptr, osize).0
      ensures !IsBlock(ptr, osize)
      ensures forall a :: a != ptr && Issued(old(View()), old(live), a) ==> Issued(View(), live, a) && live[a] == old(live)[a]
      ensures forall a :: a != ptr && a in old(heap.blocks) ==> a in heap.blocks && heap.blocks[a] == old(heap.blocks)[a]
      ensures forall a, n :: a != ptr && old(IsBlock(a, n)) ==> IsBlock(a, n)
      ensures forall a, n :: IsBlock(a, n) ==> a != ptr && old(IsBlock(a, n))
      ensures forall k: nat :: !(begin <= ptr <= end && ptr <= k < ptr + WORD_SIZE) ==> ByteAt(mem, k) == old(ByteAt(mem, k))
      ensures match DeallocateStep(old(View()), ptr, osize).1
        case Pushed =>
          && mem == StoreWord(old(mem), ptr, old(freeListHead)) && freeListHead == ptr
          && live == old(live) && unchanged(heap)
        case Burned =>
          && mem == old(mem) && freeListHead == old(freeListHead)
          && live == old(live) - {ptr} && unchanged(heap)
        case Forwarded =>
          && mem == old(mem) && freeListHead == old(freeListHead) && live == old(live)
          && heap.blocks == old(heap.blocks) - {ptr} && heap.top == old(heap.top)
    {
      if begin <= ptr && ptr <= end {
        ReleaseArenaBlock(ptr, osize);
      } else {
        ReleaseHeapBlock(ptr, osize);
      }
    }

    /** The heap route of DeAllocate: the block goes back to the global
        allocator and nothing else leaves or enters use. */
    method ReleaseHeapBlock(ptr: nat, osize: nat)
      requires Valid() && IsBlock(ptr, osize) && !(begin <= ptr <= end)
      modifies heap
      ensures Valid()
      ensures heap.blocks == old(heap.blocks) - {ptr} && heap.top == old(heap.top)
      ensures !IsBlock(ptr, osize)
      ensures forall a, n :: a != ptr && old(IsBlock(a, n)) ==> IsBlock(a, n)
      ensures forall a, n :: IsBlock(a, n) ==> a != ptr && old(IsBlock(a, n))
    {
      heap.DeAllocate(ptr, osize);
    }

    /** The arena route of DeAllocate: a minimum-size block is pushed, a
        larger one is given up; only the pushed block's first word changes. */
    method ReleaseArenaBlock(ptr: nat, osize: nat)
      requires Valid() && IsBlock(ptr, osize) && begin <= ptr <= end
      modifies this
      ensures Valid()
      ensures View() == DeallocateStep(old(View()), ptr, osize).0
      ensures !Issued(View(), live, ptr)
      ensures forall a :: a != ptr && Issued(old(View()), old(live), a) ==> Issued(View(), live, a) && live[a] == old(live)[a]
      ensures forall a :: Issued(View(), live, a) ==> a != ptr && Issued(old(View()), old(live), a) && live[a] == old(live)[a]
      ensures forall a, n :: a != ptr && old(IsBlock(a, n)) ==> IsBlock(a, n)
      ensures forall a, n :: IsBlock(a, n) ==> a != ptr && old(IsBlock(a, n))
      ensures forall k: nat :: !(ptr <= k < ptr + WORD_SIZE) ==> ByteAt(mem, k) == old(ByteAt(mem, k))
      ensures DeallocateStep(old(View()), ptr, osize).1 == Pushed ==>
        && mem == StoreWord(old(mem), ptr, old(freeListHead)) && freeListHead == ptr && live == old(live)
      ensures DeallocateStep(old(View()), ptr, osize).1 == Burned ==>
        && mem == old(mem) && freeListHead == old(freeListHead) && live == old(live) - {ptr}
    {
      var allocatedBytes := SizeToAllocate(osize);
      if allocatedBytes == MIN_BLOCK_SIZE {
        PushFreeList(ptr, osize);
      } else {
        BurnPreservesLayout(View(), live, ptr);
        live := live - {ptr};
      }
    }

    /** The recycling path of DeAllocate: the block becomes the head of the
        free list, linked to the old head through its first word. */
    method PushFreeList(ptr: nat, osize: nat)
      requires Valid() && IsBlock(ptr, osize) && begin <= ptr <= end
      requires SizeToAllocate(osize) == MIN_BLOCK_SIZE
      modifies this
      ensures Valid()
      ensures DeallocateStep(old(View()), ptr, osize) == (View(), Pushed)
      ensures mem == StoreWord(old(mem), ptr, old(freeListHead)) && freeListHead == ptr
      ensures live == old(live) && !Issued(View(), live, ptr)
      ensures forall a :: a != ptr && Issued(old(View()), live, a) ==> Issued(View(), live, a)
    {
      PushStep(View(), live, mem, freeListHead, ptr, osize);
      mem := StoreWord(mem, ptr, freeListHead);
      freeListHead := ptr;
      freeList := [ptr] + freeList;
    }

    /** ReAllocate: a fresh block for nsize, the first min(osize, nsize) bytes
        of the old block copied into it, then DeAllocate of the old block. */
    method ReAllocate(ptr: nat, osize: nat, nsize: nat) returns (r: Reply)
      requires Valid() && IsBlock(ptr, osize)
      modifies this, heap
      ensures Valid()
      ensures View() == ReallocateStep(old(View()), ptr, osize, nsize).0
      ensures r == ExitFailure <==> ReallocateStep(old(View()), ptr, osize, nsize).1 == AlignFault
      ensures r.Ptr? ==> IsBlock(r.addr, nsize) && !IsBlock(ptr, osize)
      ensures r.Ptr? ==> !Issued(old(View()), old(live), r.addr) && r.addr !in old(heap.blocks)
      ensures r.Ptr? ==> CopiedFrom(mem, r.addr, old(mem), ptr, Min(osize, nsize))
      ensures match ReallocateStep(old(View()), ptr, osize, nsize).1
        case Recycled(a) => r == Ptr(a)
        case Bumped(a) => r == Ptr(a)
        case Fallback(n) => r.Ptr? && end < r.addr && n == nsize
        case AlignFault => r == ExitFailure
      ensures r.Ptr? ==> forall a, n :: a != ptr && old(IsBlock(a, n)) ==> IsBlock(a, n)
      ensures r.Ptr? ==> forall a, n :: old(IsBlock(a, n)) ==> Disjoint(a, n, r.addr, nsize)
      ensures r.Ptr? ==> forall m :: !old(IsBlock(r.addr, m))
      ensures r.Ptr? ==> forall k: nat {:trigger ByteAt(mem, k)} ::
        !(r.addr <= k < r.addr + Min(osize, nsize)) && !(begin <= ptr <= end && ptr <= k < ptr + WORD_SIZE) ==>
        ByteAt(mem, k) == old(ByteAt(mem, k))
      ensures r.Ptr? ==> forall a, n :: IsBlock(a, n) ==> a == r.addr || (a != ptr && old(IsBlock(a, n)))
      ensures r == ExitFailure ==> unchanged(this, heap)
    {
      r := AllocateFresh(nsize);
      if r == ExitFailure {
        return;
      }
      MoveAndRelease(ptr, osize, r.addr, nsize);
    }

    /** Allocate as ReAllocate uses it: a fresh block apart from every block
        in use, or ExitFailure with nothing changed. */
    method AllocateFresh(nsize: nat) returns (r: Reply)
      requires Valid()
      modifies this, heap
      ensures Valid()
      ensures View() == AllocateStep(old(View()), nsize).0 && mem == old(mem)
      ensures match AllocateStep(old(View()), nsize).1
        case Recycled(a) => r == Ptr(a)
        case Bumped(a) => r == Ptr(a)
        case Fallback(n) => r.Ptr? && end < r.addr && n == nsize
        case AlignFault => r == ExitFailure
      ensures r.Ptr? ==> IsBlock(r.addr, nsize) && forall m :: !old(IsBlock(r.addr, m))
      ensures r.Ptr? ==> !Issued(old(View()), old(live), r.addr) && r.addr !in old(heap.blocks)
      ensures r.Ptr? ==> forall a, n :: old(IsBlock(a, n)) ==> Disjoint(a, n, r.addr, nsize)
      ensures forall a, n :: old(IsBlock(a, n)) ==> IsBlock(a, n)
      ensures forall a, n :: IsBlock(a, n) ==> (r.Ptr? && a == r.addr) || old(IsBlock(a, n))
      ensures r == ExitFailure ==> unchanged(this, heap)
    {
      r := Allocate(nsize);
    }

    /** The rest of ReAllocate once the fresh block dst exists: memcpy of the
        first min(osize, nsize) bytes, then DeAllocate of the old block. */
    method MoveAndRelease(ptr: nat, osize: nat, dst: nat, nsize: nat)
      requires Valid() && IsBlock(ptr, osize) && IsBlock(dst, nsize) && ptr != dst
      modifies this, heap
      ensures Valid()
      ensures View() == DeallocateStep(old(View()), ptr, osize).0
      ensures IsBlock(dst, nsize) && !IsBlock(ptr, osize)
      ensures CopiedFrom(mem, dst, old(mem), ptr, Min(osize, nsize))
      ensures forall a, n :: a != ptr && old(IsBlock(a, n)) ==> IsBlock(a, n)
      ensures forall a, n :: IsBlock(a, n) ==> a != ptr && old(IsBlock(a, n))
      ensures forall k: nat {:trigger ByteAt(mem, k)} :: !(dst <= k < dst + Min(osize, nsize)) && !(begin <= ptr <= end && ptr <= k < ptr + WORD_SIZE) ==>
        ByteAt(mem, k) == old(ByteAt(mem, k))
    {
      ghost var original := mem;
      var n := Min(osize, nsize);
      CopyTargetIsClear(ptr, osize, dst, nsize);
      MemCopy(dst, ptr, n);
      ghost var copied := mem;
      DeAllocate(ptr, osize);
      forall k: nat | dst <= k < dst + n
        ensures ByteAt(mem, k) == ByteAt(original, ptr + (k - dst))
      {
        assert ByteAt(mem, k) == ByteAt(copied, k);
      }
    }

    /** memcpy(dst, src, n) into a block that holds no free-list link word. */
    method MemCopy(dst: nat, src: nat, n: nat)
      requires Valid() && (dst + n <= src || src + n <= dst)
      requires forall i :: 0 <= i < |freeList| ==> Disjoint(freeList[i], WORD_SIZE, dst, n)
      modifies this
      ensures Valid() && View() == old(View()) && live == old(live)
      ensures freeListHead == old(freeListHead)
      ensures forall a, m :: IsBlock(a, m) <==> old(IsBlock(a, m))
      ensures CopiedFrom(mem, dst, old(mem), src, n)
      ensures forall k: nat {:trigger ByteAt(mem, k)} :: !(dst <= k < dst + n) ==> ByteAt(mem, k) == ByteAt(old(mem), k)
    {
      FreeChainFrame(mem, Copy(mem, dst, src, n), freeListHead, freeList, dst, n);
      mem := Copy(mem, dst, src, n);
    }

    /** Two different blocks in use never overlap, whichever allocator they
        came from. */
    lemma BlocksApart(a: nat, n: nat, b: nat, m: nat)
      requires Valid() && IsBlock(a, n) && IsBlock(b, m) && a != b
      ensures Disjoint(a, n, b, m)
      ensures begin <= b <= end ==> Disjoint(a, n, b, SizeToAllocate(m))
    {
      if begin <= a <= end {
        assert Placed(View(), live, a);
        if begin <= b <= end {
          assert Apart(live, a, b);
          assert Placed(View(), live, b);
        }
      } else if begin <= b <= end {
        assert Placed(View(), live, b);
      }
    }

    /** A fresh block and a block handed out earlier do not overlap, and the
        fresh block holds no free-list link word. */
    lemma CopyTargetIsClear(ptr: nat, osize: nat, dst: nat, nsize: nat)
      requires Valid() && IsBlock(ptr, osize) && IsBlock(dst, nsize) && ptr != dst
      ensures dst + Min(osize, nsize) <= ptr || ptr + Min(osize, nsize) <= dst
      ensures forall i :: 0 <= i < |freeList| ==> Disjoint(freeList[i], WORD_SIZE, dst, Min(osize, nsize))
      ensures begin <= ptr <= end ==> Disjoint(ptr, WORD_SIZE, dst, Min(osize, nsize))
    {
      var n := Min(osize, nsize);
      if begin <= dst <= end {
        FreeWordsApart(View(), live, dst, n);
        assert Placed(View(), live, dst);
        if begin <= ptr <= end {
          assert Apart(live, ptr, dst);
          assert Placed(View(), live, ptr);
        }
      } else {
        forall i | 0 <= i < |freeList|
          ensures Disjoint(freeList[i], WORD_SIZE, dst, n)
        {
          assert FreeNode(View(), live, i);
          assert Placed(View(), live, freeList[i]);
        }
        if begin <= ptr <= end {
          assert Placed(View(), live, ptr);
        }
      }
    }
  }

  /** l_alloc, the interpreter's allocation callback, with ud bound to pool:
      nsize == 0 frees ptr unless it is null and returns null; a null ptr asks
      for a fresh block of nsize bytes; anything else resizes ptr to nsize. */
  method LAlloc(pool: AlignedArenaAllocator, ptr: nat, osize: nat, nsize: nat) returns (r: Reply)
    requires pool.Valid()
    requires ptr != NULL ==> pool.IsBlock(ptr, osize)
    modifies pool, pool.heap
    ensures pool.Valid()
    ensures nsize == 0 ==> r == Ptr(NULL)
    ensures nsize == 0 && ptr == NULL ==> unchanged(pool, pool.heap)
    ensures nsize == 0 && ptr != NULL ==>
      pool.View() == DeallocateStep(old(pool.View()), ptr, osize).0 && !pool.IsBlock(ptr, osize)
    ensures nsize != 0 && ptr == NULL ==>
      pool.View() == AllocateStep(old(pool.View()), nsize).0
    ensures nsize != 0 && ptr != NULL ==>
      pool.View() == ReallocateStep(old(pool.View()), ptr, osize, nsize).0
    ensures nsize != 0 && r.Ptr? ==> r.addr != NULL && pool.IsBlock(r.addr, nsize)
    ensures nsize != 0 && r.Ptr? ==> forall m :: !old(pool.IsBlock(r.addr, m))
    ensures nsize != 0 && ptr == NULL ==> match AllocateStep(old(pool.View()), nsize).1
      case Recycled(a) => r == Ptr(a)
      case Bumped(a) => r == Ptr(a)
      case Fallback(n) => r.Ptr? && pool.end < r.addr
      case AlignFault => r == ExitFailure
    ensures nsize != 0 && ptr != NULL ==> match ReallocateStep(old(pool.View()), ptr, osize, nsize).1
      case Recycled(a) => r == Ptr(a)
      case Bumped(a) => r == Ptr(a)
      case Fallback(n) => r.Ptr? && pool.end < r.addr
      case AlignFault => r == ExitFailure
    ensures r.Ptr? ==> forall a, n :: a != ptr && old(pool.IsBlock(a, n)) ==> pool.IsBlock(a, n)
    ensures nsize != 0 && r.Ptr? ==> forall a, n :: old(pool.IsBlock(a, n)) ==> Disjoint(a, n, r.addr, nsize)
    ensures nsize == 0 && ptr != NULL ==>
      forall k: nat {:trigger ByteAt(pool.mem, k)} :: !(pool.begin <= ptr <= pool.end && ptr <= k < ptr + WORD_SIZE) ==> ByteAt(pool.mem, k) == old(ByteAt(pool.mem, k))
    ensures nsize != 0 && ptr == NULL ==> pool.mem == old(pool.mem)
    ensures nsize != 0 && ptr != NULL && r.Ptr? ==> forall k: nat {:trigger ByteAt(pool.mem, k)} ::
      !(r.addr <= k < r.addr + Min(osize, nsize)) && !(pool.begin <= ptr <= pool.end && ptr <= k < ptr + WORD_SIZE) ==>
      ByteAt(pool.mem, k) == old(ByteAt(pool.mem, k))
    ensures nsize != 0 && ptr != NULL && r.Ptr? ==> CopiedFrom(pool.mem, r.addr, old(pool.mem), ptr, Min(osize, nsize))
    ensures nsize != 0 && ptr != NULL && r.Ptr? ==> !pool.IsBlock(ptr, osize)
    ensures r == ExitFailure ==> unchanged(pool, pool.heap)
    ensures nsize == 0 && ptr != NULL ==> forall a, n :: pool.IsBlock(a, n) ==> a != ptr && old(pool.IsBlock(a, n))
    ensures nsize != 0 && ptr == NULL ==> forall a, n :: pool.IsBlock(a, n) ==> (r.Ptr? && a == r.addr) || old(pool.IsBlock(a, n))
    ensures nsize != 0 && ptr != NULL && r.Ptr? ==>
      forall a, n :: pool.IsBlock(a, n) ==> a == r.addr || (a != ptr && old(pool.IsBlock(a, n)))
  {
    if nsize == 0 {
      if ptr != NULL {
        pool.DeAllocate(ptr, osize);
      }
      return Ptr(NULL);
    } else {
      if ptr == NULL {
        r := pool.Allocate(nsize);
      } else {
        r := pool.ReAllocate(ptr, osize, nsize);
      }
    }
  }
}
