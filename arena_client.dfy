/** How the interpreter uses l_alloc when it holds several blocks: calls
    compose, because a call leaves every other block in use and its bytes
    as they were. */
module ArenaClient {
  import opened Memory
  import opened ArenaModel
  import opened Arena

  /** The interpreter holds blocks p and q and resizes p to n bytes. The new
      block holds p's leading bytes, p leaves use, and q stays in use, apart
      from the new block. */
  method ResizeKeepingOther(pool: AlignedArenaAllocator, p: nat, po: nat, q: nat, qo: nat, n: nat)
    returns (r: Reply)
    requires pool.Valid() && p != NULL && q != NULL && p != q
    requires pool.IsBlock(p, po) && pool.IsBlock(q, qo) && n > 0
    modifies pool, pool.heap
    ensures pool.Valid()
    ensures r.Ptr? ==> pool.IsBlock(r.addr, n) && pool.IsBlock(q, qo) && r.addr != q && !pool.IsBlock(p, po)
    ensures r.Ptr? ==> CopiedFrom(pool.mem, r.addr, old(pool.mem), p, Min(po, n))
  {
    pool.BlocksApart(q, qo, p, po);
    r := LAlloc(pool, p, po, n);
  }

  /** The interpreter frees q while holding block b: q leaves use, no block
      enters use, and b stays in use with every one of its bytes untouched. */
  method FreeKeepingOther(pool: AlignedArenaAllocator, q: nat, qo: nat, b: nat, bn: nat)
    requires pool.Valid() && q != NULL && b != q
    requires pool.IsBlock(q, qo) && pool.IsBlock(b, bn)
    modifies pool, pool.heap
    ensures pool.Valid()
    ensures !pool.IsBlock(q, qo) && pool.IsBlock(b, bn)
    ensures forall a, m :: pool.IsBlock(a, m) ==> a != q && old(pool.IsBlock(a, m))
    ensures forall k: nat {:trigger ByteAt(pool.mem, k)} :: b <= k < b + bn ==> ByteAt(pool.mem, k) == old(ByteAt(pool.mem, k))
  {
    pool.BlocksApart(b, bn, q, qo);
    var none := LAlloc(pool, q, qo, 0);
  }

  /** The interpreter holds blocks p and q, resizes p to n bytes and then
      frees q. Afterwards neither p nor q is in use, and the resized block is,
      with p's leading bytes. */
  method ResizeThenFreeOther(pool: AlignedArenaAllocator, p: nat, po: nat, q: nat, qo: nat, n: nat)
    returns (r: Reply)
    requires pool.Valid() && p != NULL && q != NULL && p != q
    requires pool.IsBlock(p, po) && pool.IsBlock(q, qo) && n > 0
    modifies pool, pool.heap
    ensures pool.Valid()
    ensures r.Ptr? ==> pool.IsBlock(r.addr, n) && !pool.IsBlock(q, qo) && !pool.IsBlock(p, po)
    ensures r.Ptr? ==> CopiedFrom(pool.mem, r.addr, old(pool.mem), p, Min(po, n))
  {
    ghost var m0 := pool.mem;
    r := ResizeKeepingOther(pool, p, po, q, qo, n);
    if r == ExitFailure {
      return;
    }
    ghost var m1 := pool.mem;
    FreeKeepingOther(pool, q, qo, r.addr, n);
    forall k: nat | r.addr <= k < r.addr + Min(po, n)
      ensures ByteAt(pool.mem, k) == ByteAt(m0, p + (k - r.addr))
    {
      assert ByteAt(pool.mem, k) == ByteAt(m1, k);
    }
  }
}
