/** Raw memory as the allocator touches it: single bytes, the pointer-sized word
    that an intrusive free-list node stores in the first bytes of a freed block,
    and the byte copy done by memcpy. Addresses are natural numbers. */
module Memory {

  /** One byte of memory. */
  type byte = x: nat | x < 256

  /** The bytes of process memory; an address never written reads as 0. */
  type Mem = map<nat, byte>

  /** The null pointer. */
  const NULL: nat := 0

  /** Bytes in a pointer (sizeof(FreeList *) on a 64-bit target). */
  const WORD_SIZE: nat := 8

  /** Every pointer value is below 2^64. */
  const ADDRESS_LIMIT: nat := 0x1_0000_0000_0000_0000

  function ByteAt(m: Mem, a: nat): byte
  {
    if a in m then m[a] else 0
  }

  function Pow256(n: nat): (r: nat)
    ensures r >= 1
  {
    if n == 0 then 1 else 256 * Pow256(n - 1)
  }

  lemma WordRange()
    ensures Pow256(WORD_SIZE) == ADDRESS_LIMIT
  {
    assert Pow256(2) == 0x1_0000;
    assert Pow256(4) == 0x1_0000_0000;
    assert Pow256(6) == 0x1_0000_0000_0000;
  }

  /** The number whose little-endian bytes are stored in [lo, hi). The
      recursion runs over an address range, so a load of a fixed width is
      not unrolled wherever it appears. */
  function LoadLE(m: Mem, lo: nat, hi: nat): (v: nat)
    requires lo <= hi
    ensures v < Pow256(hi - lo)
    decreases hi - lo
  {
    if lo == hi then 0 else ByteAt(m, lo) + 256 * LoadLE(m, lo + 1, hi)
  }

  /** Memory after storing the low hi - lo bytes of v, little-endian, in [lo, hi). */
  function StoreLE(m: Mem, lo: nat, hi: nat, v: nat): (m': Mem)
    requires lo <= hi
    ensures forall k: nat {:trigger ByteAt(m', k)} :: !(lo <= k < hi) ==> ByteAt(m', k) == ByteAt(m, k)
    decreases hi - lo
  {
    if lo == hi then m else StoreLE(m[lo := v % 256], lo + 1, hi, v / 256)
  }

  /** Loading what was stored gives the value back when it fits. */
  lemma {:induction false} LoadStoreLE(m: Mem, lo: nat, hi: nat, v: nat)
    requires lo <= hi && v < Pow256(hi - lo)
    ensures LoadLE(StoreLE(m, lo, hi, v), lo, hi) == v
    decreases hi - lo
  {
    if lo < hi {
      var m1 := m[lo := v % 256];
      LoadStoreLE(m1, lo + 1, hi, v / 256);
      assert ByteAt(StoreLE(m1, lo + 1, hi, v / 256), lo) == v % 256;
    }
  }

  /** A load sees only the bytes it reads. */
  lemma {:induction false} LoadLEFrame(m: Mem, m': Mem, lo: nat, hi: nat)
    requires lo <= hi
    requires forall k: nat :: lo <= k < hi ==> ByteAt(m', k) == ByteAt(m, k)
    ensures LoadLE(m', lo, hi) == LoadLE(m, lo, hi)
    decreases hi - lo
  {
    if lo < hi {
      LoadLEFrame(m, m', lo + 1, hi);
    }
  }

  /** The pointer stored in the word at address a. */
  function LoadWord(m: Mem, a: nat): (v: nat)
    ensures v < ADDRESS_LIMIT
  {
    WordRange();
    LoadLE(m, a, a + WORD_SIZE)
  }

  /** Memory after storing the pointer v in the word at address a. */
  function StoreWord(m: Mem, a: nat, v: nat): (m': Mem)
    requires v < ADDRESS_LIMIT
    ensures forall k: nat {:trigger ByteAt(m', k)} :: !(a <= k < a + WORD_SIZE) ==> ByteAt(m', k) == ByteAt(m, k)
  {
    StoreLE(m, a, a + WORD_SIZE, v)
  }

  /** A stored pointer reads back unchanged. */
  lemma LoadStoreWord(m: Mem, a: nat, v: nat)
    requires v < ADDRESS_LIMIT
    ensures LoadWord(StoreWord(m, a, v), a) == v
  {
    WordRange();
    LoadStoreLE(m, a, a + WORD_SIZE, v);
  }

  /** A word outside the range [lo, lo + n) keeps its value when only that range is written. */
  lemma LoadWordFrame(m: Mem, m': Mem, a: nat, lo: nat, n: nat)
    requires forall k: nat :: !(lo <= k < lo + n) ==> ByteAt(m', k) == ByteAt(m, k)
    requires a + WORD_SIZE <= lo || lo + n <= a
    ensures LoadWord(m', a) == LoadWord(m, a)
  {
    LoadLEFrame(m, m', a, a + WORD_SIZE);
  }

  /** The n bytes at dst in m' are the n bytes at src in m. */
  ghost predicate CopiedFrom(m': Mem, dst: nat, m: Mem, src: nat, n: nat)
  {
    forall k: nat :: dst <= k < dst + n ==> ByteAt(m', k) == ByteAt(m, src + (k - dst))
  }

  /** Memory after memcpy(dst, src, n) for blocks that do not overlap, copied
      one byte at a time from the front. */
  function Copy(m: Mem, dst: nat, src: nat, n: nat): (m': Mem)
    requires dst + n <= src || src + n <= dst
    ensures CopiedFrom(m', dst, m, src, n)
    ensures forall k: nat {:trigger ByteAt(m', k)} :: !(dst <= k < dst + n) ==> ByteAt(m', k) == ByteAt(m, k)
    decreases n
  {
    if n == 0 then m else Copy(m[dst := ByteAt(m, src)], dst + 1, src + 1, n - 1)
  }
}
