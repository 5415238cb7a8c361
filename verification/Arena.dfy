// The block pools and the scratch arena (src/arena.c). A pool's memory is a sequence of
// 32-bit words; the first word of a free block holds the address of the next free one.

module Arena {
  import opened Words

  const MAX_BLOCKS: int := 32

  type BlockSize = x: int | x == 64 || x == 256 witness 64

  // Arithmetic with the block size, kept linear by naming its two values.

  function Times(size: BlockSize, i: nat): nat {
    if size == 64 then 64 * i else 256 * i
  }

  function Div(size: BlockSize, x: nat): nat {
    if size == 64 then x / 64 else x / 256
  }

  function Rem(size: BlockSize, x: nat): nat {
    if size == 64 then x % 64 else x % 256
  }

  /** The index of the first word of block i. */
  function Word(size: BlockSize, i: nat): nat {
    if size == 64 then 16 * i else 64 * i
  }

  /** mask holds the 32 bits of the allocation mask. Without memory n is 0. */
  datatype Pool = Pool(
    base: nat, size: BlockSize, n: nat, mem: seq<u32>, freeHead: u32, mask: seq<bool>,
    active: u32, high: u32, allocs: u32, frees: u32)
  {
    predicate Shaped() {
      && n <= MAX_BLOCKS && |mem| == Word(size, n) && |mask| == MAX_BLOCKS
      && 0 < base && base + Times(size, n) <= U32_MAX
    }

    /** The address of block i. */
    function Addr(i: nat): nat {
      base + Times(size, i)
    }

    function Next(i: nat): u32
      requires Shaped() && i < n
    {
      mem[Word(size, i)]
    }

    /** The words of block i. */
    function Block(i: nat): seq<u32>
      requires Shaped() && i < n
    {
      mem[Word(size, i)..Word(size, i + 1)]
    }
  }

  function Zeroed(p: Pool, i: nat): seq<u32>
    requires p.Shaped() && i < p.n
  {
    seq(|p.mem|, j requires 0 <= j < |p.mem| =>
      if Word(p.size, i) <= j < Word(p.size, i + 1) then 0 else p.mem[j])
  }

  /** Whether an address is that of a block of the pool. */
  predicate IsBlock(p: Pool, a: nat) {
    p.base <= a < p.base + Times(p.size, p.n) && Rem(p.size, a - p.base) == 0
  }

  /** The block an address stands for. */
  function IndexOf(p: Pool, a: nat): (i: nat)
    requires IsBlock(p, a)
    ensures i < p.n && a == p.Addr(i)
  {
    Div(p.size, a - p.base)
  }

  /** arena_alloc_pool: the block's address, or 0. A free list that does not lead to a free
      block is taken for corrupt and given up. */
  function Alloc(p: Pool): (Pool, u32)
    requires p.Shaped()
  {
    var a := p.freeHead;
    if p.n == 0 || a == 0 then (p, 0)
    else if !IsBlock(p, a) || p.mask[IndexOf(p, a)] then (p.(freeHead := 0), 0)
    else
      var i := IndexOf(p, a);
      var active := Add32(p.active, 1);
      (Pool(p.base, p.size, p.n, Zeroed(p, i), p.Next(i), p.mask[i := true],
            active, if active > p.high then active else p.high, Add32(p.allocs, 1), p.frees),
       a)
  }

  /** arena_free on a pointer into this pool's address range. */
  function Free(p: Pool, a: u32): (Pool, bool)
    requires p.Shaped()
  {
    if !IsBlock(p, a) || !p.mask[IndexOf(p, a)] then (p, false)
    else
      var i := IndexOf(p, a);
      (Pool(p.base, p.size, p.n, p.mem[Word(p.size, i) := p.freeHead], a, p.mask[i := false],
            if p.active > 0 then p.active - 1 else 0, p.high, p.allocs, Add32(p.frees, 1)),
       true)
  }

  /** A client stores a word into block i. */
  function Store(p: Pool, i: nat, w: nat, v: u32): Pool
    requires p.Shaped() && i < p.n && w < Word(p.size, 1)
  {
    p.(mem := p.mem[Word(p.size, i) + w := v])
  }

  // ---- The heap invariant ------------------------------------------------

  function Ones(mask: seq<bool>): (k: nat)
    ensures k <= |mask|
  {
    if mask == [] then 0 else Ones(mask[..|mask| - 1]) + if mask[|mask| - 1] then 1 else 0
  }

  lemma {:induction false} OnesUpdate(mask: seq<bool>, i: nat, b: bool)
    requires i < |mask| && mask[i] != b
    ensures Ones(mask[i := b]) == if b then Ones(mask) + 1 else Ones(mask) - 1
  {
    var n := |mask| - 1;
    if i == n {
      assert mask[i := b][..n] == mask[..n];
    } else {
      assert mask[i := b][..n] == mask[..n][i := b];
      OnesUpdate(mask[..n], i, b);
    }
  }

  /** The list: from the head through each block's first word to null. */
  ghost predicate Linked(p: Pool, list: seq<nat>)
    requires p.Shaped()
  {
    && (forall k :: 0 <= k < |list| ==> list[k] < p.n)
    && p.freeHead == (if |list| == 0 then 0 else p.Addr(list[0]))
    && (forall k :: 0 <= k < |list| ==>
          p.Next(list[k]) == if k + 1 < |list| then p.Addr(list[k + 1]) else 0)
  }

  /** It visits every free block, each once, and no other. */
  ghost predicate Covers(p: Pool, list: seq<nat>)
    requires p.Shaped()
  {
    && (forall j, k :: 0 <= j < k < |list| ==> list[j] != list[k])
    && (forall i :: i in list <==> 0 <= i < p.n && !p.mask[i])
    && (forall i :: p.n <= i < MAX_BLOCKS ==> !p.mask[i])
  }

  ghost predicate Counted(p: Pool, list: seq<nat>) {
    && p.active == Ones(p.mask) == Sub32(p.allocs, p.frees)
    && p.active + |list| == p.n && p.active <= p.high <= p.n
  }

  ghost predicate Inv(p: Pool, list: seq<nat>) {
    p.Shaped() && Linked(p, list) && Covers(p, list) && Counted(p, list)
  }

  predicate Live(p: Pool, i: nat)
    requires p.Shaped()
  {
    i < p.n && p.mask[i]
  }

  lemma BlocksApart(size: BlockSize, i: nat, j: nat)
    requires i < j
    ensures Word(size, i + 1) <= Word(size, j) && Times(size, i + 1) <= Times(size, j)
  {
  }

  /** Words of different blocks do not overlap. */
  lemma WordsApart(size: BlockSize, i: nat, j: nat, w: nat)
    requires i != j && Word(size, j) <= w < Word(size, j + 1)
    ensures !(Word(size, i) <= w < Word(size, i + 1))
  {
    if i < j {
      BlocksApart(size, i, j);
    } else {
      BlocksApart(size, j, i);
    }
  }

  lemma AddrIsBlock(p: Pool, i: nat)
    requires i < p.n
    ensures IsBlock(p, p.Addr(i)) && IndexOf(p, p.Addr(i)) == i
  {
  }

  /** Under the invariant the corruption branches are never taken: allocation takes the first
      block of the list, or returns null exactly when every block is in use. */
  lemma AllocKeepsInv(p: Pool, list: seq<nat>)
    requires Inv(p, list)
    ensures var (p', a) := Alloc(p);
            && (a == 0 <==> p.active == p.n) && (a == 0 <==> list == [])
            && (a == 0 ==> p' == p)
            && (a != 0 ==> Inv(p', list[1..]) && a == p.Addr(list[0]) && !Live(p, list[0]) && Live(p', list[0]))
  {
    if list != [] {
      var i := list[0];
      assert i in list;
      AddrIsBlock(p, i);
      OnesUpdate(p.mask, i, true);
      AllocLinks(p, list);
      AllocCovers(p, list);
    }
    hide Linked, Covers, Ones;
  }

  lemma AllocLinks(p: Pool, list: seq<nat>)
    requires Inv(p, list) && list != []
    ensures Alloc(p).0.Shaped() && Linked(Alloc(p).0, list[1..])
  {
    assert list[0] in list && p.Next(list[0]) == if 1 < |list| then p.Addr(list[1]) else 0;
    AddrIsBlock(p, list[0]);
    var p' := Alloc(p).0;
    var rest := list[1..];
    forall k | 0 <= k < |rest|
      ensures rest[k] < p'.n && p'.Next(rest[k]) == if k + 1 < |rest| then p'.Addr(rest[k + 1]) else 0
    {
      assert rest[k] == list[k + 1] != list[0] && (k + 1 < |rest| ==> rest[k + 1] == list[k + 2]);
      assert p.Next(list[k + 1]) == if k + 2 < |list| then p.Addr(list[k + 2]) else 0;
      WordsApart(p.size, list[0], list[k + 1], Word(p.size, list[k + 1]));
      assert p'.mem == Zeroed(p, list[0]);
    }
    assert p'.Shaped();
    assert !p.mask[list[0]];
    assert p'.freeHead == p.Next(list[0]);
    assert |rest| > 0 ==> rest[0] == list[1];
    assert |rest| > 0 ==> p'.Addr(rest[0]) == p.Addr(list[1]);
    assert |rest| == 0 ==> p'.freeHead == 0;
    assert Linked(p', rest);
  }

  lemma AllocCovers(p: Pool, list: seq<nat>)
    requires Inv(p, list) && list != []
    ensures Alloc(p).0.Shaped() && Covers(Alloc(p).0, list[1..])
  {
    AddrIsBlock(p, list[0]);
    assert list[0] in list;
    assert list == [list[0]] + list[1..];
  }

  /** Freeing succeeds exactly for the address of a block in use, which goes to the front of
      the list; anything else, a second free included, changes nothing. */
  lemma FreeKeepsInv(p: Pool, list: seq<nat>, a: u32)
    requires Inv(p, list)
    ensures var (p', ok) := Free(p, a);
            && (ok <==> IsBlock(p, a) && Live(p, IndexOf(p, a)))
            && (!ok ==> p' == p)
            && (ok ==> Inv(p', [IndexOf(p, a)] + list) && !Live(p', IndexOf(p, a)) && !Free(p', a).1)
  {
    if Free(p, a).1 {
      var i := IndexOf(p, a);
      OnesUpdate(p.mask, i, false);
      FreeLinks(p, list, a);
      FreeCovers(p, list, a);
      hide Linked, Covers, Ones;
    }
  }

  lemma FreeLinks(p: Pool, list: seq<nat>, a: u32)
    requires Inv(p, list) && Free(p, a).1
    ensures Free(p, a).0.Shaped() && Linked(Free(p, a).0, [IndexOf(p, a)] + list)
  {
    var p' := Free(p, a).0;
    var i := IndexOf(p, a);
    var longer := [i] + list;
    forall k | 0 <= k < |longer|
      ensures longer[k] < p'.n
      ensures p'.Next(longer[k]) == if k + 1 < |longer| then p'.Addr(longer[k + 1]) else 0
    {
      if k > 0 {
        assert longer[k] == list[k - 1] && list[k - 1] in list;
        WordsApart(p.size, i, list[k - 1], Word(p.size, list[k - 1]));
        assert p'.Next(longer[k]) == p.Next(list[k - 1]);
      }
      assert k + 1 < |longer| ==> longer[k + 1] == list[k];
    }
    assert Linked(p', longer);
  }

  lemma FreeCovers(p: Pool, list: seq<nat>, a: u32)
    requires Inv(p, list) && Free(p, a).1
    ensures Free(p, a).0.Shaped() && Covers(Free(p, a).0, [IndexOf(p, a)] + list)
  {
    assert IndexOf(p, a) !in list;
  }

  /** A client that stays inside its live block does no harm. */
  lemma StoreKeepsInv(p: Pool, list: seq<nat>, i: nat, w: nat, v: u32)
    requires Inv(p, list) && Live(p, i) && w < Word(p.size, 1)
    ensures Store(p, i, w, v).Shaped() && Inv(Store(p, i, w, v), list)
  {
    var p' := Store(p, i, w, v);
    forall k | 0 <= k < |list| ensures p'.Next(list[k]) == p.Next(list[k]) {
      assert list[k] in list;
      if list[k] < i {
        BlocksApart(p.size, list[k], i);
      } else {
        BlocksApart(p.size, i, list[k]);
      }
    }
  }

  /** What one block's owner sees: nobody else's allocation changes its words, */
  lemma AllocKeepsOthers(p: Pool, list: seq<nat>, i: nat)
    requires Inv(p, list) && Live(p, i)
    ensures Alloc(p).0.Shaped() && Live(Alloc(p).0, i) && Alloc(p).0.Block(i) == p.Block(i)
  {
    var p' := Alloc(p).0;
    if list != [] {
      assert list[0] in list;
      AddrIsBlock(p, list[0]);
      hide Linked, Covers, Ones;
      forall w | Word(p.size, i) <= w < Word(p.size, i + 1) ensures p'.mem[w] == p.mem[w] {
        WordsApart(p.size, list[0], i, w);
      }
    }
  }

  /** and nobody else's free; */
  lemma FreeKeepsOthers(p: Pool, list: seq<nat>, i: nat, a: u32)
    requires Inv(p, list) && Live(p, i) && a != p.Addr(i)
    ensures Free(p, a).0.Shaped() && Live(Free(p, a).0, i) && Free(p, a).0.Block(i) == p.Block(i)
  {
    hide Linked, Covers, Ones;
    if Free(p, a).1 {
      WordsApart(p.size, i, IndexOf(p, a), Word(p.size, IndexOf(p, a)));
    }
  }

  /** and a new block comes with all words zero. */
  lemma AllocZeroes(p: Pool, list: seq<nat>)
    requires Inv(p, list) && list != []
    ensures Alloc(p).0.Shaped() && Alloc(p).0.Block(list[0]) == seq(Word(p.size, 1), _ => 0)
  {
    assert list[0] in list;
    AddrIsBlock(p, list[0]);
    hide Linked, Covers, Ones;
    assert Alloc(p).0.mem == Zeroed(p, list[0]);
  }

  // ---- Runs of one pool --------------------------------------------------

  datatype Call = Take | Give(a: u32) | Put(i: nat, w: nat, v: u32)

  /** A pool, the free list it holds, and the addresses handed out and not yet given back. */
  datatype Heap = Heap(p: Pool, list: seq<nat>, out: set<nat>)

  ghost predicate HeapInv(h: Heap) {
    && Inv(h.p, h.list)
    && (forall a :: a in h.out <==> IsBlock(h.p, a) && h.p.mask[IndexOf(h.p, a)])
  }

  /** Clients write only inside blocks they hold. */
  predicate Allowed(h: Heap, c: Call) {
    c.Put? ==> h.p.Shaped() && Live(h.p, c.i) && c.w < Word(h.p.size, 1)
  }

  function Step(h: Heap, c: Call): Heap {
    if !h.p.Shaped() || !Allowed(h, c) then h
    else match c
      case Take =>
        var (p', a) := Alloc(h.p);
        if a == 0 || h.list == [] then h.(p := p') else Heap(p', h.list[1..], h.out + {a})
      case Give(a) =>
        var (p', ok) := Free(h.p, a);
        if ok then Heap(p', [IndexOf(h.p, a)] + h.list, h.out - {a}) else h.(p := p')
      case Put(i, w, v) => h.(p := Store(h.p, i, w, v))
  }

  lemma TakeKeepsHeap(h: Heap)
    requires HeapInv(h)
    ensures HeapInv(Step(h, Take))
    ensures var a := Alloc(h.p).1; a != 0 ==> a !in h.out && IsBlock(h.p, a)
  {
    AllocKeepsInv(h.p, h.list);
    if h.list != [] {
      AddrIsBlock(h.p, h.list[0]);
      SameBlocks(h.p, Alloc(h.p).0);
      var h' := Step(h, Take);
      forall a ensures a in h'.out <==> IsBlock(h'.p, a) && h'.p.mask[IndexOf(h'.p, a)] {
      }
    }
  }

  lemma SameBlocks(p: Pool, q: Pool)
    requires p.base == q.base && p.size == q.size && p.n == q.n
    ensures forall a :: IsBlock(p, a) <==> IsBlock(q, a)
    ensures forall a :: IsBlock(p, a) ==> IndexOf(p, a) == IndexOf(q, a)
  {
  }

  lemma GiveKeepsHeap(h: Heap, a: u32)
    requires HeapInv(h)
    ensures HeapInv(Step(h, Give(a)))
    ensures Free(h.p, a).1 <==> a in h.out
  {
    FreeKeepsInv(h.p, h.list, a);
    SameBlocks(h.p, Free(h.p, a).0);
    var h' := Step(h, Give(a));
    forall x ensures x in h'.out <==> IsBlock(h'.p, x) && h'.p.mask[IndexOf(h'.p, x)] {
      if IsBlock(h.p, x) && x != a && Free(h.p, a).1 {
        assert IndexOf(h.p, x) != IndexOf(h.p, a);
      }
    }
  }

  /** The pool as arena_init leaves it: every block free and linked to the next one. */
  predicate FreshPool(p: Pool) {
    && p.Shaped() && p.freeHead == (if p.n == 0 then 0 else p.base)
    && (forall k :: 0 <= k < p.n ==> p.Next(k) == if k + 1 < p.n then p.Addr(k + 1) else 0)
    && (forall i :: 0 <= i < MAX_BLOCKS ==> !p.mask[i]) && p.active == p.high == p.allocs == p.frees == 0
  }

  function InOrder(n: nat): (list: seq<nat>)
    ensures |list| == n && forall k :: 0 <= k < n ==> list[k] == k
  {
    seq(n, i => i)
  }

  lemma {:induction false} NoneSet(mask: seq<bool>)
    requires forall i :: 0 <= i < |mask| ==> !mask[i]
    ensures Ones(mask) == 0
  {
    if mask != [] {
      NoneSet(mask[..|mask| - 1]);
    }
  }

  /** A fresh pool is a heap with every block on its list and none handed out: where every run
      starts. */
  lemma FreshPoolIsHeap(p: Pool)
    requires FreshPool(p)
    ensures HeapInv(Heap(p, InOrder(p.n), {}))
  {
    var list := InOrder(p.n);
    NoneSet(p.mask);
    forall k | 0 <= k < p.n ensures k in list {
      assert list[k] == k;
    }
    assert Linked(p, list);
  }

  predicate AllowedRun(h: Heap, cs: seq<Call>)
    decreases |cs|
  {
    cs == [] || (Allowed(h, cs[0]) && AllowedRun(Step(h, cs[0]), cs[1..]))
  }

  function Run(h: Heap, cs: seq<Call>): Heap
    decreases |cs|
  {
    if cs == [] then h else Run(Step(h, cs[0]), cs[1..])
  }

  lemma StepKeepsHeap(h: Heap, c: Call)
    requires HeapInv(h) && Allowed(h, c)
    ensures HeapInv(Step(h, c))
  {
    match c {
      case Take => TakeKeepsHeap(h);
      case Give(a) => GiveKeepsHeap(h, a);
      case Put(i, w, v) =>
        StoreKeepsInv(h.p, h.list, i, w, v);
        SameBlocks(h.p, Store(h.p, i, w, v));
    }
  }

  /** While clients write only inside their blocks, the heap invariant survives every run, and
      the pool behaves as a set of blocks: allocation gives one not handed out, or null
      exactly when all are; a free is accepted exactly for an address handed out. */
  lemma {:induction false} EveryRunIsASet(h: Heap, cs: seq<Call>)
    requires HeapInv(h) && AllowedRun(h, cs)
    ensures var r := Run(h, cs);
            && HeapInv(r)
            && (Alloc(r.p).1 == 0 <==> r.p.active == r.p.n)
            && (Alloc(r.p).1 != 0 ==> Alloc(r.p).1 !in r.out)
            && (forall a: u32 :: Free(r.p, a).1 <==> a in r.out)
    decreases |cs|
  {
    if cs == [] {
      AllocKeepsInv(h.p, h.list);
      TakeKeepsHeap(h);
      forall a: u32 ensures Free(h.p, a).1 <==> a in h.out {
        GiveKeepsHeap(h, a);
      }
    } else {
      StepKeepsHeap(h, cs[0]);
      EveryRunIsASet(Step(h, cs[0]), cs[1..]);
    }
  }

  /** Two blocks handed out at the same time share no byte. */
  lemma HandedOutBlocksAreDisjoint(h: Heap, a: nat, b: nat)
    requires HeapInv(h) && a in h.out && b in h.out && a < b
    ensures a + h.p.size <= b && b + h.p.size <= h.p.base + Times(h.p.size, h.p.n)
  {
    var i, j := IndexOf(h.p, a), IndexOf(h.p, b);
    BlocksApart(h.p.size, i, j);
    BlocksApart(h.p.size, j, h.p.n);
  }

  // ---- The scratch arena -------------------------------------------------

  const SCRATCH_SIZE: int := 8192

  function Aligned(size: nat): nat {
    (size + 3) / 4 * 4
  }

  datatype Taken = Refused | At(offset: nat)

  /** arena_scratch_alloc on an arena filled up to off. */
  function ScratchAlloc(off: nat, size: u32): (nat, Taken) {
    if size == 0 then (off, Refused)
    else if size > SCRATCH_SIZE - off then (off, Refused)
    else if Aligned(size) > SCRATCH_SIZE - off then (off, Refused)
    else (off + Aligned(size), At(off))
  }

  function ScratchReset(off: nat, mark: u32): nat {
    if mark <= off && mark % 4 == 0 then mark else off
  }

  /** An allocation is word-aligned, fits, and is refused exactly when it is empty or longer
      than what is left: the check after rounding up never refuses what the first let pass. */
  lemma ScratchAllocExact(off: nat, size: u32)
    requires off % 4 == 0 && off <= SCRATCH_SIZE
    ensures var (off', t) := ScratchAlloc(off, size);
            && (t.Refused? <==> size == 0 || size > SCRATCH_SIZE - off)
            && (t.Refused? ==> off' == off)
            && (t.At? ==> t.offset == off && off + size <= off' < off + size + 4)
            && off' % 4 == 0 && off' <= SCRATCH_SIZE
  {
  }

  /** Stack use: allocations, and stretches between a mark and the reset to it. */
  datatype Use = Grab(size: u32) | Scope(body: seq<Use>)

  function RunUses(off: nat, uses: seq<Use>): nat
    decreases uses
  {
    if uses == [] then off
    else
      var u := uses[|uses| - 1];
      var before := RunUses(off, uses[..|uses| - 1]);
      match u
      case Grab(size) => ScratchAlloc(before, size).0
      case Scope(body) =>
        var after := RunUses(before, body);
        if before <= U32_MAX then ScratchReset(after, before) else after
  }

  /** Marks and resets nest: however deep, every reset is accepted and gives back exactly what
      was taken since its mark. */
  lemma {:induction false} ScopesGiveBack(off: nat, uses: seq<Use>)
    requires off % 4 == 0 && off <= SCRATCH_SIZE
    ensures var off' := RunUses(off, uses); off <= off' <= SCRATCH_SIZE && off' % 4 == 0
    ensures uses != [] && uses[|uses| - 1].Scope? ==> RunUses(off, uses) == RunUses(off, uses[..|uses| - 1])
    decreases uses
  {
    if uses != [] {
      var before := RunUses(off, uses[..|uses| - 1]);
      ScopesGiveBack(off, uses[..|uses| - 1]);
      match uses[|uses| - 1] {
        case Grab(size) => ScratchAllocExact(before, size);
        case Scope(body) => ScopesGiveBack(before, body);
      }
    }
  }
}
