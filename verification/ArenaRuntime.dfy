// The pools and the scratch arena as they run (src/arena.c): memory words, masks and
// counters changed in place. Each method is tied to the functions of Arena.

module ArenaRuntime {
  import opened Words
  import opened Arena

  class BlockPool {
    const base: nat
    const size: BlockSize
    const n: nat
    const mem: array<u32>
    var freeHead: u32
    var mask: seq<bool>
    var active: u32
    var high: u32
    var allocs: u32
    var frees: u32

    ghost function Abs(): Pool
      reads this, mem
    {
      Pool(base, size, n, mem[..], freeHead, mask, active, high, allocs, frees)
    }

    /** arena_init_pool_instance: every block on the list, in address order. */
    constructor (base: nat, size: BlockSize, n: nat)
      requires n <= MAX_BLOCKS && 0 < base && base + Times(size, n) <= U32_MAX
      ensures fresh(mem) && this.base == base && this.size == size && this.n == n
      ensures HeapInv(Heap(Abs(), InOrder(n), {}))
    {
      this.base, this.size, this.n := base, size, n;
      mem := new u32[Word(size, n)](_ => 0);
      freeHead, mask := 0, [false, false, false, false, false, false, false, false,
                            false, false, false, false, false, false, false, false,
                            false, false, false, false, false, false, false, false,
                            false, false, false, false, false, false, false, false];
      active, high, allocs, frees := 0, 0, 0, 0;
      new;
      LinkAll();
    }

    method LinkAll()
      requires Abs().Shaped() && mask == seq(MAX_BLOCKS, _ => false)
      requires freeHead == 0 && active == high == allocs == frees == 0
      modifies `freeHead, mem
      ensures HeapInv(Heap(Abs(), InOrder(n), {}))
    {
      if n > 0 {
        var i := 0;
        while i < n - 1
          invariant i <= n - 1
          invariant forall k :: 0 <= k < i ==> mem[Word(size, k)] == base + Times(size, k + 1)
        {
          mem[Word(size, i)] := base + Times(size, i + 1);
          i := i + 1;
        }
        mem[Word(size, n - 1)] := 0;
        freeHead := base;
      }
      ghost var p := Abs();
      forall k | 0 <= k < n ensures p.Next(k) == if k + 1 < n then p.Addr(k + 1) else 0 {
        assert p.mem[Word(size, k)] == mem[Word(size, k)];
      }
      FreshPoolIsHeap(p);
    }

    method AllocBlock() returns (a: u32)
      requires Abs().Shaped()
      modifies this, mem
      ensures Abs().Shaped() && (Abs(), a) == Alloc(old(Abs()))
    {
      if n == 0 || freeHead == 0 {
        return 0;
      }
      a := freeHead;
      ghost var p := Abs();
      if a < base || a >= base + Times(size, n) || Rem(size, a - base) != 0 {
        freeHead := 0;
        return 0;
      }
      var idx := Div(size, a - base);
      assert IsBlock(p, a) && idx == IndexOf(p, a);
      if mask[idx] {
        freeHead := 0;
        return 0;
      }
      freeHead := mem[Word(size, idx)];
      mask := mask[idx := true];
      active := Add32(active, 1);
      if active > high {
        high := active;
      }
      allocs := Add32(allocs, 1);
      ClearBlock(idx);
      assert mem[..] == Zeroed(p, idx);
    }

    method ClearBlock(idx: nat)
      requires Abs().Shaped() && idx < n
      modifies mem
      ensures forall j :: 0 <= j < mem.Length ==>
                mem[j] == if Word(size, idx) <= j < Word(size, idx + 1) then 0 else old(mem[j])
    {
      var w := Word(size, idx);
      while w < Word(size, idx + 1)
        invariant Word(size, idx) <= w <= Word(size, idx + 1)
        invariant forall j :: 0 <= j < mem.Length ==>
                    mem[j] == if Word(size, idx) <= j < w then 0 else old(mem[j])
      {
        mem[w] := 0;
        w := w + 1;
      }
    }

    method FreeBlock(a: u32) returns (ok: bool)
      requires Abs().Shaped()
      modifies this, mem
      ensures Abs().Shaped() && (Abs(), ok) == Free(old(Abs()), a)
    {
      ghost var p := Abs();
      if a < base || a >= base + Times(size, n) || Rem(size, a - base) != 0 {
        return false;
      }
      var idx := Div(size, a - base);
      assert IsBlock(p, a) && idx == IndexOf(p, a);
      if !mask[idx] {
        return false;
      }
      mask := mask[idx := false];
      mem[Word(size, idx)] := freeHead;
      freeHead := a;
      if active > 0 {
        active := active - 1;
      }
      frees := Add32(frees, 1);
      assert mem[..] == p.mem[Word(p.size, idx) := p.freeHead];
      return true;
    }
  }

  /** Both pools, at addresses that do not overlap, and the scratch arena. */
  class Allocator {
    const small: BlockPool
    const medium: BlockPool
    var offset: nat
    var highScratch: nat
    var scratchAllocs: u32
    var scratchResets: u32

    ghost predicate Valid()
      reads this, small, small.mem, medium, medium.mem
    {
      && small != medium && small.mem != medium.mem
      && small.Abs().Shaped() && medium.Abs().Shaped() && small.size == 64 && medium.size == 256
      && (small.base + Times(64, small.n) <= medium.base || medium.base + Times(256, medium.n) <= small.base)
      && offset <= highScratch <= SCRATCH_SIZE && offset % 4 == 0
    }

    /** arena_init, for pools of the sizes the build profile sets. */
    constructor (smallBase: nat, smallCount: nat, mediumBase: nat, mediumCount: nat)
      requires smallCount <= MAX_BLOCKS && 0 < smallBase && smallBase + Times(64, smallCount) <= mediumBase
      requires mediumCount <= MAX_BLOCKS && mediumBase + Times(256, mediumCount) <= U32_MAX
      ensures Valid() && fresh(small) && fresh(small.mem) && fresh(medium) && fresh(medium.mem)
      ensures HeapInv(Heap(small.Abs(), InOrder(smallCount), {}))
      ensures HeapInv(Heap(medium.Abs(), InOrder(mediumCount), {}))
      ensures offset == 0
    {
      small := new BlockPool(smallBase, 64, smallCount);
      medium := new BlockPool(mediumBase, 256, mediumCount);
      offset, highScratch, scratchAllocs, scratchResets := 0, 0, 0, 0;
    }

    /** The smallest pool that fits, or null. */
    method AllocSize(bytes: u32) returns (a: u32)
      requires Valid()
      modifies small, small.mem, medium, medium.mem
      ensures Valid()
      ensures 0 < bytes <= 64 ==>
                (small.Abs(), a) == Alloc(old(small.Abs())) && medium.Abs() == old(medium.Abs())
      ensures 64 < bytes <= 256 ==>
                (medium.Abs(), a) == Alloc(old(medium.Abs())) && small.Abs() == old(small.Abs())
      ensures bytes == 0 || bytes > 256 ==>
                a == 0 && small.Abs() == old(small.Abs()) && medium.Abs() == old(medium.Abs())
    {
      hide Alloc;
      a := 0;
      if bytes == 0 {
        return;
      }
      if bytes <= 64 {
        a := small.AllocBlock();
      } else if bytes <= 256 {
        a := medium.AllocBlock();
      }
    }

    /** Any pointer: whichever pool it belongs to decides, and a foreign one is refused. */
    method FreePtr(a: u32) returns (ok: bool)
      requires Valid()
      modifies small, small.mem, medium, medium.mem
      ensures Valid()
      ensures small.Abs() == Free(old(small.Abs()), a).0 && medium.Abs() == Free(old(medium.Abs()), a).0
      ensures ok == (Free(old(small.Abs()), a).1 || Free(old(medium.Abs()), a).1)
    {
      if small.n > 0 && small.base <= a < small.base + Times(64, small.n) {
        ok := small.FreeBlock(a);
      } else if medium.n > 0 && medium.base <= a < medium.base + Times(256, medium.n) {
        ok := medium.FreeBlock(a);
      } else {
        ok := false;
      }
    }

    /** Refused exactly when empty or longer than what is left; otherwise a word-aligned piece
        that starts where the arena was filled to, and wastes less than a word. */
    method Scratch(bytes: u32) returns (t: Taken)
      requires Valid()
      modifies `offset, `highScratch, `scratchAllocs
      ensures Valid() && (offset, t) == ScratchAlloc(old(offset), bytes)
      ensures t.Refused? <==> bytes == 0 || bytes > SCRATCH_SIZE - old(offset)
      ensures t.Refused? ==> offset == old(offset)
      ensures t.At? ==> t.offset == old(offset) && t.offset % 4 == 0
      ensures t.At? ==> t.offset + bytes <= offset < t.offset + bytes + 4
      ensures highScratch == if offset > old(highScratch) then offset else old(highScratch)
    {
      ScratchAllocExact(offset, bytes);
      if bytes == 0 || bytes > SCRATCH_SIZE - offset {
        return Refused;
      }
      var aligned := Aligned(bytes);
      if aligned > SCRATCH_SIZE - offset {
        return Refused;
      }
      t := At(offset);
      offset := offset + aligned;
      if offset > highScratch {
        highScratch := offset;
      }
      scratchAllocs := Add32(scratchAllocs, 1);
    }

    /** Whatever is taken from now on, resetting to this mark gives back all of it. */
    method Mark() returns (mark: u32)
      requires Valid()
      ensures forall later: nat :: later >= offset ==> ScratchReset(later, mark) == offset
    {
      mark := offset;
    }

    /** Gives back what was taken since the mark, and never makes the arena fuller: a mark that
        is ahead or not word-aligned is ignored and not counted. */
    method Reset(mark: u32)
      requires Valid()
      modifies `offset, `scratchResets
      ensures Valid() && offset == ScratchReset(old(offset), mark)
      ensures offset <= old(offset) && (offset != mark ==> offset == old(offset))
      ensures offset == mark <==> mark <= old(offset) && mark % 4 == 0
      ensures scratchResets == if offset == mark then Add32(old(scratchResets), 1) else old(scratchResets)
    {
      if mark <= offset && mark % 4 == 0 {
        offset := mark;
        scratchResets := Add32(scratchResets, 1);
      }
    }
  }
}
