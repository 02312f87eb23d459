/** The bump allocator: alignment by bit masks, and blocks that never overlap. */
module BumpHeap {
  import opened Util

  // ---------- bit masks ----------

  /** Bitwise and. */
  function And(x: nat, y: nat): nat
    decreases x
  {
    if x == 0 || y == 0 then 0 else 2 * And(x / 2, y / 2) + (x % 2) * (y % 2)
  }

  /** Bitwise complement of a 64-bit word. */
  function Not64(x: u64): u64 { TWO_64 - 1 - x }

  /** A mask of k ones keeps the remainder modulo 2^k. */
  lemma {:induction false} AndMask(x: nat, k: nat)
    ensures And(x, Pow(2, k) - 1) == x % Pow(2, k)
    decreases k
  {
    if k == 0 {
      assert Pow(2, 0) == 1;
    } else {
      var m := Pow(2, k - 1);
      assert Pow(2, k) == 2 * m;
      AndMask(x / 2, k - 1);
      assert x % Pow(2, k) == x / 2 % m * 2 + x % 2 by { ModStep(x, 2, k - 1); }
      hide *;
      OddAnd(x, m);
    }
  }

  lemma OddAnd(x: nat, m: nat)
    requires m >= 1
    ensures And(x, 2 * m - 1) == 2 * And(x / 2, m - 1) + x % 2
  {
    var y := 2 * m - 1;
    assert y / 2 == m - 1 && y % 2 == 1;
  }

  /** The complement of that mask, in a word of n bits, takes the remainder away. */
  lemma {:induction false} AndHighMask(x: nat, n: nat, k: nat)
    requires k <= n && x < Pow(2, n)
    ensures Pow(2, k) <= Pow(2, n) && And(x, Pow(2, n) - Pow(2, k)) == x - x % Pow(2, k)
    decreases k
  {
    PowMonotone(2, k, n);
    if k == 0 {
      AndAllOnes(x, n);
    } else {
      var m, h := Pow(2, k - 1), Pow(2, n - 1);
      assert Pow(2, k) == 2 * m && Pow(2, n) == 2 * h;
      AndHighMask(x / 2, n - 1, k - 1);
      assert x % Pow(2, k) == x / 2 % m * 2 + x % 2 by { ModStep(x, 2, k - 1); }
      hide *;
      HighMaskStep(x, h, m, x / 2 % m);
    }
  }

  lemma HighMaskStep(x: nat, h: nat, m: nat, rest: nat)
    requires m <= h && And(x / 2, h - m) == x / 2 - rest
    ensures And(x, 2 * h - 2 * m) == x - (rest * 2 + x % 2)
  {
    HalvesAnd(x, h, m);
    hide And;
    LastBit(x, rest);
  }

  lemma AndAllOnes(x: nat, n: nat)
    requires x < Pow(2, n)
    ensures And(x, Pow(2, n) - Pow(2, 0)) == x - x % Pow(2, 0)
  {
    assert Pow(2, 0) == 1;
    AndMask(x, n);
    DivModUnique(x, Pow(2, n), 0, x);
  }

  lemma LastBit(x: nat, r: nat)
    ensures 2 * (x / 2 - r) == x - (r * 2 + x % 2)
  {}

  lemma HalvesAnd(x: nat, h: nat, m: nat)
    requires m <= h
    ensures And(x, 2 * h - 2 * m) == 2 * And(x / 2, h - m)
  {
    var y := 2 * h - 2 * m;
    assert y / 2 == h - m && y % 2 == 0;
  }

  lemma Pow64()
    ensures Pow(2, 64) == TWO_64
  {
    assert Pow(2, 4) == 2 * (2 * (2 * (2 * Pow(2, 0)))) == 16;
    PowAdd(2, 4, 4);
    PowAdd(2, 8, 8);
    PowAdd(2, 16, 16);
    PowAdd(2, 32, 32);
  }

  predicate PowerOfTwo(a: nat) { exists k: nat :: k < 64 && Pow(2, k) == a }

  /** `x` rounded up to a multiple of `a`. */
  function AlignUp(x: nat, a: nat): (r: nat)
    requires a > 0
  {
    if x % a == 0 then x else x - x % a + a
  }

  /** Rounding up gives the least multiple that is not smaller. */
  lemma AlignUpLeast(x: nat, a: nat)
    requires a > 0
    ensures AlignUp(x, a) % a == 0 && x <= AlignUp(x, a) < x + a
    ensures forall y: nat :: x <= y && y % a == 0 ==> AlignUp(x, a) <= y
  {
    var q := x / a;
    assert x == q * a + x % a;
    var qr := if x % a == 0 then q else q + 1;
    assert AlignUp(x, a) == qr * a by { assert (q + 1) * a == q * a + a; }
    DivModUnique(AlignUp(x, a), a, qr, 0);
    forall y: nat | x <= y && y % a == 0
      ensures AlignUp(x, a) <= y
    {
      NoMultipleBetween(qr, y / a, a);
    }
  }

  /** A multiple above (q - 1) * a is at least q * a. */
  lemma NoMultipleBetween(q: nat, p: nat, a: nat)
    requires (q - 1) * a < p * a
    ensures q * a <= p * a
  {
    if p < q {
      MulLe(p, q - 1, a);
      assert false;
    } else {
      MulLe(q, p, a);
    }
  }

  // ---------- the allocator ----------

  /** The address `balloc_aligned` returns and the base it leaves, in 64-bit arithmetic. */
  function Balloc(base: u64, count: u64, alignment: nat): (r: (u64, u64))
    requires alignment > 0
  {
    var addr := AlignUp(base, alignment) % TWO_64;
    (addr, (addr + count) % TWO_64)
  }

  class Heap {
    /** `bump_allocator_base` */
    var base: u64

    constructor ()
      ensures base == 0x1000000
    {
      base := 0x1000000;
    }

    /** The masks compute rounding up, for every power of two. */
    method BallocAligned(count: u64, alignment: u64) returns (addr: u64)
      requires PowerOfTwo(alignment)
      modifies this
      ensures (addr, base) == Balloc(old(base), count, alignment)
    {
      MaskedBalloc(base, count, alignment);
      hide *;
      var newBase := base;
      if And(newBase, alignment - 1) != 0 {
        newBase := And(newBase, Not64(alignment - 1));
        newBase := (newBase + alignment) % TWO_64;
      }
      addr := newBase;
      base := (newBase + count) % TWO_64;
    }

    method Malloc(count: u64) returns (addr: u64)
      modifies this
      ensures (addr, base) == Balloc(old(base), count, 4)
    {
      assert Pow(2, 2) == 2 * (2 * Pow(2, 0)) == 4;
      addr := BallocAligned(count, 4);
    }

    /** Releasing memory does nothing. */
    method Free(ptr: u64)
      ensures base == old(base)
    {}
  }

  lemma WordMod(x: u64)
    ensures x % TWO_64 == x
  {
    DivModUnique(x, TWO_64, 0, x);
  }

  /** Rounding up in mask arithmetic. */
  lemma MaskedBalloc(base: u64, count: u64, alignment: u64)
    requires PowerOfTwo(alignment)
    ensures alignment > 0
    ensures var rest := And(base, alignment - 1);
      var addr := if rest != 0 then (And(base, Not64(alignment - 1)) + alignment) % TWO_64 else base;
      Balloc(base, count, alignment) == (addr, (addr + count) % TWO_64)
  {
    ghost var k: nat :| k < 64 && Pow(2, k) == alignment;
    MaskFacts(base, k);
    WordMod(base);
  }

  lemma MaskFacts(x: u64, k: nat)
    requires k < 64
    ensures var a := Pow(2, k);
      && a < TWO_64 && And(x, a - 1) == x % a
      && And(x, Not64(a - 1)) == x - x % a
  {
    Pow64();
    PowMonotone(2, k, 63);
    assert Pow(2, 64) == 2 * Pow(2, 63);
    AndMask(x, k);
    AndHighMask(x, 64, k);
  }

  // ---------- whole runs ----------

  datatype Block = Block(addr: u64, size: u64)

  predicate Disjoint(a: Block, b: Block) { a.addr + a.size <= b.addr || b.addr + b.size <= a.addr }

  datatype Request = Alloc(count: u64) | Release(ptr: u64)

  /** Blocks returned, in order, and the base left, by a run of calls to `malloc` and `free`. */
  function Blocks(base: u64, requests: seq<Request>): (bs: seq<Block>)
    ensures |bs| == Calls(requests)
    decreases |requests|
  {
    if requests == [] then []
    else if requests[0].Release? then Blocks(base, requests[1..])
    else
      var (addr, base') := Balloc(base, requests[0].count, 4);
      [Block(addr, requests[0].count)] + Blocks(base', requests[1..])
  }

  function BaseAfter(base: u64, requests: seq<Request>): u64
    decreases |requests|
  {
    if requests == [] then base
    else if requests[0].Release? then BaseAfter(base, requests[1..])
    else BaseAfter(Balloc(base, requests[0].count, 4).1, requests[1..])
  }

  function Total(requests: seq<Request>): nat {
    if requests == [] then 0 else Total(requests[1..]) + if requests[0].Alloc? then requests[0].count else 0
  }

  function Calls(requests: seq<Request>): nat {
    if requests == [] then 0 else Calls(requests[1..]) + if requests[0].Alloc? then 1 else 0
  }

  /** The requests cannot run past the end of the address space. */
  predicate NoOverflow(base: u64, requests: seq<Request>) { base + Total(requests) + 3 * Calls(requests) < TWO_64 }

  lemma BallocExact(base: u64, count: u64)
    requires base + count + 3 < TWO_64
    ensures var (addr, base') := Balloc(base, count, 4);
      addr % 4 == 0 && base <= addr <= base + 3 && base' == addr + count
  {
    AlignUpLeast(base, 4);
    WordMod(AlignUp(base, 4));
    WordMod(AlignUp(base, 4) + count);
  }

  /** 4-aligned blocks, one after another, from `lo` to `hi`. */
  ghost predicate Ordered(bs: seq<Block>, lo: nat, hi: nat) {
    && (forall i :: 0 <= i < |bs| ==> bs[i].addr % 4 == 0 && lo <= bs[i].addr && bs[i].addr + bs[i].size <= hi)
    && (forall i, j :: 0 <= i < j < |bs| ==> bs[i].addr + bs[i].size <= bs[j].addr)
  }

  lemma OrderedCons(b: Block, bs: seq<Block>, lo: nat, mid: nat, hi: nat)
    requires b.addr % 4 == 0 && lo <= b.addr && b.addr + b.size <= mid <= hi && Ordered(bs, mid, hi)
    ensures Ordered([b] + bs, lo, hi)
  {
    var all := [b] + bs;
    assert forall i :: 1 <= i < |all| ==> all[i] == bs[i - 1];
  }

  lemma OrderedDisjoint(bs: seq<Block>, lo: nat, hi: nat, i: nat, j: nat)
    requires Ordered(bs, lo, hi) && i < |bs| && j < |bs|
    ensures bs[i].addr + bs[i].size <= hi && (i != j ==> Disjoint(bs[i], bs[j]))
  {}

  /**
   Main result: whatever is freed, all blocks are 4-aligned and lie one after another between the old
   base and the new one, which has moved by the total requested and less than 4 bytes a call.
   */
  lemma {:induction false} BlocksOrdered(base: u64, requests: seq<Request>)
    requires NoOverflow(base, requests)
    ensures Ordered(Blocks(base, requests), base, BaseAfter(base, requests))
    ensures base + Total(requests) <= BaseAfter(base, requests) <= base + Total(requests) + 3 * Calls(requests)
    decreases |requests|
  {
    hide Ordered, Balloc;
    if requests == [] {
      NothingOrdered(base);
    } else if requests[0].Release? {
      BlocksOrdered(base, requests[1..]);
    } else {
      var (addr, base') := Balloc(base, requests[0].count, 4);
      BallocExact(base, requests[0].count);
      BlocksOrdered(base', requests[1..]);
      OrderedCons(Block(addr, requests[0].count), Blocks(base', requests[1..]), base, base',
        BaseAfter(base', requests[1..]));
    }
  }

  lemma NothingOrdered(base: nat)
    ensures Ordered([], base, base)
  {}
}
