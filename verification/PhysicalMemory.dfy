/** Block descriptors for physical memory and the allocator that hands blocks out in order. */
module PhysicalMemory {
  import opened Util

  const BLOCK_SIZE := 4096
  const USABLE := 1

  /** `KSYSTEM_MEMORY`: the two ends as pointers and as plain 32-bit addresses. */
  datatype Descriptor = Descriptor(
    beginPointer: u64, endPointer: u64, begin: u32, end: u32, isUsed: bool, blockID: nat)

  /** An entry of the boot loader's memory map. */
  datatype Region = Region(kind: nat, length: u64)

  /** The usable bytes, summed in 32 bits. */
  function UsableBytes(regions: seq<Region>): u32 {
    if regions == [] then 0
    else
      var last := regions[|regions| - 1];
      (UsableBytes(regions[..|regions| - 1]) + if last.kind == USABLE then last.length else 0) % TWO_32
  }

  /** The number of descriptors made: one even when there is no usable memory. */
  function BlockCount(regions: seq<Region>): nat { Max(1, UsableBytes(regions) / BLOCK_SIZE) }

  /** Only entries of kind 1 count, and memory maps add up, modulo 2^32. */
  lemma {:induction false} UsableAdds(a: seq<Region>, b: seq<Region>)
    ensures UsableBytes(a + b) == (UsableBytes(a) + UsableBytes(b)) % TWO_32
    decreases |b|
  {
    if b == [] {
      assert a + b == a;
      KeepsWord(UsableBytes(a));
    } else {
      var n := |b| - 1;
      var more := if b[n].kind == USABLE then b[n].length else 0;
      assert (a + b)[..|a| + n] == a + b[..n];
      UsableAdds(a, b[..n]);
      AddsWords(UsableBytes(a), UsableBytes(b[..n]), more);
    }
  }

  lemma AddsWords(x: nat, y: nat, z: nat)
    ensures ((x + y) % TWO_32 + z) % TWO_32 == (x + (y + z) % TWO_32) % TWO_32
  {
    var s := x + y + z;
    var r := ((x + y) % TWO_32 + z) % TWO_32;
    DivModUnique(s, TWO_32, (x + y) / TWO_32 + ((x + y) % TWO_32 + z) / TWO_32, r);
    var t := (x + (y + z) % TWO_32) % TWO_32;
    DivModUnique(s, TWO_32, (y + z) / TWO_32 + (x + (y + z) % TWO_32) / TWO_32, t);
  }

  lemma UsableOne(r: Region)
    ensures UsableBytes([r]) == if r.kind == 1 then r.length % TWO_32 else 0
  {
    assert [r][..0] == [];
    KeepsWord(0);
    KeepsWord(r.length % TWO_32);
  }

  /** As many whole blocks of 4096 bytes as the usable memory holds, but one where it holds none. */
  lemma BlocksFit(regions: seq<Region>)
    ensures var n := BlockCount(regions);
      && UsableBytes(regions) < 4096 * (n + 1) && (UsableBytes(regions) >= 4096 ==> 4096 * n <= UsableBytes(regions))
      && (UsableBytes(regions) < 4096 ==> n == 1)
  {}

  /** The address `n` blocks past `start`, in 32 bits. */
  function BlockAddress(start: u32, n: nat): u32 { (start + BLOCK_SIZE * n) % TWO_32 }

  /**
   What `SET_BLOCK` fills in. Its cast binds to the first operand of the end address, so the end pointer
   is moved by as many 4-byte words as the block has bytes.
   */
  function NewDescriptor(begin: u32, id: nat): Descriptor {
    Descriptor(begin, begin + 4 * BLOCK_SIZE, begin, (begin + BLOCK_SIZE) % TWO_32, false, id)
  }

  /** The descriptor of the k-th block after the start address. */
  function BlockDescriptor(start: u32, k: nat): Descriptor { NewDescriptor(BlockAddress(start, k), k) }

  /** It covers exactly that block by its plain addresses, and never by its pointers. */
  lemma DescriptorCovers(start: u32, k: nat)
    ensures var d := BlockDescriptor(start, k);
      && d.begin == d.beginPointer == BlockAddress(start, k) && d.end == BlockAddress(start, k + 1)
      && d.endPointer == d.begin + 16384 && d.endPointer != d.end && (d.end - d.begin) % TWO_32 == BLOCK_SIZE
  {
    NextAddress(start, k);
    var d := BlockDescriptor(start, k);
    if d.begin + BLOCK_SIZE < TWO_32 {
      KeepsWord(d.begin + BLOCK_SIZE);
      KeepsWord(BLOCK_SIZE);
    } else {
      DivModUnique(d.begin + BLOCK_SIZE, TWO_32, 1, d.begin + BLOCK_SIZE - TWO_32);
      DivModUnique(BLOCK_SIZE - TWO_32, TWO_32, -1, BLOCK_SIZE);
    }
  }

  function FirstUnused(ds: seq<Descriptor>): (i: nat)
    ensures i <= |ds| && (i < |ds| ==> !ds[i].isUsed) && forall k :: 0 <= k < i ==> ds[k].isUsed
  {
    if ds == [] || !ds[0].isUsed then 0 else 1 + FirstUnused(ds[1..])
  }

  function Sum(bs: seq<nat>): nat {
    if bs == [] then 0 else Sum(bs[..|bs| - 1]) + bs[|bs| - 1]
  }

  class BlockMap {
    /** `MiMemoryMap`, kept apart from the memory it describes. */
    const memoryMap: array<Descriptor>
    /** `MiCurrentBlockID` */
    var current: nat
    /** `MiLastAddress` */
    var last: u32

    constructor (room: nat)
      ensures fresh(memoryMap) && memoryMap.Length == room && current == 0 && last == 0
    {
      memoryMap := new Descriptor[room](_ => Descriptor(0, 0, 0, 0, false, 0));
      current, last := 0, 0;
    }

    /** The SET_BLOCK macro on the next descriptor, for the block that begins at an address. */
    method SetBlock(begin: u32)
      requires current < memoryMap.Length
      modifies this`current, memoryMap
      ensures current == old(current) + 1
      ensures memoryMap[old(current)] == NewDescriptor(begin, old(current))
      ensures forall k :: 0 <= k < memoryMap.Length && k != old(current) ==> memoryMap[k] == old(memoryMap[k])
    {
      memoryMap[current] :=
        Descriptor(begin, begin + 4 * BLOCK_SIZE, begin, (begin + BLOCK_SIZE) % TWO_32, false, current);
      current := current + 1;
    }

    /** Descriptor k is that of the k-th block after the start address, and all are unused. */
    method MiInitializeBlocks(regions: seq<Region>, start: u32)
      requires current == 0 && BlockCount(regions) < memoryMap.Length
      modifies this`current, memoryMap
      ensures current == BlockCount(regions)
      ensures forall k :: 0 <= k < current ==> memoryMap[k] == BlockDescriptor(start, k)
    {
      AddressZero(start);
      SetBlock(start);
      var entries := 0;
      for i := 0 to |regions|
        invariant entries == UsableBytes(regions[..i])
        invariant current == 1 && memoryMap[0] == NewDescriptor(start, 0)
      {
        assert regions[..i + 1][..i] == regions[..i];
        if regions[i].kind == USABLE {
          entries := (entries + regions[i].length) % TWO_32;
        } else {
          KeepsWord(entries);
        }
      }
      assert regions[..|regions|] == regions;
      var i := 1;
      while i < entries / BLOCK_SIZE
        invariant i == current && 1 <= i <= BlockCount(regions)
        invariant forall k :: 0 <= k < i ==> memoryMap[k] == BlockDescriptor(start, k)
      {
        NextAddress(start, i - 1);
        assert memoryMap[i - 1] == BlockDescriptor(start, i - 1);
        SetBlock(memoryMap[current - 1].end);
        i := i + 1;
      }
    }

    /** The lowest unused descriptor whatever block was asked for, or the slot past the table if all are used. */
    method MiAccessBlock(block: nat) returns (d: Descriptor)
      requires current < memoryMap.Length
      ensures d == memoryMap[FirstUnused(memoryMap[..current])]
    {
      var index := 0;
      d := memoryMap[index];
      while d.isUsed && d.blockID != block && index < current
        invariant 0 <= index <= current && d == memoryMap[if index == 0 then 0 else index - 1]
        invariant forall k :: 0 <= k < index - 1 ==> memoryMap[k].isUsed
        decreases current - index
      {
        d := memoryMap[index];
        index := index + 1;
      }
      if d.isUsed {
        while d.isUsed && index < current
          invariant 0 <= index <= current && d == memoryMap[if index == 0 then 0 else index - 1]
          invariant forall k :: 0 <= k < index - 1 ==> memoryMap[k].isUsed
          decreases current - index
        {
          d := memoryMap[index];
          index := index + 1;
        }
        if !d.isUsed {
          FirstUnusedIs(memoryMap[..current], index - 1);
          return;
        }
        FirstUnusedIs(memoryMap[..current], current);
        return memoryMap[current];
      }
      FirstUnusedIs(memoryMap[..current], if index == 0 then 0 else index - 1);
    }

    /** The descriptors of the blocks from `start` on, the first `used` of them handed out. */
    ghost predicate Valid(start: u32, used: nat)
      reads this, memoryMap
    {
      && 1 <= current < memoryMap.Length && used <= current
      && (forall k :: 0 <= k < current ==> memoryMap[k] == BlockDescriptor(start, k).(isUsed := k < used))
    }

    /** Where the next range begins; a last address of zero is taken for none. */
    function Base(): u32
      requires memoryMap.Length > 0
      reads this, memoryMap
    {
      if last == 0 then memoryMap[0].begin else last
    }

    /** The last address is where the blocks handed out end. */
    ghost predicate Tracks(start: u32, used: nat)
      reads this
    {
      last == BlockAddress(start, used) || (last == 0 && used == 0)
    }

    /**
     Takes the next blocks in order and returns the address as many blocks past the base, in 32 bits. A
     request for more blocks than are left searches past the last descriptor, and so out of this model.
     */
    method MmAllocPhysicalMemory(blocks: nat, ghost start: u32, ghost used: nat) returns (addr: Option<u32>)
      requires Valid(start, used)
      modifies this`last, memoryMap
      ensures addr.None? <==> used + blocks > current
      ensures Valid(start, Min(used + blocks, current))
      ensures addr.Some? ==> addr.value == BlockAddress(old(Base()), blocks) && last == addr.value
    {
      ghost var base := Base();
      AddressZero(base);
      var a := if last == 0 then memoryMap[0].begin else last;
      var index, total := 0, 0;
      while total < blocks
        invariant 0 <= total <= blocks && 0 <= index <= used + total <= current
        invariant a == BlockAddress(base, total) && Valid(start, used + total)
        decreases (blocks - total) + (current - index)
      {
        if index == current {
          return None;
        }
        if memoryMap[index].isUsed {
          index := index + 1;
        } else {
          DescriptorCovers(start, index);
          NextAddress(base, total);
          var val := (memoryMap[index].end - memoryMap[index].begin) % TWO_32;
          a := (a + val) % TWO_32;
          memoryMap[index] := memoryMap[index].(isUsed := true);
          total := total + 1;
        }
      }
      last := a;
      addr := Some(a);
    }

    /**
     While the last address is tracked, a range ends where its blocks do if and only if the address before
     it was not a zero that earlier blocks had wrapped round to.
     */
    lemma EndsRightIff(start: u32, used: nat, blocks: nat)
      requires Valid(start, used) && Tracks(start, used)
      ensures BlockAddress(Base(), blocks) == BlockAddress(start, used + blocks)
        <==> last != 0 || used == 0 || start == 0
    {
      AddressZero(start);
      assert memoryMap[0].begin == start;
      AddressAdd(start, used, blocks);
      if BlockAddress(Base(), blocks) == BlockAddress(start, used + blocks) {
        AddressInjective(Base(), BlockAddress(start, used), blocks);
      }
    }

    /**
     Main result: call k returns the end of its blocks, for all k, if and only if no range before the last
     ends at a zero it wrapped round to; and in order, whatever the addresses.
     */
    method Allocations(bs: seq<nat>, ghost start: u32) returns (addrs: seq<u32>)
      requires Valid(start, 0) && last == 0 && Sum(bs) <= current
      modifies this`last, memoryMap
      ensures |addrs| == |bs| && Valid(start, Sum(bs))
      ensures EndAll(addrs, start, bs) <==> NoZeroBetween(start, bs, |bs|)
      ensures start + BLOCK_SIZE * Sum(bs) < TWO_32 ==> Tiled(addrs, start, bs)
    {
      addrs := [];
      for k := 0 to |bs|
        invariant |addrs| == k && Valid(start, Sum(bs[..k])) && current == old(current)
        invariant NoZeroBetween(start, bs, k) ==> EndAll(addrs, start, bs) && Tracks(start, Sum(bs[..k]))
        invariant EndAll(addrs, start, bs) ==> NoZeroBetween(start, bs, k)
      {
        SumSnoc(bs, k);
        SumPrefix(bs, k + 1);
        ghost var used, before := Sum(bs[..k]), addrs;
        ghost var right := EndAll(addrs, start, bs);
        if right { EndsRightIff(start, used, bs[k]); }
        ghost var zero := last == 0 && used != 0 && start != 0;
        assert right ==> (zero <==> ZeroBefore(start, bs, k));
        var addr := MmAllocPhysicalMemory(bs[k], start, used);
        addrs := addrs + [addr.value];
        EndAllSnoc(before, addr.value, start, bs);
      }
      assert bs[..|bs|] == bs;
      if start + BLOCK_SIZE * Sum(bs) < TWO_32 {
        NeverZero(start, bs);
        AddressesTile(addrs, start, bs);
      }
    }

    /** With some block left, the one found is numbered by what was allocated. */
    method NextBlock(block: nat, ghost start: u32, ghost used: nat) returns (d: Descriptor)
      requires Valid(start, used) && used < current
      ensures d == BlockDescriptor(start, used)
    {
      d := MiAccessBlock(block);
      ghost var ds := memoryMap[..current];
      assert forall k :: 0 <= k < current ==> ds[k] == memoryMap[k];
      FirstUnusedIs(ds, used);
    }
  }

  lemma KeepsWord(x: u32)
    ensures x % TWO_32 == x
  {
    DivModUnique(x, TWO_32, 0, x);
  }

  lemma AddressZero(start: u32)
    ensures BlockAddress(start, 0) == start && BlockAddress(start, 1) == (start + BLOCK_SIZE) % TWO_32
  {
    KeepsWord(start);
  }

  lemma AddressAdd(start: u32, m: nat, n: nat)
    ensures BlockAddress(BlockAddress(start, m), n) == BlockAddress(start, m + n)
  {
    var x, y := start + BLOCK_SIZE * m, BLOCK_SIZE * n;
    DivModUnique(x + y, TWO_32, x / TWO_32 + (x % TWO_32 + y) / TWO_32, (x % TWO_32 + y) % TWO_32);
  }

  lemma AddressInjective(a: u32, b: u32, n: nat)
    requires BlockAddress(a, n) == BlockAddress(b, n)
    ensures a == b
  {
    var (x, y) := (a + BLOCK_SIZE * n, b + BLOCK_SIZE * n);
    var k := x / TWO_32 - y / TWO_32;
    assert a - b == k * TWO_32;
  }

  /** The first k calls: before call k some block was taken and the address wrapped round to zero. */
  predicate ZeroBefore(start: u32, bs: seq<nat>, k: nat)
    requires k <= |bs|
  {
    Sum(bs[..k]) > 0 && start != 0 && BlockAddress(start, Sum(bs[..k])) == 0
  }

  predicate NoZeroBetween(start: u32, bs: seq<nat>, n: nat)
    requires n <= |bs|
  {
    forall k :: 0 <= k < n ==> !ZeroBefore(start, bs, k)
  }

  /** Every address returned so far is the end of its blocks. */
  predicate EndAll(addrs: seq<u32>, start: u32, bs: seq<nat>)
    requires |addrs| <= |bs|
  {
    forall k :: 0 <= k < |addrs| ==> addrs[k] == BlockAddress(start, Sum(bs[..k + 1]))
  }

  lemma EndAllSnoc(addrs: seq<u32>, addr: u32, start: u32, bs: seq<nat>)
    requires |addrs| < |bs|
    ensures EndAll(addrs + [addr], start, bs)
      <==> EndAll(addrs, start, bs) && addr == BlockAddress(start, Sum(bs[..|addrs| + 1]))
  {
    var all := addrs + [addr];
    assert all[|addrs|] == addr;
    if EndAll(all, start, bs) {
      forall k | 0 <= k < |addrs|
        ensures addrs[k] == BlockAddress(start, Sum(bs[..k + 1]))
      {
        assert all[k] == addrs[k];
      }
    }
  }

  /** From one block below 2^32 the first range ends at a wrapped zero. */
  lemma WrapRestarts()
    ensures ZeroBefore(0xFFFF_F000, [1, 1], 1)
    ensures BlockAddress(0xFFFF_F000, 1) == 0 && BlockAddress(0xFFFF_F000, 2) == BLOCK_SIZE
  {
    assert [1, 1][..1] == [1] && [1][..0] == [];
    assert Sum([1]) == Sum([]) + 1;
    DivModUnique(0xFFFF_F000 + BLOCK_SIZE, TWO_32, 1, 0);
    DivModUnique(0xFFFF_F000 + 2 * BLOCK_SIZE, TWO_32, 1, BLOCK_SIZE);
  }

  /** The failing case: the second block is returned with the end of the first, not its own. */
  method SameEndTwice(blocks: BlockMap) returns (first: Option<u32>, second: Option<u32>)
    requires blocks.Valid(0xFFFF_F000, 0) && blocks.last == 0 && blocks.current >= 2
    modifies blocks`last, blocks.memoryMap
    ensures first == second == Some(BlockAddress(0xFFFF_F000, 1)) && second != Some(BlockAddress(0xFFFF_F000, 2))
    ensures blocks.Valid(0xFFFF_F000, 2)
  {
    WrapRestarts();
    first := blocks.MmAllocPhysicalMemory(1, 0xFFFF_F000, 0);
    second := blocks.MmAllocPhysicalMemory(1, 0xFFFF_F000, 1);
  }

  /** Ranges that end below 2^32 never wrap, so their addresses are exact. */
  lemma BelowLimit(start: u32, bs: seq<nat>, k: nat)
    requires k <= |bs| && start + BLOCK_SIZE * Sum(bs) < TWO_32
    ensures !ZeroBefore(start, bs, k) && BlockAddress(start, Sum(bs[..k])) == start + BLOCK_SIZE * Sum(bs[..k])
  {
    SumPrefix(bs, k);
    ExactAddress(start, Sum(bs[..k]));
  }

  lemma ExactAddress(start: u32, n: nat)
    ensures start + BLOCK_SIZE * n < TWO_32 ==> BlockAddress(start, n) == start + BLOCK_SIZE * n
  {
    if start + BLOCK_SIZE * n < TWO_32 { KeepsWord(start + BLOCK_SIZE * n); }
  }

  lemma NextAddress(start: u32, n: nat)
    ensures (BlockAddress(start, n) + BLOCK_SIZE) % TWO_32 == BlockAddress(start, n + 1)
  {
    var x := start + BLOCK_SIZE * n;
    var r := (x % TWO_32 + BLOCK_SIZE) % TWO_32;
    var q := x / TWO_32 + (x % TWO_32 + BLOCK_SIZE) / TWO_32;
    DivModUnique(x + BLOCK_SIZE, TWO_32, q, r);
  }

  lemma FirstUnusedIs(ds: seq<Descriptor>, i: nat)
    requires i <= |ds| && (i < |ds| ==> !ds[i].isUsed) && forall k :: 0 <= k < i ==> ds[k].isUsed
    ensures FirstUnused(ds) == i
  {}

  lemma {:induction false} SumPrefix(bs: seq<nat>, k: nat)
    requires k <= |bs|
    ensures Sum(bs[..k]) <= Sum(bs)
    decreases |bs|
  {
    if k < |bs| {
      assert bs[..|bs| - 1][..k] == bs[..k];
      SumPrefix(bs[..|bs| - 1], k);
    } else {
      assert bs[..k] == bs;
    }
  }

  /** The bytes of the k-th allocation: from where the one before it ended to the address returned for it. */
  function RangeOf(start: nat, bs: seq<nat>, k: nat): (r: (nat, nat))
    requires k < |bs|
  {
    (start + BLOCK_SIZE * Sum(bs[..k]), start + BLOCK_SIZE * Sum(bs[..k + 1]))
  }

  /** Where the k-th range begins: at the address returned before. */
  function Begin(addrs: seq<u32>, start: u32, k: nat): u32
    requires k <= |addrs|
  {
    if k == 0 then start else addrs[k - 1]
  }

  /** The addresses returned are the ends of ranges that have the sizes asked for and never overlap. */
  predicate Tiled(addrs: seq<u32>, start: u32, bs: seq<nat>) {
    && |addrs| == |bs|
    && (forall i :: 0 <= i < |bs| ==> (Begin(addrs, start, i), addrs[i] as int) == RangeOf(start, bs, i))
    && (forall i :: 0 <= i < |bs| ==> addrs[i] - Begin(addrs, start, i) == BLOCK_SIZE * bs[i])
    && (forall i, j :: 0 <= i < j < |bs| ==> addrs[i] <= Begin(addrs, start, j))
    && (forall j :: 0 <= j < |bs| ==> addrs[j] <= start + BLOCK_SIZE * Sum(bs))
  }

  lemma NeverZero(start: u32, bs: seq<nat>)
    requires start + BLOCK_SIZE * Sum(bs) < TWO_32
    ensures NoZeroBetween(start, bs, |bs|)
  {
    forall k | 0 <= k < |bs|
      ensures !ZeroBefore(start, bs, k)
    {
      BelowLimit(start, bs, k);
    }
  }

  /** Below 2^32, addresses that end their blocks tile the memory they were taken from. */
  lemma AddressesTile(addrs: seq<u32>, start: u32, bs: seq<nat>)
    requires |addrs| == |bs| && EndAll(addrs, start, bs) && start + BLOCK_SIZE * Sum(bs) < TWO_32
    ensures Tiled(addrs, start, bs)
  {
    forall i | 0 <= i < |bs|
      ensures (Begin(addrs, start, i), addrs[i] as int) == RangeOf(start, bs, i)
    {
      RangeReturned(addrs, start, bs, i);
    }
    hide EndAll, Begin, RangeOf, Sum;
    forall i | 0 <= i < |bs|
      ensures addrs[i] - Begin(addrs, start, i) == BLOCK_SIZE * bs[i] && addrs[i] <= start + BLOCK_SIZE * Sum(bs)
    {
      RangeSize(start, bs, i);
      RangeEnds(start, bs, i);
    }
    forall i, j | 0 <= i < j < |bs|
      ensures addrs[i] <= Begin(addrs, start, j)
    {
      RangesFollow(start, bs, i, j);
    }
  }

  lemma RangeReturned(addrs: seq<u32>, start: u32, bs: seq<nat>, k: nat)
    requires k < |addrs| == |bs| && EndAll(addrs, start, bs) && start + BLOCK_SIZE * Sum(bs) < TWO_32
    ensures (Begin(addrs, start, k), addrs[k] as int) == RangeOf(start, bs, k)
  {
    BelowLimit(start, bs, k);
    BelowLimit(start, bs, k + 1);
    if k == 0 { assert bs[..0] == []; }
  }

  lemma RangesFollow(start: nat, bs: seq<nat>, i: nat, j: nat)
    requires i < j < |bs|
    ensures RangeOf(start, bs, i).1 <= RangeOf(start, bs, j).0
    ensures j == i + 1 ==> RangeOf(start, bs, i).1 == RangeOf(start, bs, j).0
  {
    SumOrder(bs, i + 1, j);
  }

  lemma RangeEnds(start: nat, bs: seq<nat>, j: nat)
    requires j < |bs|
    ensures RangeOf(start, bs, j).1 <= start + BLOCK_SIZE * Sum(bs)
  {
    SumPrefix(bs, j + 1);
  }

  lemma RangeSize(start: nat, bs: seq<nat>, i: nat)
    requires i < |bs|
    ensures RangeOf(start, bs, i).1 - RangeOf(start, bs, i).0 == BLOCK_SIZE * bs[i]
  {
    SumSnoc(bs, i);
  }

  lemma SumOrder(bs: seq<nat>, i: nat, j: nat)
    requires i <= j <= |bs|
    ensures Sum(bs[..i]) <= Sum(bs[..j])
  {
    assert bs[..j][..i] == bs[..i];
    SumPrefix(bs[..j], i);
  }

  lemma SumSnoc(bs: seq<nat>, i: nat)
    requires i < |bs|
    ensures Sum(bs[..i + 1]) == Sum(bs[..i]) + bs[i]
  {
    assert bs[..i + 1][..i] == bs[..i];
  }
}
