/** Reservation of boot memory: one shrinking free region, with 64-bit machine arithmetic. */
module MemLayout {
  import opened Machine

  const UINTPTR_MAX: int := 0xFFFF_FFFF_FFFF_FFFF

  /** `size` bytes from address `base` on; an empty region may have any base. */
  datatype Region = Region(base: nat, size: nat)

  datatype Pos = Top | Bottom

  predicate Overflows(ptr: nat, inc: int) {
    ptr > UINTPTR_MAX - inc
  }

  predicate IsMemFree(free: Region, addr: nat, size: nat) {
    if size == 0 then true
    else if free.size == 0 then false
    else if Overflows(free.base, free.size - 1) then false
    else if Overflows(addr, size - 1) then false
    else addr >= free.base && addr + (size - 1) <= free.base + (free.size - 1)
  }

  predicate Contains(r: Region, a: int) {
    r.base <= a < r.base + r.size
  }

  predicate Inside(r: Region, s: Region) {
    r.size == 0 || (s.base <= r.base && r.base + r.size <= s.base + s.size)
  }

  predicate Disjoint(r: Region, s: Region) {
    r.size == 0 || s.size == 0 || r.base + r.size <= s.base || s.base + s.size <= r.base
  }

  /** The region does not run past the top of the address space. */
  predicate Addressable(r: Region) {
    r.base < TWO_64 && r.base + r.size <= TWO_64
  }

  /** The overflow-free test decides exactly whether the request is empty or lies, byte for byte, in
      an addressable free region. */
  lemma IsMemFreeIff(free: Region, addr: nat, size: nat)
    ensures IsMemFree(free, addr, size) <==>
      size == 0 ||
      (Addressable(free) && Addressable(Region(addr, size)) &&
       forall a :: Contains(Region(addr, size), a) ==> Contains(free, a))
  {
    if size > 0 {
      var r := Region(addr, size);
      assert Contains(r, addr) && Contains(r, addr + size - 1);
    }
  }

  /** On which side of the free region the smaller chunk lies, and its size. */
  function ChooseMemPos(memStart: nat, memEnd: nat, submemStart: nat, submemEnd: nat): (Pos, nat)
    requires memStart <= submemStart <= submemEnd <= memEnd
  {
    var top, bottom := memEnd - submemEnd, submemStart - memStart;
    if top < bottom then (Top, top) else (Bottom, bottom)
  }

  /** The free region that is left: the larger of the two sides of the request. */
  function Reserve(free: Region, addr: nat, size: nat): Region
    requires IsMemFree(free, addr, size)
  {
    if size == 0 then free
    else
      var (pos, discard) := ChooseMemPos(free.base, free.base + (free.size - 1), addr, addr + (size - 1));
      Region(if pos.Bottom? then (addr + size) % TWO_64 else free.base, free.size - (size + discard))
  }

  /** Old free = new free + request + discarded side; the larger side is kept, the upper one if they are
      equal; what is kept was free and does not meet the request. At the top of the address space the new
      base wraps to 0, but only for an empty region. */
  lemma ReserveSplits(free: Region, addr: nat, size: nat)
    requires IsMemFree(free, addr, size) && size > 0
    ensures var left := Reserve(free, addr, size);
      var below, above := addr - free.base, free.base + free.size - (addr + size);
      && free.size == left.size + size + (if below <= above then below else above)
      && left.size == (if below <= above then above else below)
      && (left.size > 0 ==> left.base == if below <= above then addr + size else free.base)
      && Inside(left, free) && Disjoint(left, Region(addr, size)) && Addressable(left)
      && Inside(Region(addr, size), free)
      && (forall a :: Contains(left, a) ==> Contains(free, a) && !Contains(Region(addr, size), a))
  {
  }

  /** `mem` with `data` stored from address `at` on. */
  function Store(mem: seq<Byte>, at: nat, data: seq<Byte>): (r: seq<Byte>)
    ensures |r| == |mem|
    ensures forall i {:trigger r[i]} :: 0 <= i < |mem| ==>
      r[i] == if at <= i < at + |data| then data[i - at] else mem[i]
  {
    seq(|mem|, i requires 0 <= i < |mem| => if at <= i < at + |data| then data[i - at] else mem[i])
  }
}
