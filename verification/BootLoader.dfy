/** The loader as it runs: the memory layout, memory and the authentication flags are updated in place,
    and so are the caller's image description and entry point. */
module BootLoader {
  import opened Machine
  import opened MemLayout
  import opened BootLoad

  class ImageInfo {
    var base: nat
    var size: nat

    function Described(): Region
      reads this
    {
      Region(base, size)
    }
  }

  class EntryPoint {
    var pc: nat
  }

  class Loader {
    var freeBase: nat
    var freeSize: nat
    var mem: seq<Byte>
    var authenticated: set<int>
    ghost var reserved: seq<Region>
    const parents: map<int, int>

    ghost function View(): Boot
      reads this
    {
      Boot(Region(freeBase, freeSize), mem, reserved, authenticated)
    }

    constructor (base: nat, size: nat, memory: seq<Byte>, cot: map<int, int>)
      ensures View() == Boot(Region(base, size), memory, [], {}) && parents == cot
    {
      freeBase, freeSize, mem, authenticated, reserved, parents := base, size, memory, {}, [], cot;
    }

    /** The caller must ask for free memory. */
    method ReserveMem(addr: nat, size: nat)
      requires IsMemFree(Region(freeBase, freeSize), addr, size)
      modifies this`freeBase, this`freeSize
      ensures Region(freeBase, freeSize) == Reserve(old(Region(freeBase, freeSize)), addr, size)
    {
      if size == 0 {
        return;
      }
      var (pos, discard) := ChooseMemPos(freeBase, freeBase + (freeSize - 1), addr, addr + (size - 1));
      var reservedSize := size + discard;
      freeSize := freeSize - reservedSize;
      if pos == Bottom {
        freeBase := (addr + size) % TWO_64;
      }
    }

    method LoadImageAt(base: nat, image: Io, info: ImageInfo, entry: EntryPoint?) returns (rc: int)
      modifies this, info, entry
      ensures LoadResult(View(), info.Described(), rc) ==
        LoadImage(old(View()), old(info.Described()), base, image, entry != null)
      ensures entry != null && reserved != old(reserved) ==> entry.pc == base
      ensures entry != null && reserved == old(reserved) ==> entry.pc == old(entry.pc)
    {
      rc := image.sourceRc;
      if rc != 0 {
        return;
      }
      rc := image.openRc;
      if rc != 0 {
        return;
      }
      rc := image.sizeRc;
      if rc != 0 || image.size == 0 {
        return;
      }
      if !IsMemFree(Region(freeBase, freeSize), base, image.size) {
        rc := -ENOMEM;
        return;
      }
      var delivered := Delivered(image);
      mem := Store(mem, base, delivered);
      rc := image.readRc;
      if rc != 0 || |delivered| < image.size {
        return;
      }
      info.base := base;
      info.size := image.size;
      if entry != null {
        ReserveMem(base, image.size);
        reserved := reserved + [Region(base, image.size)];
        entry.pc := base;
      }
    }

    /** Recursion up the chain of trust; it ends because the parent relation has no cycle. */
    method LoadAuthImage(id: int, base: nat, io: int -> Io, accepts: (int, seq<Byte>) -> bool, info: ImageInfo,
        entry: EntryPoint?, ghost rank: map<int, nat>) returns (outcome: Outcome, log: seq<Visit>)
      requires Ranked(parents, rank)
      modifies this, info, entry
      ensures AuthResult(View(), info.Described(), outcome, log) ==
        LoadAuth(parents, rank, old(View()), old(info.Described()), id, base, io, accepts, entry != null)
      decreases Height(rank, id)
    {
      log := [];
      if id in parents && parents[id] !in authenticated {
        outcome, log := LoadAuthImage(parents[id], base, io, accepts, info, null, rank);
        if outcome != Done {
          return;
        }
      }
      var rc := LoadImageAt(base, io(id), info, entry);
      if rc != 0 {
        outcome := LoadFailed(rc);
      } else if accepts(id, BytesOf(mem, info.Described())) {
        authenticated := authenticated + {id};
        outcome := Done;
      } else {
        mem := Store(mem, info.base, Zeros(info.size));
        outcome := AuthFailed;
      }
      log := log + [Visit(id, outcome)];
    }

    /** The call as boot code makes it, on any parent relation without a cycle. */
    method LoadAndAuthenticate(id: int, base: nat, io: int -> Io, accepts: (int, seq<Byte>) -> bool, info: ImageInfo,
        entry: EntryPoint?) returns (outcome: Outcome, log: seq<Visit>, ghost rank: map<int, nat>)
      requires Acyclic(parents)
      modifies this, info, entry
      ensures Ranked(parents, rank)
      ensures AuthResult(View(), info.Described(), outcome, log) ==
        LoadAuth(parents, rank, old(View()), old(info.Described()), id, base, io, accepts, entry != null)
    {
      rank := AcyclicRanked(parents);
      outcome, log := LoadAuthImage(id, base, io, accepts, info, entry, rank);
    }
  }
}
