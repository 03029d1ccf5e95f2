/** What authenticated loads do to memory that is already in use. A load that reports success without
    having delivered the image leaves the description of the image as it was, and verification, and
    erasure after a rejection, then work on whatever that description names. */
module BootAuth {
  import opened Machine
  import opened MemLayout
  import opened BootLoad

  type Verifier = (int, seq<Byte>) -> bool

  // ---------------------------------------------------------------- one image

  /** The load, if it succeeds, delivers the whole image and describes it. */
  predicate Names(io: Io) {
    io.sourceRc == 0 && io.openRc == 0 && io.sizeRc == 0 && io.size > 0 && Complete(io)
  }

  /** The load reports success without delivering the image: it is empty, or the read is short. */
  predicate Silent(free: Region, base: nat, io: Io) {
    && io.sourceRc == 0 && io.openRc == 0 && io.sizeRc == 0
    && (io.size > 0 ==> IsMemFree(free, base, io.size) && io.readRc == 0 && |Delivered(io)| < io.size)
  }

  /** Physical memory reaches to the end of the free region. */
  predicate FreeExists(b: Boot) {
    b.free.base + b.free.size <= |b.mem|
  }

  /** The description names the range asked for, and that range holds what was read. */
  predicate Loaded(mem: seq<Byte>, info: Region, base: nat, io: Io) {
    io.size > 0 && info == Region(base, io.size) && BytesOf(mem, info) == Delivered(io)
  }

  /** A load that returns 0 has loaded the image if and only if the image is not empty and was read in
      full. Otherwise description and layout are those from before the call. */
  lemma LoadedIff(b: Boot, info: Region, base: nat, io: Io, entry: bool)
    requires FreeExists(b) && LoadImage(b, info, base, io, entry).rc == 0
    ensures var l := LoadImage(b, info, base, io, entry);
      && (Loaded(l.boot.mem, l.info, base, io) <==> Names(io))
      && (Silent(b.free, base, io) <==> !Names(io))
      && (!Names(io) ==> l.info == info && l.boot.reserved == b.reserved && l.boot.free == b.free)
  {
    var l := LoadImage(b, info, base, io, entry);
    if Names(io) {
      assert BytesOf(l.boot.mem, l.info) == Delivered(io);
    }
  }

  /** The read stored a byte at address `a`. */
  predicate Stored(base: nat, io: Io, a: int) {
    io.size > 0 && base <= a < base + |Delivered(io)|
  }

  /** A rejection erases every byte that the load delivered if and only if the load was complete or
      every delivered byte outside the old description was zero already. */
  lemma RejectionErasesIff(b: Boot, info: Region, id: int, base: nat, io: int -> Io, accepts: Verifier, entry: bool)
    requires FreeExists(b) && LoadVerify(b, info, id, base, io, accepts, entry).outcome.AuthFailed?
    ensures var r := LoadVerify(b, info, id, base, io, accepts, entry);
      (forall a :: 0 <= a < |b.mem| && Stored(base, io(id), a) ==> r.boot.mem[a] == 0) <==>
      (Names(io(id)) ||
       forall a :: Stored(base, io(id), a) && !Contains(info, a) ==> Delivered(io(id))[a - base] == 0)
  {
    var r, l := LoadVerify(b, info, id, base, io, accepts, entry), LoadImage(b, info, base, io(id), entry);
    LoadedIff(b, info, base, io(id), entry);
    forall a: int | 0 <= a < |b.mem|
      ensures r.boot.mem[a] == if Contains(l.info, a) then 0 else l.boot.mem[a]
    {
      assert r.boot.mem == Store(l.boot.mem, l.info.base, Zeros(l.info.size));
    }
    forall a: int | Stored(base, io(id), a)
      ensures 0 <= a < |b.mem| && l.boot.mem[a] == Delivered(io(id))[a - base]
    {
    }
  }

  /** The description names a reserved byte that is not zero. */
  predicate Hits(b: Boot, info: Region) {
    exists i, a :: 0 <= i < |b.reserved| && Contains(b.reserved[i], a) && Contains(info, a) && 0 <= a < |b.mem|
                   && b.mem[a] != 0
  }

  lemma InsideFreeMisses(initial: Region, b: Boot, info: Region)
    requires BootInv(initial, b) && Inside(info, b.free)
    ensures !Hits(b, info)
  {
    forall i, a | 0 <= i < |b.reserved| && Contains(b.reserved[i], a)
      ensures !Contains(info, a)
    {
      assert Disjoint(b.free, b.reserved[i]);
    }
  }

  /** Erasing a region changes a reserved byte if and only if the region names one that is not zero. */
  lemma ErasureHitsIff(b: Boot, info: Region)
    ensures SameIn(b.reserved, b.mem, Store(b.mem, info.base, Zeros(info.size))) <==> !Hits(b, info)
  {
    var m := Store(b.mem, info.base, Zeros(info.size));
    if i, a :| 0 <= i < |b.reserved| && Contains(b.reserved[i], a) && Contains(info, a) && 0 <= a < |b.mem|
               && b.mem[a] != 0 {
      assert m[a] == 0;
    }
  }

  lemma SameTrans(rs: seq<Region>, x: seq<Byte>, y: seq<Byte>, z: seq<Byte>)
    requires SameIn(rs, x, y)
    ensures SameIn(rs, x, z) <==> SameIn(rs, y, z)
  {
  }

  lemma SameHits(b: Boot, c: Boot, info: Region)
    requires b.reserved == c.reserved && SameIn(b.reserved, b.mem, c.mem)
    ensures Hits(b, info) <==> Hits(c, info)
  {
    if i, a :| 0 <= i < |b.reserved| && Contains(b.reserved[i], a) && Contains(info, a) && 0 <= a < |b.mem|
               && b.mem[a] != 0 {
      assert c.mem[a] == b.mem[a];
    }
    if i, a :| 0 <= i < |c.reserved| && Contains(c.reserved[i], a) && Contains(info, a) && 0 <= a < |c.mem|
               && c.mem[a] != 0 {
      assert c.mem[a] == b.mem[a];
    }
  }

  /** Where one load and verification leave layout, reservations and description. */
  lemma VerifyKeepsLayout(initial: Region, b: Boot, info: Region, id: int, base: nat, io: int -> Io, accepts: Verifier,
      entry: bool)
    requires BootInv(initial, b)
    ensures var r := LoadVerify(b, info, id, base, io, accepts, entry);
      && BootInv(initial, r.boot)
      && (r.boot.reserved == b.reserved || (entry && r.boot.reserved == b.reserved + [r.info]))
      && (!entry ==> r.boot.free == b.free)
      && (r.info == info || (Names(io(id)) && Inside(r.info, b.free)))
      && (!r.outcome.LoadFailed? && Names(io(id)) ==> Inside(r.info, b.free))
  {
    LoadKeeps(initial, b, info, base, io(id), entry);
    if io(id).size > 0 && IsMemFree(b.free, base, io(id).size) {
      ReserveSplits(b.free, base, io(id).size);
    }
  }

  /** One load and verification changes a reserved byte if and only if the image is rejected after a
      silent load and the old description names a reserved byte that is not zero. */
  lemma VerifyHitsIff(initial: Region, b: Boot, info: Region, id: int, base: nat, io: int -> Io, accepts: Verifier,
      entry: bool)
    requires BootInv(initial, b)
    ensures var r := LoadVerify(b, info, id, base, io, accepts, entry);
      SameIn(b.reserved, b.mem, r.boot.mem) <==> !(r.outcome.AuthFailed? && !Names(io(id)) && Hits(b, info))
  {
    var r, l := LoadVerify(b, info, id, base, io, accepts, entry), LoadImage(b, info, base, io(id), entry);
    LoadKeeps(initial, b, info, base, io(id), entry);
    if r.outcome.AuthFailed? {
      var c := l.boot.(reserved := b.reserved);
      SameTrans(b.reserved, b.mem, l.boot.mem, r.boot.mem);
      ErasureHitsIff(c, l.info);
      SameHits(b, c, l.info);
      if Names(io(id)) {
        ReserveSplits(b.free, base, io(id).size);
        InsideFreeMisses(initial, b, l.info);
      }
    }
  }

  // ---------------------------------------------------------------- the whole call

  /** None of the images asked for was described. */
  predicate AllSilent(io: int -> Io, log: seq<Visit>) {
    forall i :: 0 <= i < |log| ==> !Names(io(log[i].id))
  }

  /** An authenticated load, whatever fails, keeps layout and reservations in order. It reserves at most
      the range it describes, and what it describes was free unless no image was described at all. */
  lemma {:induction false} AuthKeepsLayout(cot: map<int, int>, rank: map<int, nat>, initial: Region, b: Boot,
      info: Region, id: int, base: nat, io: int -> Io, accepts: Verifier, entry: bool)
    requires Ranked(cot, rank) && BootInv(initial, b)
    ensures var r := LoadAuth(cot, rank, b, info, id, base, io, accepts, entry);
      && BootInv(initial, r.boot)
      && (r.boot.reserved == b.reserved || (entry && r.boot.reserved == b.reserved + [r.info]))
      && (!entry ==> r.boot.free == b.free)
      && (r.info == info || Inside(r.info, b.free))
      && (AllSilent(io, r.log) ==> r.info == info)
      && (!AllSilent(io, r.log) && !r.outcome.LoadFailed? ==> Inside(r.info, b.free))
    decreases Height(rank, id)
  {
    if id in cot && cot[id] !in b.auth {
      AuthKeepsLayout(cot, rank, initial, b, info, cot[id], base, io, accepts, false);
      var p := LoadAuth(cot, rank, b, info, cot[id], base, io, accepts, false);
      if p.outcome.Done? {
        VerifyKeepsLayout(initial, p.boot, p.info, id, base, io, accepts, entry);
        OneMoreSilent(io, p.log, LoadVerify(p.boot, p.info, id, base, io, accepts, entry).log, id);
      }
    } else {
      VerifyKeepsLayout(initial, b, info, id, base, io, accepts, entry);
      OneMoreSilent(io, [], LoadVerify(b, info, id, base, io, accepts, entry).log, id);
    }
  }

  lemma OneMoreSilent(io: int -> Io, log: seq<Visit>, last: seq<Visit>, id: int)
    requires |last| == 1 && last[0].id == id
    ensures AllSilent(io, log + last) <==> AllSilent(io, log) && !Names(io(id))
  {
    assert (log + last)[|log|] == last[0];
    assert forall i :: 0 <= i < |log| ==> (log + last)[i] == log[i];
  }

  /** An authenticated load changes a reserved byte if and only if it ends in a rejection, every load up
      to it was silent, and the caller's description names a reserved byte that is not zero. */
  lemma {:induction false} AuthHitsIff(cot: map<int, int>, rank: map<int, nat>, initial: Region, b: Boot,
      info: Region, id: int, base: nat, io: int -> Io, accepts: Verifier, entry: bool)
    requires Ranked(cot, rank) && BootInv(initial, b)
    ensures var r := LoadAuth(cot, rank, b, info, id, base, io, accepts, entry);
      SameIn(b.reserved, b.mem, r.boot.mem) <==> !(r.outcome.AuthFailed? && AllSilent(io, r.log) && Hits(b, info))
    decreases Height(rank, id)
  {
    if id in cot && cot[id] !in b.auth {
      AuthHitsIff(cot, rank, initial, b, info, cot[id], base, io, accepts, false);
      var p := LoadAuth(cot, rank, b, info, cot[id], base, io, accepts, false);
      if p.outcome.Done? {
        AuthKeepsLayout(cot, rank, initial, b, info, cot[id], base, io, accepts, false);
        AfterParent(initial, b, info, p, id, base, io, accepts, entry);
      }
    } else {
      VerifyHitsIff(initial, b, info, id, base, io, accepts, entry);
      OneMoreSilent(io, [], LoadVerify(b, info, id, base, io, accepts, entry).log, id);
    }
  }

  /** The image itself, after its parent has been dealt with. */
  lemma AfterParent(initial: Region, b: Boot, info: Region, p: AuthResult, id: int, base: nat, io: int -> Io,
      accepts: Verifier, entry: bool)
    requires BootInv(initial, b) && BootInv(initial, p.boot)
    requires p.boot.reserved == b.reserved && p.boot.free == b.free && SameIn(b.reserved, b.mem, p.boot.mem)
    requires if AllSilent(io, p.log) then p.info == info else Inside(p.info, b.free)
    ensures var r := LoadVerify(p.boot, p.info, id, base, io, accepts, entry);
      SameIn(b.reserved, b.mem, r.boot.mem) <==>
      !(r.outcome.AuthFailed? && AllSilent(io, p.log + r.log) && Hits(b, info))
  {
    var r := LoadVerify(p.boot, p.info, id, base, io, accepts, entry);
    VerifyHitsIff(initial, p.boot, p.info, id, base, io, accepts, entry);
    OneMoreSilent(io, p.log, r.log, id);
    SameTrans(b.reserved, b.mem, p.boot.mem, r.boot.mem);
    if AllSilent(io, p.log) {
      SameHits(b, p.boot, info);
    } else {
      InsideFreeMisses(initial, p.boot, p.info);
    }
  }

  /** The last load and verification of a call, on the state and the description that it found. */
  lemma {:induction false} LastLoad(cot: map<int, int>, rank: map<int, nat>, b: Boot, info: Region, id: int, base: nat,
      io: int -> Io, accepts: Verifier, entry: bool) returns (b': Boot, info': Region, x: int, e: bool)
    requires Ranked(cot, rank)
    ensures var r, v := LoadAuth(cot, rank, b, info, id, base, io, accepts, entry),
                        LoadVerify(b', info', x, base, io, accepts, e);
      && r.boot == v.boot && r.info == v.info && r.outcome == v.outcome
      && r.log != [] && r.log[|r.log| - 1] == Visit(x, v.outcome)
      && b'.free == b.free && |b'.mem| == |b.mem| && b'.reserved == b.reserved
      && (r.outcome.Done? ==> x == id && e == entry)
    decreases Height(rank, id)
  {
    b', info', x, e := b, info, id, entry;
    if id in cot && cot[id] !in b.auth {
      var p := LoadAuth(cot, rank, b, info, cot[id], base, io, accepts, false);
      b', info', x, e := LastLoad(cot, rank, b, info, cot[id], base, io, accepts, false);
      if p.outcome.Done? {
        b', info', x, e := p.boot, p.info, id, entry;
        NothingReserved(cot, rank, b, info, cot[id], base, io, accepts);
      }
    }
  }

  lemma VerifyReservesNothing(b: Boot, info: Region, id: int, base: nat, io: int -> Io, accepts: Verifier)
    ensures var r := LoadVerify(b, info, id, base, io, accepts, false);
      r.boot.free == b.free && r.boot.reserved == b.reserved && |r.boot.mem| == |b.mem|
  {
  }

  /** Without an entry point nothing is reserved. */
  lemma {:induction false} NothingReserved(cot: map<int, int>, rank: map<int, nat>, b: Boot, info: Region, id: int,
      base: nat, io: int -> Io, accepts: Verifier)
    requires Ranked(cot, rank)
    ensures var r := LoadAuth(cot, rank, b, info, id, base, io, accepts, false);
      r.boot.free == b.free && r.boot.reserved == b.reserved && |r.boot.mem| == |b.mem|
    decreases Height(rank, id)
  {
    if id in cot && cot[id] !in b.auth {
      var p := LoadAuth(cot, rank, b, info, cot[id], base, io, accepts, false);
      NothingReserved(cot, rank, b, info, cot[id], base, io, accepts);
      VerifyReservesNothing(p.boot, p.info, id, base, io, accepts);
    } else {
      VerifyReservesNothing(b, info, id, base, io, accepts);
    }
  }

  /** A call that succeeds has loaded the image, and reserved it if an entry point was asked for, if and
      only if the image is not empty and was read in full. */
  lemma SuccessMeansLoadedIff(cot: map<int, int>, rank: map<int, nat>, b: Boot, info: Region, id: int, base: nat,
      io: int -> Io, accepts: Verifier, entry: bool)
    requires Ranked(cot, rank) && FreeExists(b)
    requires LoadAuth(cot, rank, b, info, id, base, io, accepts, entry).outcome.Done?
    ensures var r := LoadAuth(cot, rank, b, info, id, base, io, accepts, entry);
      && (Loaded(r.boot.mem, r.info, base, io(id)) <==> Names(io(id)))
      && r.boot.reserved == if entry && Names(io(id)) then b.reserved + [Region(base, io(id).size)] else b.reserved
  {
    var b', info', x, e := LastLoad(cot, rank, b, info, id, base, io, accepts, entry);
    LoadedIff(b', info', base, io(id), entry);
  }

  /** A rejected call has erased every byte its last load delivered if and only if that load was complete
      or the bytes outside the description in force were zero already. */
  lemma AuthRejectionErasesIff(cot: map<int, int>, rank: map<int, nat>, b: Boot, info: Region, id: int, base: nat,
      io: int -> Io, accepts: Verifier, entry: bool)
    requires Ranked(cot, rank) && FreeExists(b)
    requires LoadAuth(cot, rank, b, info, id, base, io, accepts, entry).outcome.AuthFailed?
    ensures var r := LoadAuth(cot, rank, b, info, id, base, io, accepts, entry);
      && r.log != []
      && var last := io(r.log[|r.log| - 1].id);
      (forall a :: 0 <= a < |b.mem| && Stored(base, last, a) ==> 0 <= a < |r.boot.mem| && r.boot.mem[a] == 0) <==>
      (Names(last) || forall a :: Stored(base, last, a) && !Contains(r.info, a) ==> Delivered(last)[a - base] == 0)
  {
    var b', info', x, e := LastLoad(cot, rank, b, info, id, base, io, accepts, entry);
    RejectionErasesIff(b', info', x, base, io, accepts, e);
    LoadedIff(b', info', base, io(x), e);
  }

  /** The load returns 0. */
  predicate Loads(free: Region, base: nat, io: Io) {
    Silent(free, base, io) || (Names(io) && IsMemFree(free, base, io.size))
  }

  /** The first `n` images of the chain can be loaded. */
  predicate AllLoad(free: Region, base: nat, io: int -> Io, c: seq<int>, n: nat)
    requires n <= |c|
  {
    forall i :: 0 <= i < n ==> Loads(free, base, io(c[i]))
  }

  /** The description in force after the first `n` images of the chain have been loaded: that of the last one
      that was described. */
  function Described(info: Region, base: nat, io: int -> Io, c: seq<int>, n: nat): Region
    requires n <= |c|
  {
    if n == 0 then info
    else if Names(io(c[n - 1])) then Region(base, io(c[n - 1]).size)
    else Described(info, base, io, c, n - 1)
  }

  /** Memory after the first `n` images of the chain have been read. */
  function MemoryAfter(mem: seq<Byte>, base: nat, io: int -> Io, c: seq<int>, n: nat): (m: seq<Byte>)
    requires n <= |c|
    ensures |m| == |mem|
  {
    if n == 0 then mem
    else
      var m := MemoryAfter(mem, base, io, c, n - 1);
      if io(c[n - 1]).size > 0 then Store(m, base, Delivered(io(c[n - 1]))) else m
  }

  /** The bytes that are verified for image `i` of the chain. */
  function Checked(b: Boot, info: Region, base: nat, io: int -> Io, c: seq<int>, i: nat): seq<Byte>
    requires i < |c|
  {
    BytesOf(MemoryAfter(b.mem, base, io, c, i + 1), Described(info, base, io, c, i + 1))
  }

  /** For an image that is read in full, these are the bytes that the storage delivers. */
  lemma CheckedIsDelivered(b: Boot, info: Region, base: nat, io: int -> Io, c: seq<int>, i: nat)
    requires FreeExists(b) && i < |c| && Names(io(c[i])) && IsMemFree(b.free, base, io(c[i]).size)
    ensures Checked(b, info, base, io, c, i) == Delivered(io(c[i]))
  {
  }

  lemma {:induction false} DescribedPrefix(b: Boot, info: Region, base: nat, io: int -> Io, d: seq<int>, c: seq<int>,
      n: nat)
    requires n <= |d| && d <= c
    ensures Described(info, base, io, d, n) == Described(info, base, io, c, n)
    ensures MemoryAfter(b.mem, base, io, d, n) == MemoryAfter(b.mem, base, io, c, n)
  {
    if n > 0 {
      DescribedPrefix(b, info, base, io, d, c, n - 1);
    }
  }

  /** Images nearer the root rank lower. */
  lemma {:induction false} ChainHeights(cot: map<int, int>, rank: map<int, nat>, auth: set<int>, id: int, j: nat,
      k: nat)
    requires Ranked(cot, rank) && j < k < |Chain(cot, rank, auth, id)|
    ensures Height(rank, Chain(cot, rank, auth, id)[j]) < Height(rank, Chain(cot, rank, auth, id)[k])
    decreases Height(rank, id)
  {
    var d := Chain(cot, rank, auth, cot[id]);
    if k < |d| {
      ChainHeights(cot, rank, auth, cot[id], j, k);
    } else if j < |d| - 1 {
      ChainHeights(cot, rank, auth, cot[id], j, |d| - 1);
    }
  }

  predicate AcceptedAt(b: Boot, info: Region, base: nat, io: int -> Io, accepts: Verifier, c: seq<int>, i: nat)
    requires i < |c|
  {
    accepts(c[i], Checked(b, info, base, io, c, i))
  }

  /** The first `n` images of the chain can be loaded, and what is verified for each is accepted. */
  predicate Passed(b: Boot, info: Region, base: nat, io: int -> Io, accepts: Verifier, c: seq<int>, n: nat)
    requires n <= |c|
  {
    AllLoad(b.free, base, io, c, n) && forall i :: 0 <= i < n ==> AcceptedAt(b, info, base, io, accepts, c, i)
  }

  /** The result of a call that deals with the images of `c` one after the other and gets to position `k`: it
      fails there, or has come to the end. */
  ghost predicate GotTo(b: Boot, info: Region, base: nat, io: int -> Io, accepts: Verifier, c: seq<int>, k: nat,
      r: AuthResult)
  {
    && k <= |c| && Passed(b, info, base, io, accepts, c, k)
    && (r.outcome.Done? ==> k == |c| && Reached(b, info, base, io, c, k, r.boot.mem, r.info))
    && (!r.outcome.Done? ==> k < |c| && r.log != [] && r.log[|r.log| - 1].id == c[k])
    && (r.outcome.LoadFailed? ==> !Loads(b.free, base, io(c[k])))
    && (r.outcome.AuthFailed? ==> RejectedHere(b, info, base, io, accepts, c, k, r))
  }

  /** Memory and description after the first `n` images. */
  predicate Reached(b: Boot, info: Region, base: nat, io: int -> Io, c: seq<int>, n: nat, mem: seq<Byte>, desc: Region)
    requires n <= |c|
  {
    mem == MemoryAfter(b.mem, base, io, c, n) && desc == Described(info, base, io, c, n)
  }

  /** Image `k` was loaded, what was verified for it was not accepted, and the memory described is erased. */
  predicate RejectedHere(b: Boot, info: Region, base: nat, io: int -> Io, accepts: Verifier, c: seq<int>, k: nat,
      r: AuthResult)
    requires k < |c|
  {
    && Loads(b.free, base, io(c[k])) && !AcceptedAt(b, info, base, io, accepts, c, k)
    && r.info == Described(info, base, io, c, k + 1)
    && r.boot.mem == Store(MemoryAfter(b.mem, base, io, c, k + 1), r.info.base, Zeros(r.info.size))
  }

  /** One load and verification, in terms of what the storage answers. */
  lemma VerifyLoads(b: Boot, info: Region, id: int, base: nat, io: int -> Io, accepts: Verifier, entry: bool)
    ensures var r := LoadVerify(b, info, id, base, io, accepts, entry);
      var desc := if Names(io(id)) then Region(base, io(id).size) else info;
      var mem := if io(id).size > 0 then Store(b.mem, base, Delivered(io(id))) else b.mem;
      && (r.outcome.LoadFailed? <==> !Loads(b.free, base, io(id)))
      && (!r.outcome.LoadFailed? ==> r.info == desc && (r.outcome.Done? <==> accepts(id, BytesOf(mem, desc))))
      && (r.outcome.Done? ==> r.boot.mem == mem)
      && (r.outcome.AuthFailed? ==> r.boot.mem == Store(mem, desc.base, Zeros(desc.size)))
      && r.log == [Visit(id, r.outcome)]
  {
  }

  lemma PassedPrefix(b: Boot, info: Region, base: nat, io: int -> Io, accepts: Verifier, d: seq<int>, c: seq<int>,
      n: nat)
    requires n <= |d| && d <= c && Passed(b, info, base, io, accepts, d, n)
    ensures Passed(b, info, base, io, accepts, c, n)
  {
    forall i | 0 <= i < n
      ensures AcceptedAt(b, info, base, io, accepts, c, i)
    {
      DescribedPrefix(b, info, base, io, d, c, i + 1);
      assert AcceptedAt(b, info, base, io, accepts, d, i);
    }
  }

  /** What one more image adds. */
  lemma OneMoreImage(b: Boot, info: Region, base: nat, io: int -> Io, d: seq<int>, id: int, c: seq<int>, n: nat)
    requires c == d + [id] && n == |d|
    ensures Described(info, base, io, c, n + 1) ==
      if Names(io(id)) then Region(base, io(id).size) else Described(info, base, io, d, n)
    ensures MemoryAfter(b.mem, base, io, c, n + 1) ==
      if io(id).size > 0 then Store(MemoryAfter(b.mem, base, io, d, n), base, Delivered(io(id)))
      else MemoryAfter(b.mem, base, io, d, n)
  {
    DescribedPrefix(b, info, base, io, d, c, n);
  }

  /** The next image, with the memory `mem` and the description `desc` that its load leads to. */
  lemma NextOutcome(b: Boot, info: Region, base: nat, io: int -> Io, accepts: Verifier, c: seq<int>, n: nat,
      r: AuthResult, mem: seq<Byte>, desc: Region) returns (k: nat)
    requires |c| == n + 1 && Passed(b, info, base, io, accepts, c, n)
    requires desc == Described(info, base, io, c, n + 1) && mem == MemoryAfter(b.mem, base, io, c, n + 1)
    requires r.outcome.LoadFailed? <==> !Loads(b.free, base, io(c[n]))
    requires !r.outcome.LoadFailed? ==> r.info == desc && (r.outcome.Done? <==> accepts(c[n], BytesOf(mem, desc)))
    requires r.outcome.Done? ==> r.boot.mem == mem
    requires r.outcome.AuthFailed? ==> r.boot.mem == Store(mem, desc.base, Zeros(desc.size))
    requires r.log != [] && r.log[|r.log| - 1].id == c[n]
    ensures GotTo(b, info, base, io, accepts, c, k, r)
  {
    assert AcceptedAt(b, info, base, io, accepts, c, n) <==> accepts(c[n], BytesOf(mem, desc));
    k := if r.outcome.Done? then n + 1 else n;
  }

  lemma NextImage(b: Boot, info: Region, base: nat, io: int -> Io, accepts: Verifier, d: seq<int>, id: int,
      p: AuthResult, entry: bool, r: AuthResult, c: seq<int>) returns (k: nat)
    requires p.outcome.Done? && GotTo(b, info, base, io, accepts, d, |d|, p) && p.boot.free == b.free
    requires var v := LoadVerify(p.boot, p.info, id, base, io, accepts, entry); r == v.(log := p.log + v.log)
    requires c == d + [id]
    ensures GotTo(b, info, base, io, accepts, c, k, r)
  {
    VerifyLoads(p.boot, p.info, id, base, io, accepts, entry);
    OneMoreImage(b, info, base, io, d, id, c, |d|);
    PassedPrefix(b, info, base, io, accepts, d, c, |d|);
    k := NextOutcome(b, info, base, io, accepts, c, |d|, r, MemoryAfter(b.mem, base, io, c, |d| + 1),
                     Described(info, base, io, c, |d| + 1));
  }

  lemma LongerChain(b: Boot, info: Region, base: nat, io: int -> Io, accepts: Verifier, d: seq<int>, c: seq<int>,
      k: nat, r: AuthResult)
    requires !r.outcome.Done? && GotTo(b, info, base, io, accepts, d, k, r) && d <= c
    ensures GotTo(b, info, base, io, accepts, c, k, r)
  {
    DescribedPrefix(b, info, base, io, d, c, k + 1);
    PassedPrefix(b, info, base, io, accepts, d, c, k);
  }

  /** Every call gets to some position of its chain. */
  lemma {:induction false} GetsTo(cot: map<int, int>, rank: map<int, nat>, b: Boot, info: Region, id: int, base: nat,
      io: int -> Io, accepts: Verifier, entry: bool) returns (k: nat)
    requires Ranked(cot, rank)
    ensures GotTo(b, info, base, io, accepts, Chain(cot, rank, b.auth, id), k,
                  LoadAuth(cot, rank, b, info, id, base, io, accepts, entry))
    decreases Height(rank, id)
  {
    var r := LoadAuth(cot, rank, b, info, id, base, io, accepts, entry);
    if id in cot && cot[id] !in b.auth {
      var p, d := LoadAuth(cot, rank, b, info, cot[id], base, io, accepts, false), Chain(cot, rank, b.auth, cot[id]);
      k := GetsTo(cot, rank, b, info, cot[id], base, io, accepts, false);
      if p.outcome.Done? {
        NothingReserved(cot, rank, b, info, cot[id], base, io, accepts);
        k := NextImage(b, info, base, io, accepts, d, id, p, entry, r, d + [id]);
      } else {
        LongerChain(b, info, base, io, accepts, d, d + [id], k, r);
      }
    } else {
      k := NextImage(b, info, base, io, accepts, [], id, AuthResult(b, info, Done, []), entry, r, [id]);
    }
  }

  /** A call succeeds if and only if every image of its chain can be loaded and what is then verified for it
      is accepted; it ends in a rejection if and only if the first image of which that is not so can be
      loaded. */
  lemma SucceedsIff(cot: map<int, int>, rank: map<int, nat>, b: Boot, info: Region, id: int, base: nat,
      io: int -> Io, accepts: Verifier, entry: bool, c: seq<int>)
    requires Ranked(cot, rank) && c == Chain(cot, rank, b.auth, id)
    ensures var r := LoadAuth(cot, rank, b, info, id, base, io, accepts, entry);
      && (r.outcome.Done? <==> Passed(b, info, base, io, accepts, c, |c|))
      && (r.outcome.AuthFailed? <==>
            exists k :: 0 <= k < |c| && Passed(b, info, base, io, accepts, c, k) && Loads(b.free, base, io(c[k])) &&
                        !AcceptedAt(b, info, base, io, accepts, c, k))
  {
    var j := GetsTo(cot, rank, b, info, id, base, io, accepts, entry);
    if k :| 0 <= k < |c| && Passed(b, info, base, io, accepts, c, k) && Loads(b.free, base, io(c[k])) &&
            !AcceptedAt(b, info, base, io, accepts, c, k) {
      assert j == k;
    }
  }

  /** If every image of the chain is read in full, the call succeeds if and only if each fits the free region
      and the verifier accepts the bytes that the storage delivers for it. */
  lemma GoodImagesSucceedIff(cot: map<int, int>, rank: map<int, nat>, b: Boot, info: Region, id: int, base: nat,
      io: int -> Io, accepts: Verifier, entry: bool, c: seq<int>)
    requires Ranked(cot, rank) && FreeExists(b) && c == Chain(cot, rank, b.auth, id)
    requires forall i :: 0 <= i < |c| ==> Names(io(c[i]))
    ensures LoadAuth(cot, rank, b, info, id, base, io, accepts, entry).outcome.Done? <==>
            forall i :: 0 <= i < |c| ==>
              IsMemFree(b.free, base, io(c[i]).size) && accepts(c[i], Delivered(io(c[i])))
  {
    SucceedsIff(cot, rank, b, info, id, base, io, accepts, entry, c);
    forall i | 0 <= i < |c| && IsMemFree(b.free, base, io(c[i]).size)
      ensures AcceptedAt(b, info, base, io, accepts, c, i) <==> accepts(c[i], Delivered(io(c[i])))
    {
      CheckedIsDelivered(b, info, base, io, c, i);
    }
  }

  /** If the last image of a rejected call was read in full, the verifier rejected the bytes that the storage
      delivered for it. */
  lemma RejectionMeansRejected(cot: map<int, int>, rank: map<int, nat>, b: Boot, info: Region, id: int, base: nat,
      io: int -> Io, accepts: Verifier, entry: bool)
    requires Ranked(cot, rank) && FreeExists(b)
    requires LoadAuth(cot, rank, b, info, id, base, io, accepts, entry).outcome.AuthFailed?
    ensures var r := LoadAuth(cot, rank, b, info, id, base, io, accepts, entry);
      && r.log != []
      && var x := r.log[|r.log| - 1].id;
      x in Chain(cot, rank, b.auth, id) && (Names(io(x)) ==> !accepts(x, Delivered(io(x))))
  {
    var c := Chain(cot, rank, b.auth, id);
    var k := GetsTo(cot, rank, b, info, id, base, io, accepts, entry);
    if Names(io(c[k])) {
      LoadsNamed(b.free, base, io(c[k]));
      CheckedIsDelivered(b, info, base, io, c, k);
    }
  }

  lemma LoadsNamed(free: Region, base: nat, io: Io)
    requires Names(io) && Loads(free, base, io)
    ensures IsMemFree(free, base, io.size)
  {
  }

  /** Whatever is stored where the description does not reach is zero. */
  ghost predicate Erasable(desc: Region, base: nat, io: Io) {
    forall a :: Stored(base, io, a) && !Contains(desc, a) ==> Delivered(io)[a - base] == 0
  }

  /** If the call ends in a rejection, every byte that its last load delivered is zero. */
  predicate Erased(r: AuthResult, base: nat, io: int -> Io) {
    r.outcome.AuthFailed? && r.log != [] ==>
      forall a :: 0 <= a < |r.boot.mem| && Stored(base, io(r.log[|r.log| - 1].id), a) ==> r.boot.mem[a] == 0
  }

  /** `AuthRejectionErasesIff`, in terms of what the storage answers; the call stops at `k`. */
  lemma ErasedIff(cot: map<int, int>, rank: map<int, nat>, b: Boot, info: Region, id: int, base: nat, io: int -> Io,
      accepts: Verifier, entry: bool, c: seq<int>, k: nat)
    requires Ranked(cot, rank) && FreeExists(b)
    requires LoadAuth(cot, rank, b, info, id, base, io, accepts, entry).outcome.AuthFailed?
    requires GotTo(b, info, base, io, accepts, c, k, LoadAuth(cot, rank, b, info, id, base, io, accepts, entry))
    ensures Erased(LoadAuth(cot, rank, b, info, id, base, io, accepts, entry), base, io) <==>
            Erasable(Described(info, base, io, c, k + 1), base, io(c[k]))
  {
    var r := LoadAuth(cot, rank, b, info, id, base, io, accepts, entry);
    AuthRejectionErasesIff(cot, rank, b, info, id, base, io, accepts, entry);
    SameLength(cot, rank, b, info, id, base, io, accepts, entry);
    assert Names(io(c[k])) ==> Erasable(r.info, base, io(c[k]));
  }

  lemma SameLength(cot: map<int, int>, rank: map<int, nat>, b: Boot, info: Region, id: int, base: nat, io: int -> Io,
      accepts: Verifier, entry: bool)
    requires Ranked(cot, rank)
    ensures |LoadAuth(cot, rank, b, info, id, base, io, accepts, entry).boot.mem| == |b.mem|
  {
    var b', info', x, e := LastLoad(cot, rank, b, info, id, base, io, accepts, entry);
  }

  /** A verifier that accepts the images that rank below the one at `k`, and no others, has the call rejected
      at `k` if the images up to there can be loaded. */
  lemma RejectedAt(cot: map<int, int>, rank: map<int, nat>, b: Boot, info: Region, id: int, base: nat, io: int -> Io,
      accepts: Verifier, entry: bool, c: seq<int>, k: nat)
    requires Ranked(cot, rank) && c == Chain(cot, rank, b.auth, id)
    requires k < |c| && AllLoad(b.free, base, io, c, k + 1)
    requires forall x, bytes :: accepts(x, bytes) <==> Height(rank, x) < Height(rank, c[k])
    ensures LoadAuth(cot, rank, b, info, id, base, io, accepts, entry).outcome.AuthFailed?
    ensures GotTo(b, info, base, io, accepts, c, k, LoadAuth(cot, rank, b, info, id, base, io, accepts, entry))
  {
    var j := GetsTo(cot, rank, b, info, id, base, io, accepts, entry);
    assert !AcceptedAt(b, info, base, io, accepts, c, k);
    if j < k {
      ChainHeights(cot, rank, b.auth, id, j, k);
    }
  }

  /** If a call can get to image `k` of the chain, then what is stored outside the description in force there,
      its own if the image is read in full, is zero already. */
  ghost predicate ErasableAt(free: Region, info: Region, base: nat, io: int -> Io, c: seq<int>, k: nat)
    requires k < |c|
  {
    AllLoad(free, base, io, c, k + 1) ==> Erasable(Described(info, base, io, c, k + 1), base, io(c[k]))
  }

  ghost predicate ChainErasable(free: Region, info: Region, base: nat, io: int -> Io, c: seq<int>) {
    forall k :: 0 <= k < |c| ==> ErasableAt(free, info, base, io, c, k)
  }

  lemma ErasableIsErased(cot: map<int, int>, rank: map<int, nat>, b: Boot, info: Region, id: int, base: nat,
      io: int -> Io, accepts: Verifier, entry: bool)
    requires Ranked(cot, rank) && FreeExists(b) && ChainErasable(b.free, info, base, io, Chain(cot, rank, b.auth, id))
    ensures Erased(LoadAuth(cot, rank, b, info, id, base, io, accepts, entry), base, io)
  {
    if LoadAuth(cot, rank, b, info, id, base, io, accepts, entry).outcome.AuthFailed? {
      var c := Chain(cot, rank, b.auth, id);
      var k := GetsTo(cot, rank, b, info, id, base, io, accepts, entry);
      ErasedIff(cot, rank, b, info, id, base, io, accepts, entry, c, k);
      assert AllLoad(b.free, base, io, c, k + 1) && ErasableAt(b.free, info, base, io, c, k);
    }
  }

  lemma NotErasable(cot: map<int, int>, rank: map<int, nat>, b: Boot, info: Region, id: int, base: nat, io: int -> Io,
      entry: bool, c: seq<int>, k: nat) returns (accepts: Verifier)
    requires Ranked(cot, rank) && FreeExists(b) && c == Chain(cot, rank, b.auth, id)
    requires k < |c| && !ErasableAt(b.free, info, base, io, c, k)
    ensures !Erased(LoadAuth(cot, rank, b, info, id, base, io, accepts, entry), base, io)
  {
    accepts := (x, _) => Height(rank, x) < Height(rank, c[k]);
    RejectedAt(cot, rank, b, info, id, base, io, accepts, entry, c, k);
    ErasedIff(cot, rank, b, info, id, base, io, accepts, entry, c, k);
  }

  /** Whatever the verifier says, a rejection erases every byte that the last load delivered, if and only if
      that can be said of each image of the chain from what the storage answers. */
  lemma ErasedForEveryVerifierIff(cot: map<int, int>, rank: map<int, nat>, b: Boot, info: Region, id: int, base: nat,
      io: int -> Io, entry: bool, c: seq<int>)
    requires Ranked(cot, rank) && FreeExists(b) && c == Chain(cot, rank, b.auth, id)
    ensures (forall accepts: Verifier ::
               Erased(LoadAuth(cot, rank, b, info, id, base, io, accepts, entry), base, io)) <==>
            ChainErasable(b.free, info, base, io, c)
  {
    if ChainErasable(b.free, info, base, io, c) {
      forall accepts: Verifier
        ensures Erased(LoadAuth(cot, rank, b, info, id, base, io, accepts, entry), base, io)
      {
        ErasableIsErased(cot, rank, b, info, id, base, io, accepts, entry);
      }
    } else {
      var k :| 0 <= k < |c| && !ErasableAt(b.free, info, base, io, c, k);
      var some := NotErasable(cot, rank, b, info, id, base, io, entry, c, k);
    }
  }

  /** The image that a call asks for first is loaded with success, silently or not, unless the call ends in
      a load error. */
  lemma {:induction false} FirstVisit(cot: map<int, int>, rank: map<int, nat>, b: Boot, info: Region, id: int,
      base: nat, io: int -> Io, accepts: Verifier, entry: bool)
    requires Ranked(cot, rank)
    ensures var r, x := LoadAuth(cot, rank, b, info, id, base, io, accepts, entry), Chain(cot, rank, b.auth, id)[0];
      && r.log != [] && r.log[0].id == x
      && (!r.outcome.LoadFailed? ==> Names(io(x)) || Silent(b.free, base, io(x)))
    decreases Height(rank, id)
  {
    if id in cot && cot[id] !in b.auth {
      FirstVisit(cot, rank, b, info, cot[id], base, io, accepts, false);
    }
  }

  /** A verifier that accepts nothing stops the call at its first image. */
  lemma {:induction false} RejectAll(cot: map<int, int>, rank: map<int, nat>, b: Boot, info: Region, id: int,
      base: nat, io: int -> Io, accepts: Verifier, entry: bool)
    requires Ranked(cot, rank) && Silent(b.free, base, io(Chain(cot, rank, b.auth, id)[0]))
    requires forall x, bytes :: !accepts(x, bytes)
    ensures var r := LoadAuth(cot, rank, b, info, id, base, io, accepts, entry);
      r.outcome.AuthFailed? && r.log == [Visit(Chain(cot, rank, b.auth, id)[0], AuthFailed)]
    decreases Height(rank, id)
  {
    if id in cot && cot[id] !in b.auth {
      RejectAll(cot, rank, b, info, cot[id], base, io, accepts, false);
    }
  }

  /** The call leaves every reserved byte alone whatever the verifier says, if and only if the first image
      of its chain is not loaded silently or the caller's description names no reserved byte but zeros. */
  lemma SafeForEveryVerifierIff(cot: map<int, int>, rank: map<int, nat>, initial: Region, b: Boot, info: Region,
      id: int, base: nat, io: int -> Io, entry: bool)
    requires Ranked(cot, rank) && BootInv(initial, b)
    ensures (forall accepts: Verifier ::
               SameIn(b.reserved, b.mem, LoadAuth(cot, rank, b, info, id, base, io, accepts, entry).boot.mem)) <==>
            !(Silent(b.free, base, io(Chain(cot, rank, b.auth, id)[0])) && Hits(b, info))
  {
    var x := Chain(cot, rank, b.auth, id)[0];
    if Silent(b.free, base, io(x)) && Hits(b, info) {
      var none: Verifier := (_, _) => false;
      RejectAll(cot, rank, b, info, id, base, io, none, entry);
      AuthHitsIff(cot, rank, initial, b, info, id, base, io, none, entry);
    } else {
      forall accepts: Verifier
        ensures SameIn(b.reserved, b.mem, LoadAuth(cot, rank, b, info, id, base, io, accepts, entry).boot.mem)
      {
        FirstVisit(cot, rank, b, info, id, base, io, accepts, entry);
        AuthHitsIff(cot, rank, initial, b, info, id, base, io, accepts, entry);
      }
    }
  }

  // ---------------------------------------------------------------- sequences of calls

  datatype Call = Call(info: Region, id: int, base: nat, io: int -> Io, accepts: Verifier, entry: bool)

  ghost function Made(cot: map<int, int>, rank: map<int, nat>, b: Boot, c: Call): AuthResult
    requires Ranked(cot, rank)
  {
    LoadAuth(cot, rank, b, c.info, c.id, c.base, c.io, c.accepts, c.entry)
  }

  /** The state after the first `n` calls. */
  ghost function After(cot: map<int, int>, rank: map<int, nat>, b: Boot, calls: seq<Call>, n: nat): Boot
    requires Ranked(cot, rank) && n <= |calls|
  {
    if n == 0 then b else Made(cot, rank, After(cot, rank, b, calls, n - 1), calls[n - 1]).boot
  }

  /** The call ends in a rejection after silent loads, with a description that names a reserved byte. */
  ghost predicate Damages(cot: map<int, int>, rank: map<int, nat>, b: Boot, c: Call)
    requires Ranked(cot, rank)
  {
    var r := Made(cot, rank, b, c);
    r.outcome.AuthFailed? && AllSilent(c.io, r.log) && Hits(b, c.info)
  }

  /** Over any sequence of authenticated loads, successful or not, on one layout, reserved regions are
      pairwise disjoint, disjoint from the free region and inside the initial one, and are only added to. */
  lemma {:induction false} AuthLoadsKeepLayout(cot: map<int, int>, rank: map<int, nat>, b: Boot, calls: seq<Call>,
      n: nat, m: nat)
    requires Ranked(cot, rank) && b.reserved == [] && n <= m <= |calls|
    ensures BootInv(b.free, After(cot, rank, b, calls, m))
    ensures After(cot, rank, b, calls, n).reserved <= After(cot, rank, b, calls, m).reserved
    decreases m
  {
    if m > 0 {
      var before, c := After(cot, rank, b, calls, m - 1), calls[m - 1];
      AuthLoadsKeepLayout(cot, rank, b, calls, if n < m then n else n - 1, m - 1);
      AuthKeepsLayout(cot, rank, b.free, before, c.info, c.id, c.base, c.io, c.accepts, c.entry);
    }
  }

  /** What the first `n` calls have reserved holds the same bytes after the first `m`. */
  ghost predicate Keeps(cot: map<int, int>, rank: map<int, nat>, b: Boot, calls: seq<Call>, n: nat, m: nat)
    requires Ranked(cot, rank) && n <= m <= |calls|
  {
    var x := After(cot, rank, b, calls, n);
    SameIn(x.reserved, x.mem, After(cot, rank, b, calls, m).mem)
  }

  ghost predicate DamagesAt(cot: map<int, int>, rank: map<int, nat>, b: Boot, calls: seq<Call>, k: nat)
    requires Ranked(cot, rank) && k < |calls|
  {
    Damages(cot, rank, After(cot, rank, b, calls, k), calls[k])
  }

  /** A call of the sequence keeps every byte reserved before it if and only if it does no damage. */
  lemma CallKeepsIff(cot: map<int, int>, rank: map<int, nat>, b: Boot, calls: seq<Call>, k: nat)
    requires Ranked(cot, rank) && b.reserved == [] && k < |calls|
    ensures Keeps(cot, rank, b, calls, k, k + 1) <==> !DamagesAt(cot, rank, b, calls, k)
  {
    var before, c := After(cot, rank, b, calls, k), calls[k];
    AuthLoadsKeepLayout(cot, rank, b, calls, k, k);
    AuthHitsIff(cot, rank, b.free, before, c.info, c.id, c.base, c.io, c.accepts, c.entry);
  }

  lemma SamePrefix(rs: seq<Region>, more: seq<Region>, m: seq<Byte>, n: seq<Byte>)
    requires rs <= more && SameIn(more, m, n)
    ensures SameIn(rs, m, n)
  {
    forall i, a | 0 <= i < |rs| && Contains(rs[i], a) && 0 <= a < |m|
      ensures m[a] == n[a]
    {
      assert more[i] == rs[i];
    }
  }

  lemma SameOneMore(rs: seq<Region>, more: seq<Region>, x: seq<Byte>, y: seq<Byte>, z: seq<Byte>)
    requires rs <= more && SameIn(rs, x, y) && SameIn(more, y, z)
    ensures SameIn(rs, x, z)
  {
    SamePrefix(rs, more, y, z);
    SameTrans(rs, x, y, z);
  }

  lemma KeepsNext(cot: map<int, int>, rank: map<int, nat>, b: Boot, calls: seq<Call>, n: nat, m: nat)
    requires Ranked(cot, rank) && b.reserved == [] && n <= m < |calls|
    requires Keeps(cot, rank, b, calls, n, m) && !DamagesAt(cot, rank, b, calls, m)
    ensures Keeps(cot, rank, b, calls, n, m + 1)
  {
    var x, y, z := After(cot, rank, b, calls, n), After(cot, rank, b, calls, m), After(cot, rank, b, calls, m + 1);
    AuthLoadsKeepLayout(cot, rank, b, calls, n, m);
    CallKeepsIff(cot, rank, b, calls, m);
    SameOneMore(x.reserved, y.reserved, x.mem, y.mem, z.mem);
  }

  /** Every region reserved by the first `n` calls still holds its bytes after the first `m`, if no call in
      between does damage. */
  lemma {:induction false} AuthLoadsNeverOverwrite(cot: map<int, int>, rank: map<int, nat>, b: Boot, calls: seq<Call>,
      n: nat, m: nat)
    requires Ranked(cot, rank) && b.reserved == [] && n <= m <= |calls|
    requires forall k :: n <= k < m ==> !DamagesAt(cot, rank, b, calls, k)
    ensures Keeps(cot, rank, b, calls, n, m)
    decreases m
  {
    if n < m {
      AuthLoadsNeverOverwrite(cot, rank, b, calls, n, m - 1);
      KeepsNext(cot, rank, b, calls, n, m - 1);
    }
  }

  /** Over the whole sequence everything reserved keeps its bytes from then on, if and only if no call does
      damage. */
  lemma AuthLoadsKeepReservedIff(cot: map<int, int>, rank: map<int, nat>, b: Boot, calls: seq<Call>)
    requires Ranked(cot, rank) && b.reserved == []
    ensures (forall n, m :: 0 <= n <= m <= |calls| ==> Keeps(cot, rank, b, calls, n, m)) <==>
            (forall k :: 0 <= k < |calls| ==> !DamagesAt(cot, rank, b, calls, k))
  {
    forall k | 0 <= k < |calls|
      ensures Keeps(cot, rank, b, calls, k, k + 1) <==> !DamagesAt(cot, rank, b, calls, k)
    {
      CallKeepsIff(cot, rank, b, calls, k);
    }
    if forall k :: 0 <= k < |calls| ==> !DamagesAt(cot, rank, b, calls, k) {
      forall n, m | 0 <= n <= m <= |calls|
        ensures Keeps(cot, rank, b, calls, n, m)
      {
        AuthLoadsNeverOverwrite(cot, rank, b, calls, n, m);
      }
    }
  }

  /** A call does no damage if its description is empty when it starts, or if no image of it is loaded
      silently. */
  lemma CarefulCallIsSafe(cot: map<int, int>, rank: map<int, nat>, b: Boot, c: Call)
    requires Ranked(cot, rank)
    requires c.info.size == 0 || forall x :: !Silent(b.free, c.base, c.io(x))
    ensures !Damages(cot, rank, b, c)
  {
    FirstVisit(cot, rank, b, c.info, c.id, c.base, c.io, c.accepts, c.entry);
  }

  // ---------------------------------------------------------------- where the properties fail

  const NO_FILE := Io(0, 0, 0, 0, 0, [])

  /** An empty image that is rejected costs a reserved image its first byte: the description still named
      the reserved image. */
  lemma RejectionErasesReserved()
    ensures var b := Boot(Region(4, 60), [7, 7, 7, 7, 0, 0, 0, 0], [Region(0, 4)], {1});
      var r := LoadVerify(b, Region(0, 4), 2, 4, _ => NO_FILE, (_, _) => false, true);
      r.outcome.AuthFailed? && Contains(b.reserved[0], 0) && b.mem[0] == 7 && r.boot.mem[0] == 0
  {
  }

  /** After a short read and a rejection the delivered bytes are still there. */
  lemma ShortReadSurvivesRejection()
    ensures var b := Boot(Region(4, 60), [7, 7, 7, 7, 0, 0, 0, 0], [], {});
      var r := LoadVerify(b, Region(0, 0), 2, 4, _ => Io(0, 0, 0, 4, 0, [9, 9]), (_, _) => false, true);
      r.outcome.AuthFailed? && r.boot.mem[4] == 9
  {
  }

  /** An empty image that is accepted succeeds with nothing loaded and nothing reserved. */
  lemma EmptyImageSucceeds()
    ensures var b := Boot(Region(4, 60), [7, 7, 7, 7, 0, 0, 0, 0], [], {});
      var r := LoadVerify(b, Region(0, 4), 2, 4, _ => NO_FILE, (_, _) => true, true);
      r.outcome.Done? && r.boot.mem == b.mem && r.boot.reserved == []
  {
  }
}
