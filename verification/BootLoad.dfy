/** Loading of boot images into the free region, and their authentication up to the root of trust
    (trusted board boot, version 1 of the loader). Storage answers and verification are oracles: what
    `io` says about an image and what `accepts` says about its bytes are parameters of each call. */
module BootLoad {
  import opened Machine
  import opened MemLayout

  /** What the I/O layer answers while one image is loaded: result codes, the size it reports, and the
      bytes its read stores. */
  datatype Io = Io(sourceRc: int, openRc: int, sizeRc: int, size: nat, readRc: int, data: seq<Byte>)

  /** A read stores at most the bytes asked for. */
  function Delivered(io: Io): (d: seq<Byte>)
    ensures |d| <= io.size
  {
    if |io.data| <= io.size then io.data else io.data[..io.size]
  }

  /** Free memory, physical memory, the regions reserved so far and the images authenticated so far. */
  datatype Boot = Boot(free: Region, mem: seq<Byte>, reserved: seq<Region>, auth: set<int>)

  datatype LoadResult = LoadResult(boot: Boot, info: Region, rc: int)

  predicate Complete(io: Io) {
    io.readRc == 0 && |Delivered(io)| == io.size
  }

  /** `load_image`: an image of size zero and a short read that the I/O layer calls successful both
      make the call return 0 without reserving anything or describing the image. */
  function LoadImage(b: Boot, info: Region, base: nat, io: Io, entry: bool): LoadResult
  {
    if io.sourceRc != 0 then LoadResult(b, info, io.sourceRc)
    else if io.openRc != 0 then LoadResult(b, info, io.openRc)
    else if io.sizeRc != 0 || io.size == 0 then LoadResult(b, info, io.sizeRc)
    else if !IsMemFree(b.free, base, io.size) then LoadResult(b, info, -ENOMEM)
    else
      var b' := b.(mem := Store(b.mem, base, Delivered(io)));
      if !Complete(io) then LoadResult(b', info, io.readRc)
      else if entry then
        LoadResult(b'.(free := Reserve(b.free, base, io.size), reserved := b.reserved + [Region(base, io.size)]),
                   Region(base, io.size), 0)
      else LoadResult(b', Region(base, io.size), 0)
  }

  /** What a load returns: the first result that is not 0 of finding the source, opening it, asking for the size
      and reading, or -ENOMEM if the image does not fit; and only a read changes memory. */
  lemma LoadReturns(b: Boot, info: Region, base: nat, io: Io, entry: bool)
    ensures var l := LoadImage(b, info, base, io, entry);
      && (l.rc == 0 ==> io.sourceRc == 0 && io.openRc == 0 && io.sizeRc == 0)
      && (io.sourceRc != 0 ==> l.rc == io.sourceRc)
      && (io.sourceRc == 0 && io.openRc != 0 ==> l.rc == io.openRc)
      && (io.sourceRc == 0 && io.openRc == 0 && (io.sizeRc != 0 || io.size == 0) ==> l.rc == io.sizeRc)
      && (io.sourceRc == 0 && io.openRc == 0 && io.sizeRc == 0 && io.size > 0 ==>
            if IsMemFree(b.free, base, io.size) then
              l.rc == io.readRc && l.boot.mem == Store(b.mem, base, Delivered(io))
            else l.rc == -ENOMEM)
      && (l.boot.mem != b.mem ==> io.size > 0 && IsMemFree(b.free, base, io.size))
      && (l.boot.free != b.free ==> entry && l.rc == 0)
  {
  }

  // ---------------------------------------------------------------- runs of loads

  /** Reserved regions are pairwise disjoint, disjoint from what is free, and inside the initial free
      region, as is what is free. */
  predicate BootInv(initial: Region, b: Boot) {
    && Inside(b.free, initial)
    && (forall i :: 0 <= i < |b.reserved| ==> Inside(b.reserved[i], initial) && Disjoint(b.free, b.reserved[i]))
    && (forall i, j :: 0 <= i < j < |b.reserved| ==> Disjoint(b.reserved[i], b.reserved[j]))
  }

  /** Every byte of every region in `rs` is the same in both memories. */
  predicate SameIn(rs: seq<Region>, m: seq<Byte>, n: seq<Byte>) {
    |m| == |n| && forall i, a :: 0 <= i < |rs| && Contains(rs[i], a) && 0 <= a < |m| ==> m[a] == n[a]
  }

  lemma LoadKeeps(initial: Region, b: Boot, info: Region, base: nat, io: Io, entry: bool)
    requires BootInv(initial, b)
    ensures var b' := LoadImage(b, info, base, io, entry).boot;
      BootInv(initial, b') && b.reserved <= b'.reserved && SameIn(b.reserved, b.mem, b'.mem) && b'.auth == b.auth
  {
    if io.size > 0 && IsMemFree(b.free, base, io.size) {
      ReserveSplits(b.free, base, io.size);
    }
  }

  /** A load changes memory only inside the free region. */
  lemma LoadWritesFreeMemory(b: Boot, info: Region, base: nat, io: Io, entry: bool, a: nat)
    requires a < |b.mem| && LoadImage(b, info, base, io, entry).boot.mem[a] != b.mem[a]
    ensures Contains(b.free, a) && Contains(Region(base, io.size), a)
  {
  }

  datatype Load = Load(info: Region, base: nat, io: Io, entry: bool)

  function LoadAll(b: Boot, loads: seq<Load>): Boot {
    if loads == [] then b
    else
      var before, l := LoadAll(b, loads[..|loads| - 1]), loads[|loads| - 1];
      LoadImage(before, l.info, l.base, l.io, l.entry).boot
  }

  /** Over any sequence of loads, successful or not, on one layout: the reserved regions are pairwise
      disjoint, disjoint from the remaining free region and inside the initial one, and the bytes of
      every region reserved after the first `n` loads are still in place after all of them. */
  lemma {:induction false} LoadsNeverOverwrite(b: Boot, loads: seq<Load>, n: nat)
    requires b.reserved == [] && n <= |loads|
    ensures BootInv(b.free, LoadAll(b, loads))
    ensures LoadAll(b, loads[..n]).reserved <= LoadAll(b, loads).reserved
    ensures SameIn(LoadAll(b, loads[..n]).reserved, LoadAll(b, loads[..n]).mem, LoadAll(b, loads).mem)
    decreases |loads|
  {
    if n == |loads| {
      assert loads[..n] == loads;
    }
    if loads != [] {
      var init, l := loads[..|loads| - 1], loads[|loads| - 1];
      var m := if n < |loads| then n else n - 1;
      LoadsNeverOverwrite(b, init, m);
      assert n < |loads| ==> init[..m] == loads[..n];
      LoadKeeps(b.free, LoadAll(b, init), l.info, l.base, l.io, l.entry);
    }
  }

  // ---------------------------------------------------------------- authentication

  datatype Outcome = Done | LoadFailed(rc: int) | AuthFailed

  /** One image that the loader was asked for, and how that ended. */
  datatype Visit = Visit(id: int, outcome: Outcome)

  datatype AuthResult = AuthResult(boot: Boot, info: Region, outcome: Outcome, log: seq<Visit>)

  function BytesOf(mem: seq<Byte>, r: Region): seq<Byte> {
    if r.base + r.size <= |mem| then mem[r.base..r.base + r.size] else []
  }

  function Zeros(n: nat): (z: seq<Byte>)
    ensures |z| == n && forall i :: 0 <= i < n ==> z[i] == 0
  {
    seq(n, _ => 0)
  }

  /** Load one image and verify what its description says was loaded; erase it when it is rejected. */
  function LoadVerify(b: Boot, info: Region, id: int, base: nat, io: int -> Io, accepts: (int, seq<Byte>) -> bool,
      entry: bool):
    AuthResult
  {
    var l := LoadImage(b, info, base, io(id), entry);
    if l.rc != 0 then AuthResult(l.boot, l.info, LoadFailed(l.rc), [Visit(id, LoadFailed(l.rc))])
    else if accepts(id, BytesOf(l.boot.mem, l.info)) then
      AuthResult(l.boot.(auth := l.boot.auth + {id}), l.info, Done, [Visit(id, Done)])
    else
      AuthResult(l.boot.(mem := Store(l.boot.mem, l.info.base, Zeros(l.info.size))), l.info, AuthFailed,
                 [Visit(id, AuthFailed)])
  }

  /** `rank` witnesses that the parent relation has no cycle. */
  ghost predicate Ranked(cot: map<int, int>, rank: map<int, nat>) {
    forall id :: id in cot ==> id in rank && cot[id] in rank && rank[cot[id]] < rank[id]
  }

  /** No cycle: every set of images with parents has a member whose parent lies outside it. */
  ghost predicate Acyclic(cot: map<int, int>) {
    forall s: set<int> :: s != {} && s <= cot.Keys ==> exists x :: x in s && cot[x] !in s
  }

  /** Ranks for the images whose ancestors are all outside `rest` extend to all images. */
  lemma {:induction false} ExtendRank(cot: map<int, int>, rest: set<int>, rank: map<int, nat>)
      returns (full: map<int, nat>)
    requires Acyclic(cot) && rest <= cot.Keys
    requires forall id :: id in cot && id !in rest ==> id in rank && cot[id] in rank && rank[cot[id]] < rank[id]
    requires forall id :: id in cot && cot[id] !in rest ==> cot[id] in rank
    requires forall id :: id in rest ==> id !in rank
    ensures Ranked(cot, full)
    decreases rest
  {
    if rest == {} {
      full := rank;
    } else {
      var x :| x in rest && cot[x] !in rest;
      full := ExtendRank(cot, rest - {x}, rank[x := rank[cot[x]] + 1]);
    }
  }

  lemma AcyclicRanked(cot: map<int, int>) returns (rank: map<int, nat>)
    requires Acyclic(cot)
    ensures Ranked(cot, rank)
  {
    var roots: set<int> := set id | id in cot && cot[id] !in cot :: cot[id];
    rank := ExtendRank(cot, cot.Keys, map r | r in roots :: 0);
  }

  ghost function Height(rank: map<int, nat>, id: int): nat {
    if id in rank then rank[id] else 0
  }

  /** `load_auth_image` with trusted boot: the parent first, unless it is authenticated already. */
  ghost function LoadAuth(cot: map<int, int>, rank: map<int, nat>, b: Boot, info: Region, id: int, base: nat,
                          io: int -> Io, accepts: (int, seq<Byte>) -> bool, entry: bool): AuthResult
    requires Ranked(cot, rank)
    decreases Height(rank, id)
  {
    if id in cot && cot[id] !in b.auth then
      var p := LoadAuth(cot, rank, b, info, cot[id], base, io, accepts, false);
      if p.outcome != Done then p
      else
        var r := LoadVerify(p.boot, p.info, id, base, io, accepts, entry);
        r.(log := p.log + r.log)
    else LoadVerify(b, info, id, base, io, accepts, entry)
  }

  /** The images still to be authenticated for `id`, the one nearest the root first. */
  ghost function Chain(cot: map<int, int>, rank: map<int, nat>, auth: set<int>, id: int): (c: seq<int>)
    requires Ranked(cot, rank)
    ensures c != [] && c[|c| - 1] == id
    decreases Height(rank, id)
  {
    if id in cot && cot[id] !in auth then Chain(cot, rank, auth, cot[id]) + [id] else [id]
  }

  /** `child` comes right after its parent, which is not authenticated yet. */
  predicate IsLink(cot: map<int, int>, auth: set<int>, parent: int, child: int) {
    child in cot && cot[child] == parent && parent !in auth
  }

  /** The chain goes from child to parent backwards, up to the first parent that is authenticated already or the
      root; what lies before its end is not authenticated yet. */
  lemma {:induction false} ChainShape(cot: map<int, int>, rank: map<int, nat>, auth: set<int>, id: int)
    requires Ranked(cot, rank)
    ensures var c := Chain(cot, rank, auth, id);
      && (c[0] in cot ==> cot[c[0]] in auth)
      && forall i :: 0 < i < |c| ==> IsLink(cot, auth, c[i - 1], c[i])
    decreases Height(rank, id)
  {
    if id in cot && cot[id] !in auth {
      ChainShape(cot, rank, auth, cot[id]);
      var c, d := Chain(cot, rank, auth, id), Chain(cot, rank, auth, cot[id]);
      forall i | 0 < i < |c|
        ensures IsLink(cot, auth, c[i - 1], c[i])
      {
        if i < |d| {
          assert IsLink(cot, auth, d[i - 1], d[i]);
        }
      }
    }
  }

  function Ids(c: seq<int>): set<int> {
    set x | x in c
  }

  /** The call that began with `auth` loaded and accepted all of `c`, in this order. */
  predicate WentThrough(auth: set<int>, c: seq<int>, r: AuthResult) {
    && r.outcome.Done? && r.boot.auth == auth + Ids(c)
    && |r.log| == |c| && forall i :: 0 <= i < |c| ==> r.log[i] == Visit(c[i], Done)
  }

  /** The call loaded and accepted the images of `c` before position `k` and failed at that one. */
  predicate StoppedAt(auth: set<int>, c: seq<int>, k: nat, r: AuthResult) {
    && k < |c| && !r.outcome.Done? && r.boot.auth == auth + Ids(c[..k])
    && |r.log| == k + 1 && r.log[k] == Visit(c[k], r.outcome)
    && forall i :: 0 <= i < k ==> r.log[i] == Visit(c[i], Done)
  }

  lemma VerifyLog(b: Boot, info: Region, id: int, base: nat, io: int -> Io, accepts: (int, seq<Byte>) -> bool,
      entry: bool)
    ensures var v := LoadVerify(b, info, id, base, io, accepts, entry);
      v.boot.auth == (if v.outcome.Done? then b.auth + {id} else b.auth) && v.log == [Visit(id, v.outcome)]
  {
  }

  lemma OneMore(auth: set<int>, c: seq<int>, id: int, before: AuthResult, v: AuthResult)
    requires WentThrough(auth, c, before)
    requires v.boot.auth == (if v.outcome.Done? then before.boot.auth + {id} else before.boot.auth)
    requires v.log == before.log + [Visit(id, v.outcome)]
    ensures if v.outcome.Done? then WentThrough(auth, c + [id], v) else StoppedAt(auth, c + [id], |c|, v)
  {
    assert (c + [id])[..|c|] == c;
    assert Ids(c + [id]) == Ids(c) + {id};
  }

  /** The call handles the chain in root-first order, one image at a time. It succeeds exactly when every
      image of the chain was loaded and accepted; otherwise it stops at the first image that could not
      be loaded or was rejected, and no image below that one is even attempted. */
  lemma {:induction false} AuthenticatesRootFirst(cot: map<int, int>, rank: map<int, nat>, b: Boot, info: Region,
      id: int, base: nat, io: int -> Io, accepts: (int, seq<Byte>) -> bool, entry: bool) returns (k: nat)
    requires Ranked(cot, rank)
    ensures var r, c := LoadAuth(cot, rank, b, info, id, base, io, accepts, entry), Chain(cot, rank, b.auth, id);
      if r.outcome.Done? then WentThrough(b.auth, c, r) else StoppedAt(b.auth, c, k, r)
    decreases Height(rank, id)
  {
    if id in cot && cot[id] !in b.auth {
      var p, d := LoadAuth(cot, rank, b, info, cot[id], base, io, accepts, false), Chain(cot, rank, b.auth, cot[id]);
      k := AuthenticatesRootFirst(cot, rank, b, info, cot[id], base, io, accepts, false);
      if p.outcome.Done? {
        k := |d|;
        var v := LoadVerify(p.boot, p.info, id, base, io, accepts, entry);
        VerifyLog(p.boot, p.info, id, base, io, accepts, entry);
        OneMore(b.auth, d, id, p, v.(log := p.log + v.log));
      } else {
        assert (d + [id])[..k] == d[..k];
      }
    } else {
      k := 0;
      VerifyLog(b, info, id, base, io, accepts, entry);
      OneMore(b.auth, [], id, AuthResult(b, info, Done, []), LoadVerify(b, info, id, base, io, accepts, entry));
    }
  }

  /** Whoever is authenticated has an authenticated parent. */
  predicate AuthClosed(cot: map<int, int>, auth: set<int>) {
    forall id :: id in auth && id in cot ==> cot[id] in auth
  }

  ghost predicate IsAncestor(cot: map<int, int>, rank: map<int, nat>, x: int, id: int)
    requires Ranked(cot, rank)
    decreases Height(rank, id)
  {
    id in cot && (x == cot[id] || IsAncestor(cot, rank, x, cot[id]))
  }

  /** One load and verification: success means that the memory described was accepted, a rejection that
      it is zero now. */
  lemma VerifyAuthentic(b: Boot, info: Region, id: int, base: nat, io: int -> Io, accepts: (int, seq<Byte>) -> bool,
      entry: bool)
    ensures var r := LoadVerify(b, info, id, base, io, accepts, entry);
      && (r.outcome.Done? ==> r.boot.auth == b.auth + {id} && accepts(id, BytesOf(r.boot.mem, r.info)))
      && (!r.outcome.Done? ==> r.boot.auth == b.auth)
      && (r.outcome.AuthFailed? ==> forall a :: Contains(r.info, a) && a < |r.boot.mem| ==> r.boot.mem[a] == 0)
  {
  }

  /** After a successful call the image and every ancestor are authenticated, and the memory described
      is what verification accepted for the image. After a rejection the described memory is zero. */
  lemma {:induction false} SuccessMeansAuthentic(cot: map<int, int>, rank: map<int, nat>, b: Boot, info: Region,
      id: int, base: nat, io: int -> Io, accepts: (int, seq<Byte>) -> bool, entry: bool)
    requires Ranked(cot, rank) && AuthClosed(cot, b.auth)
    ensures var r := LoadAuth(cot, rank, b, info, id, base, io, accepts, entry);
      && AuthClosed(cot, r.boot.auth)
      && (r.outcome.Done? ==> id in r.boot.auth && accepts(id, BytesOf(r.boot.mem, r.info)))
      && (r.outcome.AuthFailed? ==> forall a :: Contains(r.info, a) && a < |r.boot.mem| ==> r.boot.mem[a] == 0)
    decreases Height(rank, id)
  {
    if id in cot && cot[id] !in b.auth {
      SuccessMeansAuthentic(cot, rank, b, info, cot[id], base, io, accepts, false);
      var p := LoadAuth(cot, rank, b, info, cot[id], base, io, accepts, false);
      if p.outcome.Done? {
        VerifyAuthentic(p.boot, p.info, id, base, io, accepts, entry);
      }
    } else {
      VerifyAuthentic(b, info, id, base, io, accepts, entry);
    }
  }

  lemma {:induction false} AncestorsAuthenticated(cot: map<int, int>, rank: map<int, nat>, auth: set<int>, id: int,
      x: int)
    requires Ranked(cot, rank) && AuthClosed(cot, auth) && id in auth && IsAncestor(cot, rank, x, id)
    ensures x in auth
    decreases Height(rank, id)
  {
    if x != cot[id] {
      AncestorsAuthenticated(cot, rank, auth, cot[id], x);
    }
  }
}
