/** What image memory holds during a firmware update: block copying refines a one-shot copy, and an
    executed image still holds the bytes that were authenticated.

    Hypotheses on a run (`CleanStep`): a continued copy does not wrap its 32-bit size sum, a fresh copy
    does not declare memory that another image holds, mapped sources exist, and between SMCs the running
    world does not write to images that BL1 is copying or holding authenticated. */
module FwuImages {
  import opened Machine
  import opened FwuModel

  /** BL1 is copying the image, or has copied it and not authenticated it yet. */
  predicate Filled(d: ImageDesc) {
    d.state.Copying? || d.state.Copied?
  }

  /** BL1 is copying the image or keeping it for execution. */
  predicate Held(d: ImageDesc) {
    d.secure && (Filled(d) || d.state.Authenticated?)
  }

  /** `n` bytes from `a` and `m` bytes from `b` share no address. */
  predicate Apart(a: nat, n: nat, b: nat, m: nat) {
    n == 0 || m == 0 || a + n <= b || b + m <= a
  }

  /** The free trusted RAM exists. */
  predicate MapOk(p: Platform, s: State) {
    p.freeBase + p.freeSize <= |s.mem|
  }

  /** What COPYING and COPIED mean for one descriptor. */
  predicate BlockInv(p: Platform, d: ImageDesc) {
    Filled(d) ==>
      && d.secure
      && p.freeBase <= d.imageBase && d.imageBase + d.imageSize <= p.freeBase + p.freeSize
      && 0 < d.copiedSize
      && (d.state.Copying? ==> d.copiedSize < d.imageSize)
      && (d.state.Copied? ==> d.copiedSize == d.imageSize)
  }

  predicate ImagesApart(x: ImageDesc, y: ImageDesc) {
    Apart(x.imageBase, x.imageSize, y.imageBase, y.imageSize)
  }

  /** No image that is being copied or erased overlaps image `id`. */
  predicate Undisturbed(s: State, id: ImageId) {
    id in s.descs &&
    forall x :: x in s.descs && x != id && Filled(s.descs[x]) ==> ImagesApart(s.descs[x], s.descs[id])
  }

  predicate ImageInv(p: Platform, s: State) {
    && MapOk(p, s)
    && (forall id :: id in s.descs ==> BlockInv(p, s.descs[id]))
    && (forall id :: id in s.descs && Filled(s.descs[id]) ==> Undisturbed(s, id))
  }

  /** Address `a` belongs to image `id`. */
  predicate InImage(s: State, id: ImageId, a: nat) {
    id in s.descs && s.descs[id].imageBase <= a < s.descs[id].imageBase + s.descs[id].imageSize
  }

  /** A copy of `size` bytes for `id` meets no other image that BL1 holds. */
  predicate Clear(s: State, id: ImageId, size: nat) {
    id in s.descs &&
    forall x :: x in s.descs && x != id && Held(s.descs[x]) ==>
      Apart(s.descs[id].imageBase, size, s.descs[x].imageBase, s.descs[x].imageSize)
  }

  predicate NoWrap(d: ImageDesc, block: U32) {
    d.state.Copying? ==> d.copiedSize + block < TWO_32
  }

  predicate CopyAccepted(p: Platform, s: State, r: Request, id: ImageId) {
    r.Copy? && r.id == id && CopyAllowed(s, id) && Step(p, s, r).1 == Returned(0)
  }

  ghost predicate CleanStep(p: Platform, s: State, r: Request) {
    match r
    case Copy(id, src, block, size, mapped) =>
      CopyAccepted(p, s, r, id) ==>
        && NoWrap(s.descs[id], block)
        && (s.descs[id].state.Reset? ==> Clear(s, id, size))
        && src + BlockMoved(s.descs[id], block, size) <= |s.mem|
    case Work(mem, _) =>
      && |mem| == |s.mem|
      && forall id, a: nat :: InImage(s, id, a) && a < |mem| && Held(s.descs[id]) ==> mem[a] == s.mem[a]
    case _ => true
  }

  ghost predicate CleanRun(p: Platform, tr: seq<State>, rs: seq<Request>) {
    && IsRun(p, tr, rs)
    && MapOk(p, tr[0])
    && forall i :: 0 <= i < |rs| ==> CleanStep(p, tr[i], rs[i])
  }

  /** Without the hypothesis on the 32-bit sum: a continued copy stays inside its image if and only if
      the sum does not wrap. */
  lemma ContinuedCopyInsideIff(p: Platform, d: ImageDesc, block: U32, size: U32)
    requires BlockInv(p, d) && d.state.Copying?
    ensures d.copiedSize + BlockMoved(d, block, size) <= d.imageSize <==> d.copiedSize + block < TWO_32
  {
  }

  /** The step keeps every byte of the images that BL1 holds, other than the one it is about. */
  ghost predicate Spares(p: Platform, s: State, r: Request, id: ImageId) {
    forall x, a: nat :: InImage(s, x, a) && a < |s.mem| && x != id && Held(s.descs[x]) ==>
      a < |Step(p, s, r).0.mem| && Step(p, s, r).0.mem[a] == s.mem[a]
  }

  /** A copy moves what is in memory, whatever that is: each destination byte is at risk. */
  lemma CopyKeepsIff(n: nat, dst: nat, src: nat, k: nat, a: nat)
    requires a < n && src != dst && src + k <= n
    ensures (forall mem: seq<Byte> :: |mem| == n ==> MemCopy(mem, dst, src, k)[a] == mem[a])
      <==> !(dst <= a < dst + k)
  {
    if dst <= a < dst + k {
      var mem := seq(n, i => if i == a then 1 else 0);
      assert MemCopy(mem, dst, src, k)[a] != mem[a];
    }
  }

  /** Without the hypothesis on fresh copies: whatever the memory holds and however much of the image the
      call brings, a fresh copy spares the images that BL1 holds if and only if the size it declares is
      clear of them. The call itself checks the declared size against the free trusted RAM alone. */
  lemma FreshCopySparesIff(p: Platform, s: State, id: ImageId, src: nat, size: U32)
    requires MapOk(p, s) && CopyAllowed(s, id) && s.descs[id].state.Reset? && RoomFor(p, s.descs[id], size)
    requires 0 < src != s.descs[id].imageBase && src + size <= |s.mem|
    ensures (forall mem: seq<Byte>, block: U32 :: |mem| == |s.mem| ==>
              Spares(p, s.(mem := mem), Copy(id, src, block, size, true), id))
      <==> Clear(s, id, size)
  {
    if Clear(s, id, size) {
      forall mem: seq<Byte>, block: U32 | |mem| == |s.mem|
        ensures Spares(p, s.(mem := mem), Copy(id, src, block, size, true), id)
      {
      }
    } else {
      var x :| x in s.descs && x != id && Held(s.descs[x]) &&
        !Apart(s.descs[id].imageBase, size, s.descs[x].imageBase, s.descs[x].imageSize);
      OverlapIsHit(p, s, id, src, size, x);
    }
  }

  /** A one-block copy over a held image changes it, for some memory. */
  lemma OverlapIsHit(p: Platform, s: State, id: ImageId, src: nat, size: U32, x: ImageId)
    requires MapOk(p, s) && CopyAllowed(s, id) && s.descs[id].state.Reset? && RoomFor(p, s.descs[id], size)
    requires 0 < src != s.descs[id].imageBase && src + size <= |s.mem|
    requires x in s.descs && x != id && Held(s.descs[x])
    requires !Apart(s.descs[id].imageBase, size, s.descs[x].imageBase, s.descs[x].imageSize)
    ensures exists mem: seq<Byte> ::
      |mem| == |s.mem| && !Spares(p, s.(mem := mem), Copy(id, src, size, size, true), id)
  {
    var b, c := s.descs[id].imageBase, s.descs[x].imageBase;
    var a := if b < c then c else b;
    CopyKeepsIff(|s.mem|, b, src, size, a);
    var mem: seq<Byte> :| |mem| == |s.mem| && MemCopy(mem, b, src, size)[a] != mem[a];
    var t := s.(mem := mem);
    assert InImage(t, x, a) && Step(p, t, Copy(id, src, size, size, true)).0.mem == MemCopy(mem, b, src, size);
  }

  /** Descriptors keep their base, world and executability; only the named image changes state. */
  lemma DescsStep(p: Platform, s: State, r: Request, id: ImageId)
    requires id in s.descs
    ensures var s' := Step(p, s, r).0;
      && s'.descs.Keys == s.descs.Keys
      && s'.descs[id].imageBase == s.descs[id].imageBase
      && s'.descs[id].secure == s.descs[id].secure
      && s'.descs[id].executable == s.descs[id].executable
  {
  }

  lemma BlockInvStep(p: Platform, s: State, r: Request, id: ImageId)
    requires id in s.descs && BlockInv(p, s.descs[id]) && CleanStep(p, s, r)
    ensures id in Step(p, s, r).0.descs && BlockInv(p, Step(p, s, r).0.descs[id])
  {
  }

  /** A clean step keeps the others off an image that it leaves as it is. */
  lemma UndisturbedStep(p: Platform, s: State, r: Request, id: ImageId)
    requires CleanStep(p, s, r) && Undisturbed(s, id) && Held(s.descs[id])
    requires id in Step(p, s, r).0.descs && Step(p, s, r).0.descs[id].imageBase == s.descs[id].imageBase
    requires Step(p, s, r).0.descs[id].imageSize == s.descs[id].imageSize
    ensures Undisturbed(Step(p, s, r).0, id)
  {
    var s' := Step(p, s, r).0;
    forall x | x in s'.descs && x != id && Filled(s'.descs[x])
      ensures ImagesApart(s'.descs[x], s'.descs[id])
    {
      assert x in s.descs;
      DescsStep(p, s, r, x);
      if Filled(s.descs[x]) {
        SameSize(p, s, r, x);
      } else {
        BecomesFilled(p, s, r, x);
      }
    }
  }

  /** An image stays the size that it is while it is being copied. */
  lemma SameSize(p: Platform, s: State, r: Request, x: ImageId)
    requires x in s.descs && Filled(s.descs[x])
    ensures x in Step(p, s, r).0.descs
    ensures Filled(Step(p, s, r).0.descs[x]) ==> Step(p, s, r).0.descs[x].imageSize == s.descs[x].imageSize
  {
  }

  /** An image starts to be copied by an accepted fresh copy, which declares its size. */
  lemma BecomesFilled(p: Platform, s: State, r: Request, x: ImageId)
    requires x in s.descs && !Filled(s.descs[x]) && x in Step(p, s, r).0.descs && Filled(Step(p, s, r).0.descs[x])
    ensures CopyAccepted(p, s, r, x) && s.descs[x].state.Reset? && Step(p, s, r).0.descs[x].imageSize == r.size
  {
  }

  /** An image that is being copied after a clean step is apart from the others that are. */
  lemma FilledStep(p: Platform, s: State, r: Request, id: ImageId)
    requires ImageInv(p, s) && CleanStep(p, s, r) && id in s.descs
    requires id in Step(p, s, r).0.descs && Filled(Step(p, s, r).0.descs[id])
    ensures Undisturbed(Step(p, s, r).0, id)
  {
    DescsStep(p, s, r, id);
    if Filled(s.descs[id]) {
      SameSize(p, s, r, id);
      UndisturbedStep(p, s, r, id);
    } else {
      BecomesFilled(p, s, r, id);
      var s' := Step(p, s, r).0;
      forall x | x in s'.descs && x != id && Filled(s'.descs[x])
        ensures ImagesApart(s'.descs[x], s'.descs[id])
      {
        assert s'.descs[x] == s.descs[x] && BlockInv(p, s.descs[x]);
      }
    }
  }

  lemma ImageInvStep(p: Platform, s: State, r: Request)
    requires ImageInv(p, s) && CleanStep(p, s, r)
    ensures ImageInv(p, Step(p, s, r).0)
    ensures Step(p, s, r).0.descs.Keys == s.descs.Keys
  {
    var s' := Step(p, s, r).0;
    assert s'.descs.Keys == s.descs.Keys;
    assert |s'.mem| == |s.mem|;
    forall id | id in s'.descs
      ensures BlockInv(p, s'.descs[id]) && (Filled(s'.descs[id]) ==> Undisturbed(s', id))
    {
      BlockInvStep(p, s, r, id);
      if Filled(s'.descs[id]) {
        FilledStep(p, s, r, id);
      }
    }
  }

  lemma {:induction false} ImageInvRun(p: Platform, tr: seq<State>, rs: seq<Request>, i: nat)
    requires CleanRun(p, tr, rs) && i < |tr|
    ensures ImageInv(p, tr[i])
    ensures tr[i].descs.Keys == tr[0].descs.Keys
  {
    if i > 0 {
      ImageInvRun(p, tr, rs, i - 1);
      ImageInvStep(p, tr[i - 1], rs[i - 1]);
      assert tr[i - 1 + 1] == Step(p, tr[i - 1], rs[i - 1]).0;
    }
  }

  /** What an accepted copy call does to the descriptor, with the 32-bit arithmetic resolved. */
  lemma AdvancedBy(p: Platform, d: ImageDesc, block: U32, size: U32)
    requires (d.state.Reset? || d.state.Copying?) && block != 0
    requires BlockInv(p, d) && NoWrap(d, block) && RoomFor(p, d, size)
    ensures var n := if block < Total(d, size) - Offset(d) then block else Total(d, size) - Offset(d);
      && 0 < n == BlockMoved(d, block, size)
      && Advanced(d, block, size) == d.(
           state := if Offset(d) + n == Total(d, size) then Copied else Copying,
           copiedSize := Offset(d) + n, imageSize := Total(d, size))
      && Offset(d) + n <= Total(d, size)
      && p.freeBase <= d.imageBase && d.imageBase + Total(d, size) <= p.freeBase + p.freeSize
  {
  }

  lemma CopyWritesInside(p: Platform, s: State, id: ImageId, src: nat, block: U32, size: U32, mapped: bool, a: nat)
    requires ImageInv(p, s) && CleanStep(p, s, Copy(id, src, block, size, mapped)) && a < |s.mem|
    requires CopyStep(p, s, id, src, block, size, mapped).0.mem[a] != s.mem[a]
    ensures id in s.descs && s.descs[id].secure
    ensures var n := CopyStep(p, s, id, src, block, size, mapped).0.descs[id].imageSize;
      && s.descs[id].imageBase <= a < s.descs[id].imageBase + n
      && p.freeBase <= a < p.freeBase + p.freeSize
  {
    assert BlockInv(p, s.descs[id]);
    AdvancedBy(p, s.descs[id], block, size);
  }

  lemma AuthWritesInside(p: Platform, s: State, id: ImageId, src: nat, size: U32, mapped: bool, accepted: bool, a: nat)
    requires ImageInv(p, s) && a < |s.mem|
    requires AuthStep(s, id, src, size, mapped, accepted).0.mem[a] != s.mem[a]
    ensures id in s.descs && s.descs[id].secure
    ensures var n := AuthStep(s, id, src, size, mapped, accepted).0.descs[id].imageSize;
      && s.descs[id].imageBase <= a < s.descs[id].imageBase + n
      && p.freeBase <= a < p.freeBase + p.freeSize
  {
    assert BlockInv(p, s.descs[id]);
  }

  /** Every byte a handler writes lies in the image it works on and inside the free trusted RAM. */
  lemma WritesStayInside(p: Platform, s: State, r: Request, a: nat)
    requires ImageInv(p, s) && CleanStep(p, s, r) && !r.Work?
    requires a < |s.mem| && Step(p, s, r).0.mem[a] != s.mem[a]
    ensures p.freeBase <= a < p.freeBase + p.freeSize
    ensures (r.Copy? || r.Auth?) && r.id in s.descs && s.descs[r.id].secure
    ensures InImage(Step(p, s, r).0, r.id, a)
  {
    match r {
      case Copy(id, src, block, size, mapped) => CopyWritesInside(p, s, id, src, block, size, mapped, a);
      case Auth(id, src, size, mapped, accepted) => AuthWritesInside(p, s, id, src, size, mapped, accepted, a);
      case _ =>
    }
  }

  /** A copied image that fails authentication is erased, all of it and nothing else, and may be
      copied again. */
  lemma RejectedImageErased(p: Platform, s: State, id: ImageId, src: nat, size: U32, mapped: bool)
    requires ImageInv(p, s) && s.world.NonSecure? && AuthAllowed(s, id) && s.descs[id].secure
    ensures var (s', code) := AuthStep(s, id, src, size, mapped, false);
      && code == -EAUTH && s'.descs == s.descs[id := s.descs[id].(state := Reset)]
      && forall a :: 0 <= a < |s.mem| ==>
           var d := s.descs[id];
           s'.mem[a] == if d.imageBase <= a < d.imageBase + d.imageSize then 0 else s.mem[a]
  {
  }

  /** An accepted block strictly shrinks what is left, and finishes the image exactly when it is at
      least as long as what was left. */
  lemma BlockProgress(p: Platform, s: State, r: Request)
    requires ImageInv(p, s) && CleanStep(p, s, r) && r.Copy? && CopyAccepted(p, s, r, r.id)
    ensures var d, d' := s.descs[r.id], Step(p, s, r).0.descs[r.id];
      var left := Total(d, r.size) - Offset(d);
      && 0 <= d'.imageSize - d'.copiedSize < left
      && (d'.state.Copied? <==> r.block >= left)
      && (d'.state.Copied? <==> d'.copiedSize == d'.imageSize)
  {
    assert BlockInv(p, s.descs[r.id]);
    AdvancedBy(p, s.descs[r.id], r.block, r.size);
  }

  /** The declared size and the bytes accepted so far for `id`, read off the calls of the run alone:
      the call that found the image in RESET declares the size, and each accepted call adds what it
      clipped from its source. */
  datatype Transfer = Transfer(declared: int, bytes: seq<Byte>)

  function Bytes(mem: seq<Byte>, at: nat, n: nat): seq<Byte> {
    if at + n <= |mem| then mem[at..at + n] else []
  }

  /** A call that finds the image in RESET starts afresh. */
  function SoFar(d: ImageDesc, before: Transfer): seq<Byte> {
    if d.state.Reset? then [] else before.bytes
  }

  /** The transfer after an accepted copy call. */
  function Extended(mem: seq<Byte>, d: ImageDesc, src: nat, block: U32, size: U32, before: Transfer): Transfer
  {
    var declared, sofar := if d.state.Reset? then size else before.declared, SoFar(d, before);
    var left := declared - |sofar|;
    Transfer(declared, sofar + Bytes(mem, src, if 0 <= left < block then left else block))
  }

  /** The transfer after any step. */
  function Grown(p: Platform, s: State, r: Request, id: ImageId, before: Transfer): Transfer {
    if CopyAccepted(p, s, r, id) then Extended(s.mem, s.descs[id], r.src, r.block, r.size, before) else before
  }

  ghost function Received(p: Platform, tr: seq<State>, rs: seq<Request>, i: nat, id: ImageId): Transfer
    requires |tr| == |rs| + 1 && i < |tr|
  {
    if i == 0 then Transfer(0, [])
    else Grown(p, tr[i - 1], rs[i - 1], id, Received(p, tr, rs, i - 1, id))
  }

  /** The step leaves the memory of a held image alone unless it works on that image. */
  lemma HeldMemoryKept(p: Platform, s: State, r: Request, id: ImageId, a: nat)
    requires ImageInv(p, s) && CleanStep(p, s, r)
    requires InImage(s, id, a) && a < |s.mem| && Held(s.descs[id]) && Undisturbed(s, id)
    requires (r.Copy? || r.Auth?) && r.id == id ==> Step(p, s, r).0.mem == s.mem
    ensures Step(p, s, r).0.mem[a] == s.mem[a]
  {
    if r.Work? {
    } else if Step(p, s, r).0.mem[a] != s.mem[a] {
      WritesStayInside(p, s, r, a);
      WriterIsApart(p, s, r, id);
      assert false;
    }
  }

  /** An image that a step writes is apart from a held one. */
  lemma WriterIsApart(p: Platform, s: State, r: Request, id: ImageId)
    requires CleanStep(p, s, r) && id in s.descs && Held(s.descs[id]) && Undisturbed(s, id)
    requires (r.Copy? || r.Auth?) && r.id in s.descs && r.id != id && Step(p, s, r).0.mem != s.mem
    ensures r.id in Step(p, s, r).0.descs && ImagesApart(Step(p, s, r).0.descs[r.id], s.descs[id])
  {
  }

  /** Memory holds `bytes` from address `base` on. */
  predicate At(mem: seq<Byte>, base: nat, bytes: seq<Byte>) {
    base + |bytes| <= |mem| && mem[base..base + |bytes|] == bytes
  }

  /** The first `copiedSize` bytes at the image base are those of the transfer. */
  predicate Placed(mem: seq<Byte>, d: ImageDesc, t: Transfer) {
    d.imageSize == t.declared && d.copiedSize == |t.bytes| && At(mem, d.imageBase, t.bytes)
  }

  predicate InPlace(s: State, id: ImageId, t: Transfer) {
    id in s.descs && Filled(s.descs[id]) ==> Placed(s.mem, s.descs[id], t)
  }

  lemma CopyPlaces(mem: seq<Byte>, base: nat, c: nat, src: nat, n: nat, sofar: seq<Byte>, bytes: seq<Byte>)
    requires |sofar| == c && At(mem, base, sofar) && base + c + n <= |mem| && src + n <= |mem|
    requires bytes == sofar + mem[src..src + n]
    ensures At(MemCopy(mem, base + c, src, n), base, bytes)
  {
    var mem' := MemCopy(mem, base + c, src, n);
    MemCopied(mem, base + c, src, n);
    assert mem'[base..base + c] == sofar;
    assert mem'[base..base + (c + n)] == mem'[base..base + c] + mem'[base + c..base + c + n];
  }

  lemma ExtendedBy(mem: seq<Byte>, d: ImageDesc, src: nat, block: U32, size: U32, t: Transfer, n: nat)
    requires d.state.Reset? || (d.state.Copying? && Placed(mem, d, t))
    requires Offset(d) <= Total(d, size)
    requires n == if block < Total(d, size) - Offset(d) then block else Total(d, size) - Offset(d)
    requires src + n <= |mem|
    ensures var t' := Extended(mem, d, src, block, size, t);
      && t'.declared == Total(d, size)
      && t'.bytes == SoFar(d, t) + mem[src..src + n]
      && |t'.bytes| == Offset(d) + n
  {
  }

  lemma PlacedAfter(mem: seq<Byte>, d: ImageDesc, c: nat, src: nat, n: nat, sofar: seq<Byte>, t: Transfer)
    requires |sofar| == c && At(mem, d.imageBase, sofar) && d.imageBase + c + n <= |mem| && src + n <= |mem|
    requires t.bytes == sofar + mem[src..src + n] && d.copiedSize == c + n && d.imageSize == t.declared
    ensures Placed(MemCopy(mem, d.imageBase + c, src, n), d, t)
  {
    CopyPlaces(mem, d.imageBase, c, src, n, sofar, t.bytes);
  }

  /** The numbers of an accepted call. */
  lemma CopyFacts(p: Platform, d: ImageDesc, block: U32, size: U32, n: nat, d': ImageDesc)
    requires d.state.Reset? || d.state.Copying?
    requires block != 0 && BlockInv(p, d) && NoWrap(d, block) && RoomFor(p, d, size)
    requires n == BlockMoved(d, block, size) && d' == Advanced(d, block, size)
    ensures d'.imageBase == d.imageBase && d'.imageSize == Total(d, size) && d'.copiedSize == Offset(d) + n
    ensures n == if block < Total(d, size) - Offset(d) then block else Total(d, size) - Offset(d)
    ensures Offset(d) <= Total(d, size) && d.imageBase + Offset(d) + n <= p.freeBase + p.freeSize
  {
    AdvancedBy(p, d, block, size);
  }

  /** The transfer that a call extends is in place before the call. */
  lemma SoFarPlaced(mem: seq<Byte>, d: ImageDesc, t: Transfer)
    requires d.state.Reset? || (d.state.Copying? && Placed(mem, d, t))
    requires d.imageBase <= |mem|
    ensures |SoFar(d, t)| == Offset(d) && At(mem, d.imageBase, SoFar(d, t))
  {
  }

  /** The block an accepted call writes is the block the transfer gains. */
  lemma PlacedCopy(p: Platform, mem: seq<Byte>, d: ImageDesc, src: nat, block: U32, size: U32, t: Transfer, n: nat,
                   d': ImageDesc, t': Transfer)
    requires d.state.Reset? || (d.state.Copying? && Placed(mem, d, t))
    requires block != 0 && BlockInv(p, d) && NoWrap(d, block) && RoomFor(p, d, size)
    requires n == BlockMoved(d, block, size) && p.freeBase + p.freeSize <= |mem| && src + n <= |mem|
    requires d' == Advanced(d, block, size) && t' == Extended(mem, d, src, block, size, t)
    ensures Placed(MemCopy(mem, d.imageBase + Offset(d), src, n), d', t')
  {
    CopyFacts(p, d, block, size, n, d');
    ExtendedBy(mem, d, src, block, size, t, n);
    SoFarPlaced(mem, d, t);
    PlacedAfter(mem, d', Offset(d), src, n, SoFar(d, t), t');
  }

  lemma InPlaceKept(p: Platform, s: State, r: Request, id: ImageId, t: Transfer)
    requires ImageInv(p, s) && CleanStep(p, s, r)
    requires id in s.descs && Held(s.descs[id]) && Placed(s.mem, s.descs[id], t)
    requires s.descs[id].copiedSize <= s.descs[id].imageSize && Undisturbed(s, id)
    requires (r.Copy? || r.Auth?) && r.id == id ==> Step(p, s, r).0.mem == s.mem
    ensures Placed(Step(p, s, r).0.mem, s.descs[id], t)
  {
    var d, s' := s.descs[id], Step(p, s, r).0;
    assert |s'.mem| == |s.mem|;
    forall a | d.imageBase <= a < d.imageBase + |t.bytes|
      ensures s'.mem[a] == s.mem[a]
    {
      HeldMemoryKept(p, s, r, id, a);
    }
    assert s'.mem[d.imageBase..d.imageBase + |t.bytes|] == s.mem[d.imageBase..d.imageBase + |t.bytes|];
  }

  lemma InPlaceCopied(p: Platform, s: State, r: Request, id: ImageId, t: Transfer, s': State, t': Transfer)
    requires p.freeBase + p.freeSize <= |s.mem|
    requires CopyAccepted(p, s, r, id) && BlockInv(p, s.descs[id]) && InPlace(s, id, t)
    requires NoWrap(s.descs[id], r.block) && r.src + BlockMoved(s.descs[id], r.block, r.size) <= |s.mem|
    requires s' == Step(p, s, r).0 && t' == Grown(p, s, r, id, t)
    ensures InPlace(s', id, t')
  {
    var d := s.descs[id];
    PlacedCopy(p, s.mem, d, r.src, r.block, r.size, t, BlockMoved(d, r.block, r.size), s'.descs[id], t');
  }

  lemma InPlaceStep(p: Platform, s: State, r: Request, id: ImageId, t: Transfer, s': State, t': Transfer)
    requires ImageInv(p, s) && CleanStep(p, s, r) && InPlace(s, id, t)
    requires s' == Step(p, s, r).0 && t' == Grown(p, s, r, id, t)
    ensures InPlace(s', id, t')
  {
    if id in s.descs {
      assert BlockInv(p, s.descs[id]);
      if CopyAccepted(p, s, r, id) {
        InPlaceCopied(p, s, r, id, t, s', t');
      } else if Filled(s.descs[id]) {
        if s'.descs[id] == s.descs[id] {
          InPlaceKept(p, s, r, id, t);
        }
      }
    }
  }

  lemma {:induction false} InPlaceRun(p: Platform, tr: seq<State>, rs: seq<Request>, i: nat, id: ImageId)
    requires CleanRun(p, tr, rs) && i < |tr|
    ensures InPlace(tr[i], id, Received(p, tr, rs, i, id))
  {
    if i > 0 {
      ImageInvRun(p, tr, rs, i - 1);
      InPlaceRun(p, tr, rs, i - 1, id);
      assert tr[i - 1 + 1] == Step(p, tr[i - 1], rs[i - 1]).0;
      InPlaceStep(p, tr[i - 1], rs[i - 1], id, Received(p, tr, rs, i - 1, id), tr[i], Received(p, tr, rs, i, id));
    }
  }

  /** Block copying refines a one-shot copy. At every point of every clean run, while `id` is COPYING
      or COPIED its memory holds exactly the concatenation of the blocks accepted since the copy began
      and `copiedSize` is their length; COPYING means some bytes are in place and some are missing;
      COPIED means the whole declared image is in place. */
  lemma CopyInBlocks(p: Platform, tr: seq<State>, rs: seq<Request>, i: nat, id: ImageId)
    requires CleanRun(p, tr, rs) && i < |tr| && id in tr[i].descs
    ensures var d, t := tr[i].descs[id], Received(p, tr, rs, i, id);
      && (d.state.Copying? ==> 0 < |t.bytes| < t.declared)
      && (d.state.Copied? ==> 0 < |t.bytes| == t.declared)
      && (Filled(d) ==> Placed(tr[i].mem, d, t))
  {
    ImageInvRun(p, tr, rs, i);
    InPlaceRun(p, tr, rs, i, id);
    assert BlockInv(p, tr[i].descs[id]);
  }

  predicate AuthAccepted(s: State, r: Request, id: ImageId) {
    r.Auth? && r.id == id && r.accepted && AuthAllowed(s, id) &&
    (s.descs[id].state.Copied? || (r.src != 0 && r.size != 0 && r.mapped))
  }

  function Image(s: State, id: ImageId): seq<Byte>
    requires id in s.descs
  {
    Bytes(s.mem, s.descs[id].imageBase, s.descs[id].imageSize)
  }

  /** A step that leaves an authenticated image's descriptor alone leaves its bytes alone. */
  lemma ImageKept(p: Platform, s: State, r: Request, id: ImageId)
    requires ImageInv(p, s) && CleanStep(p, s, r)
    requires id in s.descs && s.descs[id].secure && s.descs[id].state.Authenticated?
    requires Undisturbed(s, id)
    requires id in Step(p, s, r).0.descs && Step(p, s, r).0.descs[id] == s.descs[id]
    ensures Image(Step(p, s, r).0, id) == Image(s, id)
  {
    var s', d := Step(p, s, r).0, s.descs[id];
    assert |s'.mem| == |s.mem|;
    forall a | d.imageBase <= a < d.imageBase + d.imageSize && a < |s.mem|
      ensures s'.mem[a] == s.mem[a]
    {
      HeldMemoryKept(p, s, r, id, a);
    }
  }

  /** An image becomes AUTHENTICATED only by an accepted authentication. */
  lemma BecomesAuthenticated(p: Platform, s: State, r: Request, id: ImageId)
    requires id in s.descs && id in Step(p, s, r).0.descs
    requires Step(p, s, r).0.descs[id].state.Authenticated?
    ensures AuthAccepted(s, r, id) || Step(p, s, r).0.descs[id] == s.descs[id]
    ensures AuthAccepted(s, r, id) && s.world.NonSecure? && s.descs[id].secure ==>
      s.descs[id].state.Copied? && Step(p, s, r).0 == s.(descs := s.descs[id := s.descs[id].(state := Authenticated)])
  {
  }

  /** The latest step before `i` that authenticated `id`, given that `id` is AUTHENTICATED at `i`. */
  lemma {:induction false} LastAuthentication(p: Platform, tr: seq<State>, rs: seq<Request>, i: nat, id: ImageId)
      returns (j: nat)
    requires CleanRun(p, tr, rs) && i < |tr|
    requires id in tr[i].descs && tr[i].descs[id].secure && tr[i].descs[id].state.Authenticated?
    ensures j < i && id in tr[j].descs && AuthAccepted(tr[j], rs[j], id)
    ensures forall k :: j < k <= i ==> id in tr[k].descs && tr[k].descs[id] == tr[i].descs[id]
    ensures tr[j].world.NonSecure? ==>
      tr[j].descs[id].state.Copied? && tr[j].descs[id] == tr[i].descs[id].(state := Copied)
    ensures tr[j].world.NonSecure? ==> Image(tr[i], id) == Image(tr[j], id) && Undisturbed(tr[i], id)
    decreases i
  {
    assert i > 0;
    ImageInvRun(p, tr, rs, i - 1);
    ImageInvRun(p, tr, rs, i);
    var s, r := tr[i - 1], rs[i - 1];
    assert tr[i - 1 + 1] == Step(p, s, r).0;
    DescsStep(p, s, r, id);
    BecomesAuthenticated(p, s, r, id);
    if AuthAccepted(s, r, id) {
      j := i - 1;
      if s.world.NonSecure? {
        UndisturbedStep(p, s, r, id);
      }
    } else {
      j := LastAuthentication(p, tr, rs, i - 1, id);
      if tr[j].world.NonSecure? {
        ImageKept(p, s, r, id);
        UndisturbedStep(p, s, r, id);
      }
    }
  }

  /** Over every interleaving of copies, authentications, executions, interruptions and resumes: an
      image that is executed was accepted by an authentication since which its descriptor has not
      changed, and if the normal world asked for that authentication then the image memory is, byte
      for byte, what was accepted: the bytes received in blocks for it. */
  lemma ExecutedImageIsAuthentic(p: Platform, tr: seq<State>, rs: seq<Request>, i: nat, id: ImageId) returns (j: nat)
    requires CleanRun(p, tr, rs) && i < |rs|
    requires rs[i].Execute? && rs[i].id == id && ExecuteAllowed(tr[i], id)
    ensures j < i && id in tr[j].descs && AuthAccepted(tr[j], rs[j], id)
    ensures forall k :: j < k <= i ==> id in tr[k].descs && tr[k].descs[id] == tr[i].descs[id]
    ensures tr[j].world.NonSecure? ==>
      && Image(tr[i + 1], id) == Image(tr[j], id) == Received(p, tr, rs, j, id).bytes
      && |Image(tr[i + 1], id)| == Received(p, tr, rs, j, id).declared == tr[i].descs[id].imageSize
  {
    j := LastAuthentication(p, tr, rs, i, id);
    assert tr[i + 1] == Step(p, tr[i], rs[i]).0;
    CopyInBlocks(p, tr, rs, j, id);
  }
}
