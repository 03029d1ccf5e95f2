/** The firmware-update (FWU) SMC service of BL1 as a step function over values.

    A `State` holds everything the handlers touch: the image descriptors, the id of the last
    executed secure image, physical memory, the live EL1 system registers, the two saved EL1
    contexts and the world the next exception return enters. A `Request` is one SMC together with
    the answers of the platform code it calls (is the source mapped, did verification accept), or
    one stretch of work of the running world between two SMCs. */
module FwuModel {
  import opened Machine

  type ImageId = U32
  /** The EL1 system registers of one world. */
  type Regs = seq<int>

  datatype World = Secure | NonSecure

  datatype ImageState = Reset | Copied | Copying | Authenticated | Executed | Interrupted

  datatype ImageDesc = ImageDesc(
    state: ImageState,
    copiedSize: U32,
    imageSize: U32,
    imageBase: nat,
    secure: bool,
    executable: bool)

  /** Free trusted RAM (`bl1_plat_sec_mem_layout`). */
  datatype Platform = Platform(freeBase: nat, freeSize: nat)

  datatype State = State(
    descs: map<ImageId, ImageDesc>,
    secExec: ImageId,
    mem: seq<Byte>,
    el1: Regs,
    ctxSecure: Regs,
    ctxNormal: Regs,
    world: World)

  datatype Request =
    | Copy(id: ImageId, src: nat, block: U32, size: U32, mapped: bool)
    | Auth(id: ImageId, src: nat, size: U32, mapped: bool, accepted: bool)
    | Execute(id: ImageId, entryRegs: Regs)
    | Resume(param: int)
    | Done
    | Work(mem: seq<Byte>, el1: Regs)

  datatype Outcome = Returned(code: int) | AssertFailed

  /** `memcpy` within physical memory: bytes that lie outside it are not transferred. */
  function MemCopy(mem: seq<Byte>, dst: nat, src: nat, n: nat): (r: seq<Byte>)
    ensures |r| == |mem|
    ensures forall i {:trigger r[i]} :: 0 <= i < |mem| && !(dst <= i < dst + n) ==> r[i] == mem[i]
  {
    seq(|mem|, i requires 0 <= i < |mem| =>
      if dst <= i < dst + n && src + (i - dst) < |mem| then mem[src + (i - dst)] else mem[i])
  }

  /** A copy from memory that exists puts each source byte in its place, and changes no byte outside the
      destination. */
  lemma MemCopied(mem: seq<Byte>, dst: nat, src: nat, n: nat)
    requires src + n <= |mem|
    ensures var r := MemCopy(mem, dst, src, n);
      && |r| == |mem|
      && (dst + n <= |mem| ==> r[dst..dst + n] == mem[src..src + n])
      && (forall i :: 0 <= i < |mem| && !(dst <= i < dst + n) ==> r[i] == mem[i])
  {
  }

  /** `memset(dst, 0, n)`. */
  function MemClear(mem: seq<Byte>, dst: nat, n: nat): (r: seq<Byte>)
    ensures |r| == |mem|
    ensures forall i {:trigger r[i]} :: 0 <= i < |mem| ==> r[i] == if dst <= i < dst + n then 0 else mem[i]
  {
    seq(|mem|, i requires 0 <= i < |mem| => if dst <= i < dst + n then 0 else mem[i])
  }

  predicate CopyAllowed(s: State, id: ImageId) {
    && id in s.descs
    && (s.descs[id].state.Reset? || s.descs[id].state.Copying?)
    && s.world.NonSecure?
    && s.descs[id].secure
  }

  /** Bytes the call moves: the requested block clipped to what is left of the image. The sum is a
      32-bit sum and wraps, as in the source. */
  function BlockMoved(d: ImageDesc, block: U32, size: U32): (n: U32)
  {
    if d.state.Copying? then
      if Add32(d.copiedSize, block) > d.imageSize then Sub32(d.imageSize, d.copiedSize) else block
    else if block > size then size else block
  }

  /** Where the next block goes: after the bytes already copied. */
  function Offset(d: ImageDesc): U32 {
    if d.state.Copying? then d.copiedSize else 0
  }

  /** The image size in force: declared by the call that finds the image in RESET, stored after it. */
  function Total(d: ImageDesc, size: U32): U32 {
    if d.state.Copying? then d.imageSize else size
  }

  function Advanced(d: ImageDesc, block: U32, size: U32): ImageDesc {
    var copied := Add32(Offset(d), BlockMoved(d, block, size));
    d.(copiedSize := copied, imageSize := Total(d, size),
       state := if copied == Total(d, size) then Copied else Copying)
  }

  /** A fresh copy needs a size and room in the free trusted RAM; a continued one was checked then. */
  predicate RoomFor(p: Platform, d: ImageDesc, size: U32) {
    d.state.Copying? ||
    (size != 0 && p.freeBase <= d.imageBase && d.imageBase + size <= p.freeBase + p.freeSize)
  }

  function CopyStep(p: Platform, s: State, id: ImageId, src: nat, block: U32, size: U32, mapped: bool): (State, int)
  {
    if !CopyAllowed(s, id) then (s, -EPERM)
    else
      var d := s.descs[id];
      if src == 0 || block == 0 || !mapped || !RoomFor(p, d, size) then (s, -ENOMEM)
      else
        (s.(descs := s.descs[id := Advanced(d, block, size)],
            mem := MemCopy(s.mem, d.imageBase + Offset(d), src, BlockMoved(d, block, size))), 0)
  }

  /** Secure callers authenticate from RESET; normal-world callers authenticate a secure image only
      once it is COPIED and a non-secure one from RESET. */
  predicate AuthAllowed(s: State, id: ImageId) {
    && id in s.descs
    && s.descs[id].state == if s.world.NonSecure? && s.descs[id].secure then Copied else Reset
  }

  function AuthStep(s: State, id: ImageId, src: nat, size: U32, mapped: bool, accepted: bool): (State, int)
  {
    if !AuthAllowed(s, id) then (s, -EPERM)
    else
      var d := s.descs[id];
      if d.state.Copied? then
        if accepted then (s.(descs := s.descs[id := d.(state := Authenticated)]), 0)
        else
          (s.(descs := s.descs[id := d.(state := Reset)], mem := MemClear(s.mem, d.imageBase, d.imageSize)), -EAUTH)
      else if src == 0 || size == 0 || !mapped then (s, -ENOMEM)
      else
        var d' := d.(imageSize := size, state := if accepted then Authenticated else Reset);
        (s.(descs := s.descs[id := d']), if accepted then 0 else -EAUTH)
  }

  predicate ExecuteAllowed(s: State, id: ImageId) {
    && id in s.descs
    && s.world.NonSecure?
    && s.descs[id].secure
    && s.descs[id].executable
    && s.descs[id].state.Authenticated?
  }

  /** Saves the normal world's registers and enters the image with a freshly built secure context. */
  function ExecuteStep(s: State, id: ImageId, entryRegs: Regs): (State, int)
  {
    if !ExecuteAllowed(s, id) then (s, -EPERM)
    else
      (s.(descs := s.descs[id := s.descs[id].(state := Executed)], secExec := id,
          ctxNormal := s.el1, ctxSecure := entryRegs, el1 := entryRegs, world := Secure), 0)
  }

  /** The asserted facts about the last executed secure image. */
  predicate LastImageIs(s: State, state: ImageState) {
    && s.secExec in s.descs
    && s.descs[s.secExec].secure
    && s.descs[s.secExec].executable
    && s.descs[s.secExec].state == state
  }

  function ResumeStep(s: State, param: int): (State, Outcome)
  {
    if s.world.NonSecure? then
      if s.secExec !in s.descs then (s, Returned(-EPERM))
      else if !LastImageIs(s, Interrupted) then (s, AssertFailed)
      else
        (s.(descs := s.descs[s.secExec := s.descs[s.secExec].(state := Executed)],
            ctxNormal := s.el1, el1 := s.ctxSecure, world := Secure), Returned(param))
    else if !LastImageIs(s, Executed) then (s, AssertFailed)
    else
      (s.(descs := s.descs[s.secExec := s.descs[s.secExec].(state := Interrupted)],
          ctxSecure := s.el1, el1 := s.ctxNormal, world := NonSecure), Returned(param))
  }

  function DoneStep(s: State): (State, Outcome)
  {
    if s.world.NonSecure? then (s, Returned(-EPERM))
    else if !LastImageIs(s, Executed) then (s, AssertFailed)
    else
      (s.(descs := s.descs[s.secExec := s.descs[s.secExec].(state := Reset)], secExec := INVALID_IMAGE_ID,
          el1 := s.ctxNormal, world := NonSecure), Returned(0))
  }

  function Step(p: Platform, s: State, r: Request): (State, Outcome)
  {
    match r
    case Copy(id, src, block, size, mapped) =>
      var (s', code) := CopyStep(p, s, id, src, block, size, mapped); (s', Returned(code))
    case Auth(id, src, size, mapped, accepted) =>
      var (s', code) := AuthStep(s, id, src, size, mapped, accepted); (s', Returned(code))
    case Execute(id, entryRegs) =>
      var (s', code) := ExecuteStep(s, id, entryRegs); (s', Returned(code))
    case Resume(param) => ResumeStep(s, param)
    case Done => DoneStep(s)
    case Work(mem, el1) => (s.(mem := mem, el1 := el1), Returned(0))
  }

  /** FWU starts in the normal world with every secure image in RESET. */
  predicate Init(s: State) {
    && INVALID_IMAGE_ID !in s.descs
    && s.secExec == INVALID_IMAGE_ID
    && s.world.NonSecure?
    && (forall id :: id in s.descs && s.descs[id].secure ==> s.descs[id].state.Reset?)
    && (forall id :: id in s.descs && !s.descs[id].secure ==> s.descs[id].state.Reset? || s.descs[id].state.Executed?)
  }

  /** Every run of SMCs and of work between them; nothing is assumed of the callers. */
  ghost predicate IsRun(p: Platform, tr: seq<State>, rs: seq<Request>) {
    && |tr| == |rs| + 1
    && Init(tr[0])
    && forall i :: 0 <= i < |rs| ==> tr[i + 1] == Step(p, tr[i], rs[i]).0
  }
}
