/** What each SMC of the firmware-update service answers, in every state and to every caller, and which state
    changes it makes: the pre-conditions and effects of the design guide, on the step function. */
module FwuAnswers {
  import opened Machine
  import opened FwuModel
  import opened FwuWorlds

  // ---------------------------------------------------------------- the state diagram

  /** A change of one image's state: from, to, and the world whose request makes it. */
  datatype Move = Move(from: ImageState, to: ImageState, caller: World)

  /** The moves that the design guide gives to each request about an image. */
  predicate IsMove(r: Request, d: ImageDesc, m: Move) {
    match r
    case Copy(_, _, _, _, _) =>
      d.secure && m.caller == NonSecure && m.from in {Reset, Copying} && m.to in {Copying, Copied}
    case Auth(_, _, _, _, accepted) =>
      && m.from == (if d.secure && m.caller == NonSecure then Copied else Reset)
      && m.to == (if accepted then Authenticated else Reset)
    case Execute(_, _) =>
      d.secure && d.executable && m == Move(Authenticated, Executed, NonSecure)
    case Resume(_) =>
      d.secure && d.executable && m in {Move(Interrupted, Executed, NonSecure), Move(Executed, Interrupted, Secure)}
    case Done =>
      d.secure && d.executable && m == Move(Executed, Reset, Secure)
    case Work(_, _) => false
  }

  /** The image that a request is about: the one it names, or the last executed one. */
  function Subject(s: State, r: Request): ImageId {
    match r
    case Copy(id, _, _, _, _) => id
    case Auth(id, _, _, _, _) => id
    case Execute(id, _) => id
    case _ => s.secExec
  }

  /** Every state change of every image is a move of the diagram; only the subject of a request moves, and
      no descriptor but the subject's changes at all. */
  lemma StateDiagram(p: Platform, s: State, r: Request, id: ImageId)
    requires id in s.descs
    ensures id in Step(p, s, r).0.descs
    ensures var d, d' := s.descs[id], Step(p, s, r).0.descs[id];
      && (d' != d ==> id == Subject(s, r))
      && (d'.state != d.state ==> IsMove(r, d, Move(d.state, d'.state, s.world)))
  {
  }

  // ---------------------------------------------------------------- COPY and AUTH

  /** The caller may copy: a normal-world caller, a secure image, in RESET or COPYING. */
  predicate MayCopy(s: State, id: ImageId) {
    id in s.descs && s.descs[id].secure && s.world == NonSecure && s.descs[id].state in {Reset, Copying}
  }

  /** The block exists and is mapped, and an image that is declared by this call has a size and fits. */
  predicate GoodBlock(p: Platform, d: ImageDesc, r: Request)
    requires r.Copy?
  {
    && r.src > 0 && r.block > 0 && r.mapped
    && (d.state == Reset ==>
          0 < r.size && p.freeBase <= d.imageBase && d.imageBase + r.size <= p.freeBase + p.freeSize)
  }

  /** COPY is not permitted, finds no memory, or succeeds; only success changes anything, and it changes
      nothing but the image and memory. */
  lemma CopyAnswer(p: Platform, s: State, r: Request)
    requires r.Copy?
    ensures var (s', answer) := Step(p, s, r);
      && (answer == Returned(-EPERM) <==> !MayCopy(s, r.id))
      && (answer == Returned(-ENOMEM) <==> MayCopy(s, r.id) && !GoodBlock(p, s.descs[r.id], r))
      && (answer == Returned(0) <==> MayCopy(s, r.id) && GoodBlock(p, s.descs[r.id], r))
      && (answer != Returned(0) ==> s' == s)
      && s' == s.(descs := s'.descs, mem := s'.mem)
  {
  }

  /** The caller may authenticate: a normal-world caller a secure image that is COPIED; otherwise the image is
      in RESET. */
  predicate MayAuth(s: State, id: ImageId) {
    && id in s.descs
    && (s.world == NonSecure && s.descs[id].secure ==> s.descs[id].state == Copied)
    && (s.world == Secure || !s.descs[id].secure ==> s.descs[id].state == Reset)
  }

  /** The verifier is asked: about the copied image, or about a mapped source. */
  predicate Asked(s: State, r: Request)
    requires r.Auth?
  {
    MayAuth(s, r.id) && (s.descs[r.id].state == Reset ==> r.src > 0 && r.size > 0 && r.mapped)
  }

  /** AUTH succeeds if and only if it makes the image AUTHENTICATED, which is if and only if the verifier was
      asked and accepted; it reports a failed authentication if and only if the verifier was asked and
      rejected, and then the image is in RESET. Only a copied image that is rejected costs memory. */
  lemma AuthAnswer(p: Platform, s: State, r: Request)
    requires r.Auth?
    ensures var (s', answer) := Step(p, s, r);
      && (answer == Returned(0) <==>
            && r.id in s.descs && r.id in s'.descs
            && !s.descs[r.id].state.Authenticated? && s'.descs[r.id].state.Authenticated?)
      && (answer == Returned(0) <==> Asked(s, r) && r.accepted)
      && (answer == Returned(-EAUTH) <==> Asked(s, r) && !r.accepted)
      && (answer == Returned(-ENOMEM) <==> MayAuth(s, r.id) && !Asked(s, r))
      && (answer == Returned(-EPERM) <==> !MayAuth(s, r.id))
      && (answer == Returned(-EAUTH) ==> s'.descs[r.id].state.Reset?)
      && (answer == Returned(-EPERM) || answer == Returned(-ENOMEM) ==> s' == s)
      && (Asked(s, r) && s.descs[r.id].state.Reset? ==> s'.descs[r.id].imageSize == r.size)
      && (s'.mem != s.mem ==> answer == Returned(-EAUTH) && s.descs[r.id].state.Copied?)
      && s' == s.(descs := s'.descs, mem := s'.mem)
  {
  }

  // ---------------------------------------------------------------- EXECUTE, RESUME and DONE

  /** EXECUTE succeeds if and only if it enters the secure world, which is if and only if a normal-world
      caller names an AUTHENTICATED secure executable image. */
  lemma ExecuteAnswer(p: Platform, s: State, r: Request)
    requires r.Execute? && s.world.NonSecure?
    ensures var (s', answer) := Step(p, s, r);
      && (answer == Returned(0) <==> s'.world.Secure?)
      && (answer == Returned(0) <==>
            && r.id in s.descs && s.descs[r.id].secure && s.descs[r.id].executable
            && s.descs[r.id].state.Authenticated?)
      && (answer == Returned(0) ==> s'.secExec == r.id && s'.descs[r.id].state.Executed? && s'.mem == s.mem)
      && (answer != Returned(0) ==> answer == Returned(-EPERM) && s' == s)
  {
  }

  /** EXECUTE is refused to the secure world and DONE to the normal world, and nothing changes. */
  lemma WrongWorld(p: Platform, s: State, r: Request)
    requires (r.Execute? && s.world.Secure?) || (r.Done? && s.world.NonSecure?)
    ensures Step(p, s, r) == (s, Returned(-EPERM))
  {
  }

  /** RESUME switches worlds and hands `param` to the other one, unless the normal world asks and there is no
      last executed image; then nothing changes. */
  lemma ResumeAnswer(p: Platform, s: State, param: int)
    requires WorldInv(s)
    ensures var (s', answer) := Step(p, s, Resume(param));
      if s.world.NonSecure? && s.secExec == INVALID_IMAGE_ID then s' == s && answer == Returned(-EPERM)
      else
        && answer == Returned(param) && s'.world != s.world
        && s'.secExec == s.secExec && s.secExec in s'.descs && s'.mem == s.mem
        && s'.descs[s.secExec].state == (if s.world.Secure? then Interrupted else Executed)
  {
  }

  /** After DONE the normal world runs, no image is left to resume, and the image that has finished can be
      copied again: a fresh copy of it that has a source and room is accepted. */
  lemma DoneAnswer(p: Platform, s: State, copy: Request)
    requires WorldInv(s) && s.world.Secure? && copy.Copy? && copy.id == s.secExec
    ensures var (s', answer) := Step(p, s, Done);
      && answer == Returned(0) && s'.world.NonSecure? && s'.secExec == INVALID_IMAGE_ID && s'.mem == s.mem
      && s.secExec in s'.descs && s'.descs[s.secExec].state.Reset?
      && Step(p, s', Resume(0)).1 == Returned(-EPERM)
      && (GoodBlock(p, s'.descs[s.secExec], copy) ==> Step(p, s', copy).1 == Returned(0))
  {
  }
}
