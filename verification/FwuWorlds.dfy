/** Which world runs, which image it runs, and what its registers are, over every run of FWU calls.
    Nothing in this module limits what the callers ask for. */
module FwuWorlds {
  import opened Machine
  import opened FwuModel

  /** The secure world runs exactly while one secure image is EXECUTED and `secExec` names it; while
      the normal world runs, a valid `secExec` names an interrupted image. */
  predicate WorldInv(s: State) {
    && INVALID_IMAGE_ID !in s.descs
    && (s.world.Secure? ==> LastImageIs(s, Executed))
    && (s.world.NonSecure? ==> s.secExec == INVALID_IMAGE_ID || LastImageIs(s, Interrupted))
    && (forall id :: id in s.descs && s.descs[id].secure && s.descs[id].state.Executed? ==>
         s.world.Secure? && id == s.secExec)
  }

  lemma WorldInvStep(p: Platform, s: State, r: Request)
    requires WorldInv(s)
    ensures WorldInv(Step(p, s, r).0)
    ensures Step(p, s, r).1 != AssertFailed
  {
  }

  lemma {:induction false} WorldInvRun(p: Platform, tr: seq<State>, rs: seq<Request>, i: nat)
    requires IsRun(p, tr, rs) && i < |tr|
    ensures WorldInv(tr[i])
  {
    if i > 0 {
      WorldInvRun(p, tr, rs, i - 1);
      WorldInvStep(p, tr[i - 1], rs[i - 1]);
      assert tr[i - 1 + 1] == Step(p, tr[i - 1], rs[i - 1]).0;
    }
  }

  /** Secure, in EXECUTED: the images the secure world could be running. */
  function Running(s: State): set<ImageId> {
    set id | id in s.descs && s.descs[id].secure && s.descs[id].state.Executed?
  }

  /** The secure world runs if and only if exactly one secure image is EXECUTED, and then `secExec`
      names it; in the normal world a valid `secExec` names an INTERRUPTED secure executable image;
      and no assertion of RESUME or DONE fails at any step of any run. */
  lemma WorldsAgree(p: Platform, tr: seq<State>, rs: seq<Request>, i: nat)
    requires IsRun(p, tr, rs) && i < |tr|
    ensures tr[i].world.Secure? <==> |Running(tr[i])| == 1
    ensures tr[i].world.Secure? ==> Running(tr[i]) == {tr[i].secExec}
    ensures tr[i].world.NonSecure? ==> Running(tr[i]) == {}
    ensures tr[i].world.NonSecure? && tr[i].secExec in tr[i].descs ==> LastImageIs(tr[i], Interrupted)
    ensures i < |rs| ==> Step(p, tr[i], rs[i]).1 != AssertFailed
  {
    WorldInvRun(p, tr, rs, i);
    if tr[i].world.Secure? {
      assert Running(tr[i]) == {tr[i].secExec};
    } else {
      assert Running(tr[i]) == {};
    }
    if i < |rs| {
      WorldInvStep(p, tr[i], rs[i]);
    }
  }

  /** An interrupted image that is no longer the last executed one. */
  predicate Stranded(s: State, id: ImageId) {
    id in s.descs && s.descs[id].state.Interrupted? && s.secExec != id
  }

  /** Executing another image strands the interrupted one. */
  lemma ExecuteStrands(p: Platform, s: State, other: ImageId, entryRegs: Regs)
    requires WorldInv(s) && s.world.NonSecure? && s.secExec in s.descs
    requires ExecuteAllowed(s, other)
    ensures Stranded(Step(p, s, Execute(other, entryRegs)).0, s.secExec)
  {
  }

  /** A stranded image keeps its whole descriptor for the rest of the run. */
  lemma {:induction false} StrandedForever(p: Platform, tr: seq<State>, rs: seq<Request>, id: ImageId, i: nat, j: nat)
    requires IsRun(p, tr, rs) && i <= j < |tr|
    requires Stranded(tr[i], id)
    ensures Stranded(tr[j], id) && tr[j].descs[id] == tr[i].descs[id]
    decreases j
  {
    if i < j {
      StrandedForever(p, tr, rs, id, i, j - 1);
      WorldInvRun(p, tr, rs, j - 1);
      assert tr[j - 1 + 1] == Step(p, tr[j - 1], rs[j - 1]).0;
    }
  }

  /** The design guide promises RESUME to the normal world while any INTERRUPTED secure image exists;
      the code asks for the last executed one. The two differ exactly when every INTERRUPTED secure
      image is stranded. */
  lemma ResumeRefusedIff(p: Platform, tr: seq<State>, rs: seq<Request>, i: nat, param: int)
    requires IsRun(p, tr, rs) && i < |tr| && tr[i].world.NonSecure?
    ensures Step(p, tr[i], Resume(param)).1 == Returned(-EPERM) && Step(p, tr[i], Resume(param)).0.world.NonSecure? <==>
            forall id :: id in tr[i].descs && tr[i].descs[id].secure && tr[i].descs[id].state.Interrupted? ==>
              Stranded(tr[i], id)
  {
    WorldInvRun(p, tr, rs, i);
  }

  /** The normal world leaves at `i` and is next back at `k`. */
  ghost predicate AwayFrom(tr: seq<State>, w: World, i: nat, k: nat) {
    && i + 1 < k < |tr|
    && tr[i].world == w && tr[k].world == w
    && forall j :: i < j < k ==> tr[j].world != w
  }

  /** While the secure world runs, the context saved for the normal world is not touched. */
  lemma {:induction false} NormalContextKept(p: Platform, tr: seq<State>, rs: seq<Request>, i: nat, j: nat)
    requires IsRun(p, tr, rs) && i < j < |tr|
    requires tr[i].world.NonSecure?
    requires forall k :: i < k <= j ==> tr[k].world.Secure?
    ensures tr[j].ctxNormal == tr[i].el1
    decreases j
  {
    assert tr[j - 1 + 1] == Step(p, tr[j - 1], rs[j - 1]).0;
    if i + 1 < j {
      NormalContextKept(p, tr, rs, i, j - 1);
    }
  }

  /** Whenever control comes back to the normal world, by RESUME or by DONE, its EL1 registers are
      those it had when it last left. */
  lemma NormalRegistersRestored(p: Platform, tr: seq<State>, rs: seq<Request>, i: nat, k: nat)
    requires IsRun(p, tr, rs)
    requires AwayFrom(tr, NonSecure, i, k)
    ensures tr[k].el1 == tr[i].el1
  {
    NormalContextKept(p, tr, rs, i, k - 1);
    WorldInvRun(p, tr, rs, k - 1);
    assert tr[k - 1 + 1] == Step(p, tr[k - 1], rs[k - 1]).0;
  }

  /** While the normal world runs, the interrupted image and the context saved for it stay as they
      were, or no image is left to resume. */
  lemma {:induction false} SecureContextKept(p: Platform, tr: seq<State>, rs: seq<Request>, i: nat, j: nat)
    requires IsRun(p, tr, rs) && i < j < |tr|
    requires tr[i].world.Secure?
    requires forall k :: i < k <= j ==> tr[k].world.NonSecure?
    ensures if rs[i].Resume? then tr[j].secExec == tr[i].secExec && tr[j].ctxSecure == tr[i].el1
            else tr[j].secExec == INVALID_IMAGE_ID
    decreases j
  {
    WorldInvRun(p, tr, rs, j - 1);
    assert tr[j - 1 + 1] == Step(p, tr[j - 1], rs[j - 1]).0;
    if i + 1 < j {
      SecureContextKept(p, tr, rs, i, j - 1);
    }
  }

  /** An image resumed by the normal world is the one that was interrupted and gets back the EL1
      registers it had then; an image entered by EXECUTE gets the fresh ones. */
  lemma SecureRegistersRestored(p: Platform, tr: seq<State>, rs: seq<Request>, i: nat, k: nat)
    requires IsRun(p, tr, rs)
    requires AwayFrom(tr, Secure, i, k)
    ensures rs[k - 1].Resume? ==>
      rs[i].Resume? && tr[k].secExec == tr[i].secExec && tr[k].el1 == tr[i].el1
    ensures !rs[k - 1].Resume? ==>
      rs[k - 1].Execute? && tr[k].secExec == rs[k - 1].id && tr[k].el1 == rs[k - 1].entryRegs
  {
    SecureContextKept(p, tr, rs, i, k - 1);
    WorldInvRun(p, tr, rs, k - 1);
    assert tr[k - 1 + 1] == Step(p, tr[k - 1], rs[k - 1]).0;
  }
}
