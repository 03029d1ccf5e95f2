/** The FWU handlers as BL1 runs them: one object whose fields each handler updates in place. Every
    handler is proved against the step function of `FwuModel`; the assertions that the source makes
    in RESUME and DONE are assertions here too. */
module FwuHandlers {
  import opened Machine
  import opened FwuModel
  import opened FwuWorlds

  class Bl1 {
    const platform: Platform
    var descs: map<ImageId, ImageDesc>
    var secExecImageId: ImageId
    var mem: seq<Byte>
    var el1: Regs
    var ctxSecure: Regs
    var ctxNormal: Regs
    var nextWorld: World

    ghost function View(): State
      reads this
    {
      State(descs, secExecImageId, mem, el1, ctxSecure, ctxNormal, nextWorld)
    }

    constructor (p: Platform, table: map<ImageId, ImageDesc>, memory: seq<Byte>, regs: Regs)
      requires INVALID_IMAGE_ID !in table
      requires forall id :: id in table ==>
        table[id].state.Reset? || (!table[id].secure && table[id].state.Executed?)
      ensures Init(View()) && WorldInv(View())
      ensures platform == p && descs == table && mem == memory && el1 == regs
    {
      platform := p;
      descs := table;
      secExecImageId := INVALID_IMAGE_ID;
      mem := memory;
      el1, ctxSecure, ctxNormal := regs, [], [];
      nextWorld := NonSecure;
    }

    method ImageCopy(id: ImageId, src: nat, blockSize: U32, imageSize: U32, mapped: bool) returns (code: int)
      modifies this
      ensures (View(), code) == CopyStep(platform, old(View()), id, src, blockSize, imageSize, mapped)
    {
      var block := blockSize;
      if id !in descs || (descs[id].state != Reset && descs[id].state != Copying) {
        return -EPERM;
      }
      var desc := descs[id];
      if nextWorld == Secure || !desc.secure {
        return -EPERM;
      }
      if src == 0 || block == 0 {
        return -ENOMEM;
      }
      var base := desc.imageBase;
      if desc.state == Copying {
        if Add32(desc.copiedSize, block) > desc.imageSize {
          block := Sub32(desc.imageSize, desc.copiedSize);
        }
        if !mapped {
          return -ENOMEM;
        }
        base := base + desc.copiedSize;
        desc := desc.(copiedSize := Add32(desc.copiedSize, block));
        mem := MemCopy(mem, base, src, block);
        if desc.copiedSize == desc.imageSize {
          desc := desc.(state := Copied);
        }
      } else {
        if imageSize == 0 {
          return -ENOMEM;
        }
        if block > imageSize {
          block := imageSize;
        }
        if !mapped {
          return -ENOMEM;
        }
        if base < platform.freeBase || base + imageSize > platform.freeBase + platform.freeSize {
          return -ENOMEM;
        }
        desc := desc.(imageSize := imageSize);
        mem := MemCopy(mem, base, src, block);
        desc := desc.(state := if block == imageSize then Copied else Copying);
        desc := desc.(copiedSize := block);
      }
      descs := descs[id := desc];
      code := 0;
    }

    method ImageAuth(id: ImageId, src: nat, imageSize: U32, mapped: bool, accepted: bool) returns (code: int)
      modifies this
      ensures (View(), code) == AuthStep(old(View()), id, src, imageSize, mapped, accepted)
    {
      if id !in descs {
        return -EPERM;
      }
      var desc := descs[id];
      if nextWorld == Secure {
        if desc.state != Reset {
          return -EPERM;
        }
      } else if desc.secure {
        if desc.state != Copied {
          return -EPERM;
        }
      } else if desc.state != Reset {
        return -EPERM;
      }
      var base, total := desc.imageBase, desc.imageSize;
      if desc.state != Copied {
        if src == 0 || imageSize == 0 {
          return -ENOMEM;
        }
        if !mapped {
          return -ENOMEM;
        }
        base, total := src, imageSize;
        desc := desc.(imageSize := total);
        descs := descs[id := desc];
      }
      if !accepted {
        if desc.state == Copied {
          mem := MemClear(mem, base, total);
          descs := descs[id := desc.(state := Reset)];
        }
        return -EAUTH;
      }
      descs := descs[id := desc.(state := Authenticated)];
      assert descs == old(descs)[id := desc.(state := Authenticated)];
      code := 0;
    }

    method ImageExecute(id: ImageId, entryRegs: Regs) returns (code: int)
      modifies this
      ensures (View(), code) == ExecuteStep(old(View()), id, entryRegs)
    {
      if id !in descs || nextWorld == Secure || !descs[id].secure || !descs[id].executable ||
         descs[id].state != Authenticated {
        return -EPERM;
      }
      ctxNormal := el1;
      // bl1_prepare_next_image: fresh secure context, loaded into EL1, image marked EXECUTED.
      ctxSecure := entryRegs;
      el1 := ctxSecure;
      nextWorld := Secure;
      descs := descs[id := descs[id].(state := Executed)];
      secExecImageId := id;
      code := 0;
    }

    method ImageResume(param: int) returns (code: int)
      requires WorldInv(View())
      modifies this
      ensures (View(), Returned(code)) == ResumeStep(old(View()), param)
    {
      var caller := nextWorld;
      if caller == NonSecure {
        if secExecImageId !in descs {
          return -EPERM;
        }
      } else {
        assert secExecImageId in descs;
      }
      var desc := descs[secExecImageId];
      assert desc.secure;
      assert desc.executable;
      if caller == Secure {
        assert desc.state == Executed;
        descs := descs[secExecImageId := desc.(state := Interrupted)];
        ctxSecure := el1;
        el1 := ctxNormal;
        nextWorld := NonSecure;
      } else {
        assert desc.state == Interrupted;
        descs := descs[secExecImageId := desc.(state := Executed)];
        ctxNormal := el1;
        el1 := ctxSecure;
        nextWorld := Secure;
      }
      code := param;
    }

    method SecImageDone() returns (code: int)
      requires WorldInv(View())
      modifies this
      ensures (View(), Returned(code)) == DoneStep(old(View()))
    {
      if nextWorld == NonSecure {
        return -EPERM;
      }
      assert secExecImageId in descs;
      var desc := descs[secExecImageId];
      assert desc.secure;
      assert desc.executable;
      assert desc.state == Executed;
      descs := descs[secExecImageId := desc.(state := Reset)];
      secExecImageId := INVALID_IMAGE_ID;
      el1 := ctxNormal;
      nextWorld := NonSecure;
      code := 0;
    }

    /** `bl1_fwu_smc_handler`: dispatches one SMC. `WorldInv` is all the handlers rely on, and every
        call hands it on, so it may be required of each call of a run. */
    method SmcHandler(r: Request) returns (code: int)
      requires WorldInv(View())
      requires !r.Work?
      modifies this
      ensures WorldInv(View())
      ensures (View(), Returned(code)) == Step(platform, old(View()), r)
    {
      ghost var before := View();
      match r {
        case Copy(id, src, block, size, mapped) => code := ImageCopy(id, src, block, size, mapped);
        case Auth(id, src, size, mapped, accepted) => code := ImageAuth(id, src, size, mapped, accepted);
        case Execute(id, entryRegs) => code := ImageExecute(id, entryRegs);
        case Resume(param) => code := ImageResume(param);
        case Done => code := SecImageDone();
      }
      WorldInvStep(platform, before, r);
    }
  }
}
