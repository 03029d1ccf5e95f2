/** Runs of firmware-update calls at which a property stops holding. Two secure images have one or two
    bytes each at the bottom of memory; sources lie above them. */
module FwuExamples {
  import opened Machine
  import opened FwuModel
  import opened FwuImages

  function Start(descs: map<ImageId, ImageDesc>): State {
    State(descs, INVALID_IMAGE_ID, [0, 0, 0, 5, 6, 7], [], [], [], NonSecure)
  }

  function Fresh(base: nat): ImageDesc {
    ImageDesc(Reset, 0, 0, base, true, true)
  }

  /** A continued copy whose 32-bit sum wraps is accepted, and changes a byte outside the trusted RAM that
      the first call was checked against. */
  lemma WrappedCopy() returns (p: Platform, tr: seq<State>, rs: seq<Request>)
    ensures IsRun(p, tr, rs) && |rs| == 2 && MapOk(p, tr[0])
    ensures rs[1].Copy? && Step(p, tr[1], rs[1]).1 == Returned(0)
    ensures |tr[1].mem| == |tr[2].mem| == 6 && tr[2].mem[2] != tr[1].mem[2] && p.freeBase + p.freeSize <= 2
    ensures tr[1].descs[rs[1].id].copiedSize + rs[1].block >= TWO_32
  {
    p := Platform(0, 2);
    rs := [Copy(1, 3, 1, 2, true), Copy(1, 2, 0xFFFF_FFFF, 0, true)];
    var s0 := Start(map[1 := Fresh(0)]);
    var s1 := Step(p, s0, rs[0]).0;
    var s2 := Step(p, s1, rs[1]).0;
    assert s1.descs[1] == ImageDesc(Copying, 1, 2, 0, true, true);
    tr := [s0, s1, s2];
  }

  /** Two images of one byte each, in RESET. */
  function TwoImages(): State {
    Start(map[1 := Fresh(0), 2 := Fresh(1)])
  }

  function Ready(base: nat): ImageDesc {
    ImageDesc(Authenticated, 1, 1, base, true, true)
  }

  /** One image of one byte is copied in one block and authenticated. */
  lemma LoadOne(p: Platform, s: State, id: ImageId, base: nat, src: nat) returns (s': State, s'': State)
    requires s.world.NonSecure? && id in s.descs && s.descs[id] == Fresh(base)
    requires p.freeBase <= base && base + 1 <= p.freeBase + p.freeSize && 0 < src < |s.mem| && Clear(s, id, 1)
    ensures s' == Step(p, s, Copy(id, src, 1, 1, true)).0 && CleanStep(p, s, Copy(id, src, 1, 1, true))
    ensures s'' == Step(p, s', Auth(id, 0, 0, true, true)).0
    ensures s'' == s.(descs := s.descs[id := Ready(base)], mem := s''.mem)
    ensures s''.mem == MemCopy(s.mem, base, src, 1)
  {
    s' := Step(p, s, Copy(id, src, 1, 1, true)).0;
    assert s'.descs[id] == ImageDesc(Copied, 1, 1, base, true, true);
    s'' := Step(p, s', Auth(id, 0, 0, true, true)).0;
  }

  /** A run, one request longer; its last state is `s'`. */
  lemma Grow(p: Platform, tr: seq<State>, rs: seq<Request>, s: State, r: Request, s': State)
      returns (tr': seq<State>, rs': seq<Request>)
    requires CleanRun(p, tr, rs) && tr[|rs|] == s && CleanStep(p, s, r) && s' == Step(p, s, r).0
    ensures CleanRun(p, tr', rs') && tr' == tr + [s'] && rs' == rs + [r] && tr'[|rs'|] == s'
  {
    tr', rs' := tr + [s'], rs + [r];
  }

  /** A run, longer by the two calls that load an image. */
  lemma GrowLoaded(p: Platform, tr: seq<State>, rs: seq<Request>, s: State, id: ImageId, base: nat, src: nat)
      returns (tr': seq<State>, rs': seq<Request>, s'': State)
    requires CleanRun(p, tr, rs) && tr[|rs|] == s
    requires s.world.NonSecure? && id in s.descs && s.descs[id] == Fresh(base)
    requires p.freeBase <= base && base + 1 <= p.freeBase + p.freeSize && 0 < src < |s.mem| && Clear(s, id, 1)
    ensures CleanRun(p, tr', rs') && |rs'| == |rs| + 2 && tr'[|rs'|] == s''
    ensures s'' == s.(descs := s.descs[id := Ready(base)], mem := MemCopy(s.mem, base, src, 1))
  {
    var s';
    s', s'' := LoadOne(p, s, id, base, src);
    tr', rs' := Grow(p, tr, rs, s, Copy(id, src, 1, 1, true), s');
    tr', rs' := Grow(p, tr', rs', s', Auth(id, 0, 0, true, true), s'');
  }

  /** A run, longer by two requests that copy nothing. */
  lemma GrowTwice(p: Platform, tr: seq<State>, rs: seq<Request>, s: State, q: Request, r: Request)
      returns (tr': seq<State>, rs': seq<Request>, s': State, s'': State)
    requires CleanRun(p, tr, rs) && tr[|rs|] == s && !q.Copy? && !q.Work? && !r.Copy? && !r.Work?
    ensures CleanRun(p, tr', rs') && tr' == tr + [s', s''] && rs' == rs + [q, r]
    ensures s' == Step(p, s, q).0 && s'' == Step(p, s', r).0
  {
    s' := Step(p, s, q).0;
    s'' := Step(p, s', r).0;
    tr', rs' := Grow(p, tr, rs, s, q, s');
    tr', rs' := Grow(p, tr', rs', s', r, s'');
  }

  /** Image 1, and perhaps image 2, is loaded. */
  lemma Loaded(both: bool) returns (p: Platform, tr: seq<State>, rs: seq<Request>, s: State)
    ensures CleanRun(p, tr, rs) && |rs| == (if both then 4 else 2) && tr[|rs|] == s
    ensures s == TwoImages().(descs := map[1 := Ready(0), 2 := if both then Ready(1) else Fresh(1)], mem := s.mem)
    ensures |s.mem| == 6 && (!both ==> s.mem[1] == 0 && s.mem[4] == 6)
  {
    p := Platform(0, 2);
    tr, rs, s := [TwoImages()], [], TwoImages();
    tr, rs, s := GrowLoaded(p, tr, rs, s, 1, 0, 3);
    if both {
      tr, rs, s := GrowLoaded(p, tr, rs, s, 2, 1, 4);
    }
  }

  /** RESUME is refused although image 1 is INTERRUPTED: image 2 has been executed since, and is done. */
  lemma ResumeRefused() returns (p: Platform, tr: seq<State>, rs: seq<Request>)
    ensures CleanRun(p, tr, rs) && |rs| == 8 && tr[8].world.NonSecure?
    ensures 1 in tr[8].descs && tr[8].descs[1].secure && tr[8].descs[1].state.Interrupted?
    ensures Step(p, tr[8], Resume(0)).1 == Returned(-EPERM)
  {
    var s4, s5, s6, s7, s8;
    p, tr, rs, s4 := Loaded(true);
    tr, rs, s5, s6 := GrowTwice(p, tr, rs, s4, Execute(1, []), Resume(0));
    assert s6.descs == map[1 := Ready(0).(state := Interrupted), 2 := Ready(1)];
    tr, rs, s7, s8 := GrowTwice(p, tr, rs, s6, Execute(2, []), Done);
  }

  /** Image 2 is authenticated at its source by the running secure image and then executed; the byte at its
      base address is not the byte that was accepted. */
  lemma UncheckedBase() returns (p: Platform, tr: seq<State>, rs: seq<Request>)
    ensures CleanRun(p, tr, rs) && |rs| == 6
    ensures rs[3].Auth? && rs[3].id == 2 && tr[3].world.Secure? && AuthAccepted(tr[3], rs[3], 2)
    ensures rs[5].Execute? && rs[5].id == 2 && ExecuteAllowed(tr[5], 2)
    ensures 2 in tr[6].descs && Image(tr[6], 2) != Bytes(tr[3].mem, rs[3].src, rs[3].size)
  {
    var s2, s3, s4, s5, s6;
    p, tr, rs, s2 := Loaded(false);
    tr, rs, s3, s4 := GrowTwice(p, tr, rs, s2, Execute(1, []), Auth(2, 4, 1, true, true));
    tr, rs, s5, s6 := GrowTwice(p, tr, rs, s4, Resume(0), Execute(2, []));
    assert Image(s6, 2)[0] == 0 && Bytes(s3.mem, 4, 1)[0] == 6;
  }

  /** Image 1 is copied with a declared size of two bytes, over image 2. */
  lemma TwoBytes(p: Platform, s: State) returns (r: Request, s': State)
    requires p == Platform(0, 2) && s.world.NonSecure? && s.descs == map[1 := Fresh(0), 2 := Ready(1)] && |s.mem| == 6
    ensures r == Copy(1, 4, 2, 2, true) && s' == Step(p, s, r).0
    ensures CopyAccepted(p, s, r, 1) && !Clear(s, 1, 2)
    ensures |s'.mem| == 6 && s'.mem[1] == s.mem[5] && ExecuteAllowed(s', 2) && s'.descs[2] == Ready(1)
  {
    r := Copy(1, 4, 2, 2, true);
    s' := Step(p, s, r).0;
    assert Held(s.descs[2]);
  }

  /** Image 1 is copied with a declared size that the free trusted RAM has room for, over image 2, which has
      been accepted; image 2 is then executed with another byte than the one accepted. */
  lemma CopiedOver() returns (p: Platform, tr: seq<State>, rs: seq<Request>)
    ensures IsRun(p, tr, rs) && |rs| == 4 && MapOk(p, tr[0])
    ensures rs[1].Auth? && rs[1].id == 2 && tr[1].world.NonSecure? && AuthAccepted(tr[1], rs[1], 2)
    ensures rs[2].Copy? && rs[2].id == 1 && CopyAccepted(p, tr[2], rs[2], 1) && !Clear(tr[2], 1, rs[2].size)
    ensures rs[3].Execute? && rs[3].id == 2 && ExecuteAllowed(tr[3], 2)
    ensures 2 in tr[4].descs && Image(tr[1], 2) == [5] && Image(tr[4], 2) == [7]
  {
    p := Platform(0, 2);
    var s0 := TwoImages();
    var s1, s2 := LoadOne(p, s0, 2, 1, 3);
    var r, s3 := TwoBytes(p, s2);
    var s4 := Step(p, s3, Execute(2, [])).0;
    tr := [s0, s1, s2, s3, s4];
    rs := [Copy(2, 3, 1, 1, true), Auth(2, 0, 0, true, true), r, Execute(2, [])];
  }
}
