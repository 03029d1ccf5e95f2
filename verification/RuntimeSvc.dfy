/** Dispatch of SMCs to runtime services through a table indexed by call type and owning entity number.
    Function identifiers are laid out as in the SMC Calling Convention (ARM DEN 0028A): bit 31 is the call
    type and bits 29 to 24 the owning entity number (OEN). */
module RuntimeSvc {
  import opened Machine

  const MAX_RT_SVCS: int := 128
  const OEN_LIMIT: int := 64
  const SMC_TYPE_STD: int := 0
  const SMC_TYPE_FAST: int := 1

  type U8 = b: int | 0 <= b < 256

  /** A service descriptor; `initRc` is what its initialisation routine, if it has one, returns. */
  datatype Service = Service(startOen: U8, endOen: U8, callType: U8, hasInit: bool, initRc: int, hasHandle: bool)

  datatype Target = Unknown | Handler(index: int)

  predicate ValidService(d: Service) {
    if d.startOen > d.endOen then false
    else if d.endOen >= OEN_LIMIT then false
    else if d.callType != SMC_TYPE_FAST && d.callType != SMC_TYPE_STD then false
    else d.hasInit || d.hasHandle
  }

  function UniqueOen(oen: int, callType: int): (i: int)
    ensures 0 <= i < MAX_RT_SVCS
  {
    oen % 64 + 64 * (callType % 2)
  }

  function Oen(fid: int): int {
    (fid / 0x100_0000) % 64
  }

  function CallType(fid: int): int {
    (fid / 0x8000_0000) % 2
  }

  function FidIndex(fid: int): (i: int)
    ensures 0 <= i < MAX_RT_SVCS
  {
    UniqueOen(fid / 0x100_0000, fid / 0x8000_0000)
  }

  /** A function identifier by its fields: call type, calling convention, OEN and function number. */
  lemma FidFields(callType: int, convention: int, oen: int, number: int)
    requires 0 <= callType < 2 && 0 <= convention < 2 && 0 <= oen < 64 && 0 <= number < 0x100_0000
    ensures var fid := callType * 0x8000_0000 + convention * 0x4000_0000 + oen * 0x100_0000 + number;
      0 <= fid < TWO_32 && CallType(fid) == callType && Oen(fid) == oen
  {
  }

  predicate InitOk(d: Service) {
    !d.hasInit || d.initRc == 0
  }

  /** The descriptor claims table entry `i`. */
  predicate Claims(d: Service, i: int) {
    InitOk(d) && UniqueOen(d.startOen, d.callType) <= i <= UniqueOen(d.endOen, d.callType)
  }

  /** Entry `i` after the first `n` descriptors: the last one that claims it, or 255. */
  function Entry(ds: seq<Service>, n: nat, i: int): int
    requires n <= |ds|
  {
    if n == 0 then 255 else if Claims(ds[n - 1], i) then n - 1 else Entry(ds, n - 1, i)
  }

  /** The service answers calls of this type and OEN. */
  predicate Offers(d: Service, callType: int, oen: int) {
    InitOk(d) && d.callType == callType && d.startOen <= oen <= d.endOen
  }

  /** The service answers this function identifier. */
  predicate Serves(d: Service, fid: int) {
    Offers(d, CallType(fid), Oen(fid))
  }

  /** Reference: scan the descriptors from last to first. */
  function Scan(ds: seq<Service>, n: nat, fid: int): Target
    requires n <= |ds|
  {
    if n == 0 then Unknown else if Serves(ds[n - 1], fid) then Handler(n - 1) else Scan(ds, n - 1, fid)
  }

  /** `handle_runtime_svc`. */
  function Dispatch(table: seq<int>, num: nat, fid: int): Target
    requires |table| == MAX_RT_SVCS
  {
    var index := table[FidIndex(fid)];
    if index < 0 || index >= num then Unknown else Handler(index)
  }

  lemma {:induction false} EntryIsScan(ds: seq<Service>, n: nat, fid: int)
    requires n <= |ds| < MAX_RT_SVCS && forall k :: 0 <= k < n ==> ValidService(ds[k])
    ensures var e := Entry(ds, n, FidIndex(fid));
      Scan(ds, n, fid) == (if e < 0 || e >= |ds| then Unknown else Handler(e)) && (e == 255 || 0 <= e < n)
  {
    if n > 0 {
      EntryIsScan(ds, n - 1, fid);
      assert Claims(ds[n - 1], FidIndex(fid)) <==> Serves(ds[n - 1], fid);
    }
  }

  /** The table serves exactly the descriptors that a last-to-first scan would find, for every function
      identifier; without descriptors that holds whatever the table contains. */
  ghost predicate Faithful(ds: seq<Service>, table: seq<int>)
    requires |table| == MAX_RT_SVCS
  {
    forall fid :: 0 <= fid < TWO_32 ==> Dispatch(table, |ds|, fid) == Scan(ds, |ds|, fid)
  }

  /** The scan finds the last descriptor that answers. */
  lemma {:induction false} ScanIsLast(ds: seq<Service>, n: nat, fid: int, k: int)
    requires n <= |ds|
    ensures Scan(ds, n, fid) == Handler(k) <==>
            0 <= k < n && Serves(ds[k], fid) && forall j :: k < j < n ==> !Serves(ds[j], fid)
  {
    if n > 0 {
      ScanIsLast(ds, n - 1, fid, k);
    }
  }

  /** Wherever a descriptor without a handler would answer, a later descriptor does. */
  ghost predicate HandlerlessAreShadowed(ds: seq<Service>) {
    forall k, oen :: 0 <= k < |ds| && !ds[k].hasHandle && Offers(ds[k], ds[k].callType, oen) ==>
      exists j :: k < j < |ds| && Offers(ds[j], ds[k].callType, oen)
  }

  /** The function identifier of an OEN and a call type. */
  function Fid(callType: int, oen: int): (fid: int)
    requires 0 <= callType < 2 && 0 <= oen < 64
    ensures 0 <= fid < TWO_32 && CallType(fid) == callType && Oen(fid) == oen
  {
    callType * 0x8000_0000 + oen * 0x100_0000
  }

  /** Some call has this type and OEN. */
  ghost predicate HasFid(callType: int, oen: int) {
    exists fid :: 0 <= fid < TWO_32 && CallType(fid) == callType && Oen(fid) == oen
  }

  /** A descriptor is valid if and only if its range of OENs is not empty, every call type and OEN that it names
      occurs in a function identifier, and it can initialise or handle. */
  lemma ValidIff(d: Service)
    ensures ValidService(d) <==>
      && d.startOen <= d.endOen
      && (forall oen :: d.startOen <= oen <= d.endOen ==> HasFid(d.callType, oen))
      && !(!d.hasInit && !d.hasHandle)
  {
    if d.startOen <= d.endOen {
      if d.endOen < 64 && d.callType < 2 {
        forall oen | d.startOen <= oen <= d.endOen
          ensures HasFid(d.callType, oen)
        {
          assert Oen(Fid(d.callType, oen)) == oen;
        }
      } else {
        assert !HasFid(d.callType, d.endOen);
      }
    }
  }

  /** A faithful table hands a call to descriptor `k` if and only if that is the last one whose initialisation
      did not fail, whose type is the call's and whose range of OENs holds the call's. */
  lemma DispatchIff(ds: seq<Service>, table: seq<int>, fid: int, k: int)
    requires |table| == MAX_RT_SVCS && Faithful(ds, table) && 0 <= fid < TWO_32
    ensures Dispatch(table, |ds|, fid) == Handler(k) <==>
      && 0 <= k < |ds| && !(ds[k].hasInit && ds[k].initRc != 0)
      && ds[k].callType == CallType(fid) && ds[k].startOen <= Oen(fid) <= ds[k].endOen
      && forall j :: k < j < |ds| ==>
           || (ds[j].hasInit && ds[j].initRc != 0)
           || ds[j].callType != CallType(fid) || !(ds[j].startOen <= Oen(fid) <= ds[j].endOen)
  {
    ScanIsLast(ds, |ds|, fid, k);
    assert forall j :: 0 <= j < |ds| ==>
      (Serves(ds[j], fid) <==>
        && !(ds[j].hasInit && ds[j].initRc != 0) && ds[j].callType == CallType(fid)
        && ds[j].startOen <= Oen(fid) <= ds[j].endOen);
  }

  /** Every dispatched call has a handler, if and only if descriptors that only have an initialisation
      routine are shadowed by later ones. Validation lets such descriptors through. */
  lemma DispatchHasHandlerIff(ds: seq<Service>, table: seq<int>)
    requires |table| == MAX_RT_SVCS && Faithful(ds, table) && forall k :: 0 <= k < |ds| ==> ValidService(ds[k])
    ensures (forall fid :: 0 <= fid < TWO_32 && Dispatch(table, |ds|, fid).Handler? ==>
               ds[Dispatch(table, |ds|, fid).index].hasHandle) <==>
            HandlerlessAreShadowed(ds)
  {
    if HandlerlessAreShadowed(ds) {
      forall fid | 0 <= fid < TWO_32 && Dispatch(table, |ds|, fid).Handler?
        ensures ds[Dispatch(table, |ds|, fid).index].hasHandle
      {
        var k := Dispatch(table, |ds|, fid).index;
        ScanIsLast(ds, |ds|, fid, k);
        assert Offers(ds[k], ds[k].callType, Oen(fid));
        assert forall j :: k < j < |ds| && Offers(ds[j], ds[k].callType, Oen(fid)) ==> Serves(ds[j], fid);
      }
    } else {
      var k, oen :| 0 <= k < |ds| && !ds[k].hasHandle && Offers(ds[k], ds[k].callType, oen)
        && forall j :: k < j < |ds| ==> !Offers(ds[j], ds[k].callType, oen);
      var fid := Fid(ds[k].callType, oen);
      assert forall j :: k < j < |ds| && Serves(ds[j], fid) ==> Offers(ds[j], ds[k].callType, oen);
      ScanIsLast(ds, |ds|, fid, k);
      assert Dispatch(table, |ds|, fid) == Handler(k);
    }
  }

  /** One valid descriptor with an initialisation routine only answers calls without a handler. */
  lemma HandlerMissing()
    ensures var d := Service(4, 4, SMC_TYPE_FAST, true, 0, false);
      ValidService(d) && Scan([d], 1, Fid(SMC_TYPE_FAST, 4)) == Handler(0) && !d.hasHandle
  {
  }

  /** `runtime_svc_init`: panics exactly when some descriptor is invalid, and otherwise leaves a faithful
      table. */
  method RuntimeSvcInit(ds: seq<Service>, table: array<int>) returns (panicked: bool)
    requires table.Length == MAX_RT_SVCS && |ds| < MAX_RT_SVCS
    modifies table
    ensures panicked <==> exists k :: 0 <= k < |ds| && !ValidService(ds[k])
    ensures !panicked ==> Faithful(ds, table[..])
  {
    panicked := false;
    if |ds| == 0 {
      return;
    }
    for i := 0 to MAX_RT_SVCS
      invariant forall k :: 0 <= k < i ==> table[k] == 255
    {
      table[i] := 255;
    }
    for index := 0 to |ds|
      invariant forall k :: 0 <= k < index ==> ValidService(ds[k])
      invariant forall i :: 0 <= i < MAX_RT_SVCS ==> table[i] == Entry(ds, index, i)
    {
      var service := ds[index];
      if !ValidService(service) {
        return true;
      }
      if service.hasInit {
        if service.initRc != 0 {
          continue;
        }
      }
      var startIdx := UniqueOen(service.startOen, service.callType);
      var endIdx := UniqueOen(service.endOen, service.callType);
      var first := startIdx;
      while startIdx <= endIdx
        invariant first <= startIdx <= endIdx + 1
        invariant forall i :: 0 <= i < MAX_RT_SVCS ==>
          table[i] == if first <= i < startIdx then index else Entry(ds, index, i)
      {
        table[startIdx] := index;
        startIdx := startIdx + 1;
      }
    }
    forall fid | 0 <= fid < TWO_32
      ensures Dispatch(table[..], |ds|, fid) == Scan(ds, |ds|, fid)
    {
      EntryIsScan(ds, |ds|, fid);
    }
  }
}
