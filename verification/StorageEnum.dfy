/** Device enumeration as U-Boot's API runs it: per-group progress flags and the caller's cookie are
    updated by search loops, and a client feeds each cookie back until it is null. */
module StorageEnum {
  import opened StorageSpec

  /** `enum_started` and `enum_ended` of each group. */
  datatype Flags = Flags(started: seq<bool>, ended: seq<bool>)

  predicate FlagsOk(f: Flags) {
    |f.started| == |f.ended| == ENUM_MAX
  }

  datatype Found = Found(found: bool, more: bool, cookie: Cookie)

  datatype Step = Step(flags: Flags, cookie: Cookie, found: bool)

  /** The cookie is a device of group `g`. */
  predicate IsStor(cfg: Config, g: int, c: Cookie)
    requires 0 <= g < ENUM_MAX
  {
    c.Dev? && c.group == g && 0 <= c.index < |cfg[g].slots| && !cfg[g].slots[c.index].Empty?
  }

  /** First slot at or after `i` that holds a device. */
  function NextSlot(slots: seq<Slot>, i: nat): (j: nat)
    requires i <= |slots|
    ensures i <= j <= |slots|
    ensures forall k :: i <= k < j ==> slots[k].Empty?
    ensures j < |slots| ==> !slots[j].Empty?
    decreases |slots| - i
  {
    if i == |slots| || !slots[i].Empty? then i else NextSlot(slots, i + 1)
  }

  /** The next device of group `g` after the cookie's. A cookie of another group is searched for in vain,
      which leaves nothing to return. */
  function Get(cfg: Config, g: int, c: Cookie): Found
    requires 0 <= g < ENUM_MAX
  {
    if !cfg[g].configured then Found(false, false, c)
    else
      var slots := cfg[g].slots;
      var i := if c.Null? then 0 else if IsStor(cfg, g, c) then c.index + 1 else |slots|;
      var j := NextSlot(slots, i);
      if j == |slots| then Found(false, false, Null) else Found(slots[j].Active?, true, Dev(g, j))
  }

  /** One group's turn. */
  function EnumStor(cfg: Config, f: Flags, g: int, c: Cookie): (r: Step)
    requires 0 <= g < ENUM_MAX && FlagsOk(f)
    ensures FlagsOk(r.flags)
  {
    var d := Get(cfg, g, c);
    if !c.Null? && f.ended[g] then Step(f, c, false)
    else if !c.Null? && !IsStor(cfg, g, c) && f.started[g] then Step(f.(ended := f.ended[g := true]), c, false)
    else
      var started := if c.Null? || !IsStor(cfg, g, c) then f.started[g := true] else f.started;
      Step(Flags(started, f.ended[g := !d.more]), d.cookie, d.found)
  }

  // ---------------------------------------------------------------- the state between calls

  predicate Fresh(f: Flags, g: int)
    requires FlagsOk(f) && 0 <= g <= ENUM_MAX
  {
    forall j :: g <= j < ENUM_MAX ==> !f.started[j] && !f.ended[j]
  }

  predicate Behind(f: Flags, g: int)
    requires FlagsOk(f) && 0 <= g <= ENUM_MAX
  {
    forall j :: 0 <= j < g ==> f.started[j]
  }

  /** The flags that go with a cookie that has been handed out. */
  predicate Ready(cfg: Config, f: Flags, c: Cookie) {
    FlagsOk(f) &&
    if c.Dev? then
      && 0 <= c.group < ENUM_MAX && IsStor(cfg, c.group, c)
      && Behind(f, c.group) && f.started[c.group] && !f.ended[c.group] && Fresh(f, c.group + 1)
    else Fresh(f, 0)
  }

  /** What is still to come after a cookie. */
  function Pending(cfg: Config, c: Cookie): seq<Cookie>
    requires c.Dev? ==> 0 <= c.group < ENUM_MAX && 0 <= c.index
  {
    match c
    case Null => From(cfg, 0)
    case Net => Skip(cfg, 0)
    case Dev(g, i) => Rest(cfg, g, i + 1)
  }

  /** State of the group loop before group `i`, with `p` still to come: the cookie's own group is ahead, or
      the groups ahead are fresh and meet a null or a foreign cookie. */
  predicate Walking(cfg: Config, f: Flags, c: Cookie, i: int, p: seq<Cookie>)
    requires 0 <= i <= ENUM_MAX
  {
    FlagsOk(f) &&
    if c.Dev? && c.group >= i then Ready(cfg, f, c) && p == Pending(cfg, c)
    else Behind(f, i) && Fresh(f, i) && p == if c.Null? then From(cfg, i) else Skip(cfg, i)
  }

  lemma {:induction false} RestAtNext(cfg: Config, g: int, i: nat)
    requires 0 <= g < ENUM_MAX && i <= |cfg[g].slots|
    ensures var j := NextSlot(cfg[g].slots, i);
      Rest(cfg, g, i) ==
        if j == |cfg[g].slots| then From(cfg, g + 1)
        else if cfg[g].slots[j].Active? then [Dev(g, j)] + Rest(cfg, g, j + 1)
        else Skip(cfg, g + 1)
    decreases |cfg[g].slots| - i
  {
    if i < |cfg[g].slots| && cfg[g].slots[i].Empty? {
      RestAtNext(cfg, g, i + 1);
    }
  }

  /** One group's turn either returns the first device still to come or leaves all of them to come. */
  predicate Walks(cfg: Config, s: Step, i: int, p: seq<Cookie>)
    requires 0 <= i < ENUM_MAX
  {
    if s.found then
      p != [] && s.cookie.Dev? && s.cookie == p[0] && Ready(cfg, s.flags, s.cookie) && Pending(cfg, s.cookie) == p[1..]
    else Walking(cfg, s.flags, s.cookie, i + 1, p)
  }

  lemma WalkPast(cfg: Config, f: Flags, c: Cookie, i: int, p: seq<Cookie>)
    requires 0 <= i < ENUM_MAX && Walking(cfg, f, c, i, p) && c.Dev? && c.group > i
    ensures Walks(cfg, EnumStor(cfg, f, i, c), i, p)
  {
  }

  lemma WalkOn(cfg: Config, f: Flags, c: Cookie, i: int, p: seq<Cookie>)
    requires 0 <= i < ENUM_MAX && Walking(cfg, f, c, i, p) && c.Dev? && c.group == i
    ensures Walks(cfg, EnumStor(cfg, f, i, c), i, p)
  {
    RestAtNext(cfg, i, c.index + 1);
  }

  lemma WalkAfresh(cfg: Config, f: Flags, i: int, p: seq<Cookie>)
    requires 0 <= i < ENUM_MAX && Walking(cfg, f, Null, i, p)
    ensures Walks(cfg, EnumStor(cfg, f, i, Null), i, p)
  {
    RestAtNext(cfg, i, 0);
  }

  lemma WalkForeign(cfg: Config, f: Flags, c: Cookie, i: int, p: seq<Cookie>)
    requires 0 <= i < ENUM_MAX && Walking(cfg, f, c, i, p) && (c.Net? || (c.Dev? && c.group < i))
    ensures Walks(cfg, EnumStor(cfg, f, i, c), i, p)
  {
  }

  lemma WalkOne(cfg: Config, f: Flags, c: Cookie, i: int, p: seq<Cookie>)
    requires 0 <= i < ENUM_MAX && Walking(cfg, f, c, i, p)
    ensures Walks(cfg, EnumStor(cfg, f, i, c), i, p)
  {
    if c.Null? {
      WalkAfresh(cfg, f, i, p);
    } else if c.Net? || c.group < i {
      WalkForeign(cfg, f, c, i, p);
    } else if c.group == i {
      WalkOn(cfg, f, c, i, p);
    } else {
      WalkPast(cfg, f, c, i, p);
    }
  }

  /** The turns of the groups from `i` on, up to the first that finds a device. */
  function EnumStorage(cfg: Config, f: Flags, i: nat, c: Cookie): (r: Step)
    requires i <= ENUM_MAX && FlagsOk(f)
    ensures FlagsOk(r.flags)
    decreases ENUM_MAX - i
  {
    if i == ENUM_MAX then Step(f, c, false)
    else
      var s := EnumStor(cfg, f, i, c);
      if s.found then s else EnumStorage(cfg, s.flags, i + 1, s.cookie)
  }

  /** With the flags that go with the cookie, the call returns the first device still to come, if any. */
  lemma {:induction false} StorageFinds(cfg: Config, f: Flags, i: nat, c: Cookie, p: seq<Cookie>)
    requires i <= ENUM_MAX && Walking(cfg, f, c, i, p)
    ensures var s := EnumStorage(cfg, f, i, c);
      if p == [] then !s.found
      else && s.found && s.cookie.Dev? && s.cookie == p[0]
           && Ready(cfg, s.flags, s.cookie) && Pending(cfg, s.cookie) == p[1..]
    decreases ENUM_MAX - i
  {
    if i < ENUM_MAX {
      WalkOne(cfg, f, c, i, p);
      var s := EnumStor(cfg, f, i, c);
      if !s.found {
        StorageFinds(cfg, s.flags, i + 1, s.cookie, p);
      }
    }
  }

  function Blank(): Flags {
    Flags(seq(ENUM_MAX, _ => false), seq(ENUM_MAX, _ => false))
  }

  /** One `API_dev_enum` call: the flags and the cookie that it leaves. */
  function DevEnum(cfg: Config, net: bool, f: Flags, c: Cookie): (Flags, Cookie)
    requires FlagsOk(f)
  {
    if c.Null? && net then (Blank(), Net)
    else
      var s := EnumStorage(cfg, if c.Null? then Blank() else f, 0, c);
      (s.flags, if s.found then s.cookie else Null)
  }

  /** With a null cookie, or one that has been handed out, the call returns the next visible device and
      leaves the flags that go with it. */
  lemma DevEnumFinds(cfg: Config, net: bool, f: Flags, c: Cookie)
    requires FlagsOk(f) && (c != Null ==> Ready(cfg, f, c))
    ensures var (f', c') := DevEnum(cfg, net, f, c);
      && FlagsOk(f') && (c' != Null ==> Ready(cfg, f', c'))
      && var p := if c == Null then Visible(cfg, net) else Pending(cfg, c);
         if p == [] then c' == Null else c' == p[0] && c' != Null && Pending(cfg, c') == p[1..]
  {
    if c.Null? {
      if !net {
        StorageFinds(cfg, Blank(), 0, c, From(cfg, 0));
      }
    } else {
      StorageFinds(cfg, f, 0, c, Pending(cfg, c));
    }
  }

  class DeviceInfo {
    var cookie: Cookie
  }

  class Enumerator {
    const cfg: Config
    const net: bool
    var flags: Flags

    constructor (config: Config, network: bool)
      ensures cfg == config && net == network && FlagsOk(flags)
    {
      cfg, net := config, network;
      flags := Flags(seq(ENUM_MAX, _ => false), seq(ENUM_MAX, _ => false));
    }

    /** `blk_get_dev`: the device in a slot, or null. */
    function BlkGetDev(g: int, i: int): Cookie
      requires 0 <= g < ENUM_MAX && 0 <= i < |cfg[g].slots|
    {
      if cfg[g].slots[i].Empty? then Null else Dev(g, i)
    }

    method DevStorGet(g: int, di: DeviceInfo) returns (found: bool, more: bool)
      requires 0 <= g < ENUM_MAX
      modifies di
      ensures Found(found, more, di.cookie) == Get(cfg, g, old(di.cookie))
    {
      found, more := false, false;
      if !cfg[g].configured {
        return;
      }
      var i := 0;
      var max := |cfg[g].slots|;
      if di.cookie != Null {
        while i < max
          invariant 0 <= i <= max
          invariant forall k :: 0 <= k < i ==> BlkGetDev(g, k) != di.cookie
        {
          if di.cookie == BlkGetDev(g, i) {
            i := i + 1;
            break;
          }
          i := i + 1;
        }
      }
      assert IsStor(cfg, g, di.cookie) ==> BlkGetDev(g, di.cookie.index) == di.cookie;
      assert i == if di.cookie.Null? then 0 else if IsStor(cfg, g, di.cookie) then di.cookie.index + 1 else max;
      ghost var from := i;
      while i < max
        invariant from <= i <= max && !found
        invariant forall k :: from <= k < i ==> cfg[g].slots[k].Empty?
      {
        di.cookie := BlkGetDev(g, i);
        if di.cookie != Null {
          found := true;
          break;
        }
        i := i + 1;
      }
      assert i == NextSlot(cfg[g].slots, from);
      more := i != max;
      if found {
        if cfg[g].slots[i].Inactive? {
          found := false;
        }
      } else {
        di.cookie := Null;
      }
    }

    /** `dev_stor_type`: the group of a device, or the number of groups. */
    method DevStorType(c: Cookie) returns (t: int)
      requires c != Null
      ensures 0 <= t <= ENUM_MAX
      ensures forall g :: 0 <= g < ENUM_MAX ==> (t == g <==> IsStor(cfg, g, c))
    {
      for i := 0 to ENUM_MAX
        invariant forall g :: 0 <= g < i ==> !IsStor(cfg, g, c)
      {
        for j := 0 to |cfg[i].slots|
          invariant forall k :: 0 <= k < j ==> BlkGetDev(i, k) != c
        {
          if c == BlkGetDev(i, j) {
            return i;
          }
        }
        assert IsStor(cfg, i, c) ==> BlkGetDev(i, c.index) == c;
      }
      return ENUM_MAX;
    }

    method DevEnumStor(g: int, di: DeviceInfo) returns (found: bool)
      requires 0 <= g < ENUM_MAX && FlagsOk(flags)
      modifies this, di
      ensures Step(flags, di.cookie, found) == EnumStor(cfg, old(flags), g, old(di.cookie))
    {
      var more := false;
      found := false;
      if di.cookie == Null {
        found, more := DevStorGet(g, di);
        flags := flags.(started := flags.started[g := true]);
      } else {
        var t := DevStorType(di.cookie);
        if t == g {
          if flags.ended[g] {
            return;
          }
          found, more := DevStorGet(g, di);
        } else {
          if flags.ended[g] {
            return;
          }
          if !flags.started[g] {
            flags := flags.(started := flags.started[g := true]);
            found, more := DevStorGet(g, di);
          }
        }
      }
      flags := flags.(ended := flags.ended[g := !more]);
    }

    method DevEnumReset()
      requires FlagsOk(flags)
      modifies this
      ensures FlagsOk(flags) && Fresh(flags, 0)
    {
      for i := 0 to ENUM_MAX
        invariant FlagsOk(flags) && forall j :: 0 <= j < i ==> !flags.started[j] && !flags.ended[j]
      {
        flags := Flags(flags.started[i := false], flags.ended[i := false]);
      }
    }

    /** `dev_enum_storage`: all groups in turn, for any flags and any cookie. */
    method DevEnumStorage(di: DeviceInfo) returns (found: bool)
      requires FlagsOk(flags)
      modifies this, di
      ensures FlagsOk(flags)
      ensures Step(flags, di.cookie, found) == EnumStorage(cfg, old(flags), 0, old(di.cookie))
    {
      for i := 0 to ENUM_MAX
        invariant FlagsOk(flags)
        invariant EnumStorage(cfg, flags, i, di.cookie) == EnumStorage(cfg, old(flags), 0, old(di.cookie))
      {
        found := DevEnumStor(i, di);
        if found {
          return;
        }
      }
      found := false;
    }

    /** `API_dev_enum`: from a null cookie the enumeration starts over with the network device. */
    method ApiDevEnum(di: DeviceInfo)
      requires FlagsOk(flags)
      modifies this, di
      ensures FlagsOk(flags)
      ensures (flags, di.cookie) == DevEnum(cfg, net, old(flags), old(di.cookie))
    {
      if di.cookie == Null {
        DevEnumReset();
        assert flags == Blank();
        if net {
          di.cookie := Net;
          return;
        }
      }
      var found := DevEnumStorage(di);
      if !found {
        di.cookie := Null;
      }
    }

    /** The same call with a null cookie or one that has been handed out: the next visible device. */
    method NextDevice(di: DeviceInfo)
      requires FlagsOk(flags) && (di.cookie != Null ==> Ready(cfg, flags, di.cookie))
      modifies this, di
      ensures FlagsOk(flags) && (di.cookie != Null ==> Ready(cfg, flags, di.cookie))
      ensures var p := if old(di.cookie) == Null then Visible(cfg, net) else Pending(cfg, old(di.cookie));
        if p == [] then di.cookie == Null
        else di.cookie == p[0] && di.cookie != Null && Pending(cfg, di.cookie) == p[1..]
    {
      DevEnumFinds(cfg, net, flags, di.cookie);
      ApiDevEnum(di);
    }

    /** A client that feeds each cookie back sees exactly the visible devices, in order, and then stops. */
    method EnumerateAll(di: DeviceInfo) returns (seen: seq<Cookie>)
      requires FlagsOk(flags) && di.cookie == Null
      modifies this, di
      ensures seen == Visible(cfg, net)
    {
      ghost var all := Visible(cfg, net);
      seen := [];
      NextDevice(di);
      while di.cookie != Null
        invariant FlagsOk(flags) && (di.cookie != Null ==> Ready(cfg, flags, di.cookie))
        invariant all == seen + if di.cookie == Null then [] else [di.cookie] + Pending(cfg, di.cookie)
        decreases |all| - |seen|
      {
        seen := seen + [di.cookie];
        NextDevice(di);
      }
    }
  }
}
