/** What a client of the device enumeration sees. A group's slots are the devices that the block layer
    may return for it; a cookie names the device returned last. */
module StorageSpec {
  const ENUM_MAX: int := 5

  /** No device, a device of unknown type, or a usable one. */
  datatype Slot = Empty | Inactive | Active

  datatype Group = Group(configured: bool, slots: seq<Slot>)

  datatype Cookie = Null | Net | Dev(group: int, index: int)

  type Config = c: seq<Group> | |c| == ENUM_MAX
    && forall g :: 0 <= g < ENUM_MAX && !c[g].configured ==> c[g].slots == []
    witness seq(ENUM_MAX, _ => Group(false, []))

  function SlotCount(cfg: Config, g: int): nat {
    if 0 <= g < ENUM_MAX then |cfg[g].slots| else 0
  }

  /** Devices seen from slot `i` of group `g` on: an inactive device ends its group early, and its cookie
      goes on to the next group, which does not know it. */
  function Rest(cfg: Config, g: int, i: nat): (r: seq<Cookie>)
    requires 0 <= g < ENUM_MAX
    decreases ENUM_MAX - g, SlotCount(cfg, g) - i
  {
    if i >= |cfg[g].slots| then From(cfg, g + 1)
    else match cfg[g].slots[i]
      case Empty => Rest(cfg, g, i + 1)
      case Active => [Dev(g, i)] + Rest(cfg, g, i + 1)
      case Inactive => Skip(cfg, g + 1)
  }

  /** Devices seen from group `g` on, starting afresh. */
  function From(cfg: Config, g: int): (r: seq<Cookie>)
    requires 0 <= g <= ENUM_MAX
    decreases ENUM_MAX - g, SlotCount(cfg, g) + 1
  {
    if g == ENUM_MAX then [] else Rest(cfg, g, 0)
  }

  /** Devices seen from group `g` on with a foreign cookie: the first configured group looks for it in vain,
      gives up, and only the group after it starts afresh. */
  function Skip(cfg: Config, g: int): (r: seq<Cookie>)
    requires 0 <= g <= ENUM_MAX
    decreases ENUM_MAX - g, 0
  {
    if g == ENUM_MAX then [] else if cfg[g].configured then From(cfg, g + 1) else Skip(cfg, g + 1)
  }

  /** The whole enumeration: the network device, if there is one, and then the storage devices. */
  function Visible(cfg: Config, net: bool): seq<Cookie> {
    if net then [Net] + Skip(cfg, 0) else From(cfg, 0)
  }

  // ---------------------------------------------------------------- order

  /** `c` is a storage device at or after slot `i` of group `g`. */
  predicate AtLeast(c: Cookie, g: int, i: int) {
    c.Dev? && (c.group > g || (c.group == g && c.index >= i))
  }

  predicate Increasing(s: seq<Cookie>) {
    && (forall k :: 0 <= k < |s| ==> s[k].Dev?)
    && (forall k, l :: 0 <= k < l < |s| ==> AtLeast(s[l], s[k].group, s[k].index + 1))
  }

  lemma {:induction false} RestIncreasing(cfg: Config, g: int, i: nat)
    requires 0 <= g < ENUM_MAX
    ensures Increasing(Rest(cfg, g, i)) && forall k :: 0 <= k < |Rest(cfg, g, i)| ==> AtLeast(Rest(cfg, g, i)[k], g, i)
    decreases ENUM_MAX - g, SlotCount(cfg, g) - i
  {
    if i >= |cfg[g].slots| {
      FromIncreasing(cfg, g + 1);
    } else if cfg[g].slots[i].Inactive? {
      SkipIncreasing(cfg, g + 1);
    } else {
      RestIncreasing(cfg, g, i + 1);
    }
  }

  lemma {:induction false} FromIncreasing(cfg: Config, g: int)
    requires 0 <= g <= ENUM_MAX
    ensures Increasing(From(cfg, g)) && forall k :: 0 <= k < |From(cfg, g)| ==> AtLeast(From(cfg, g)[k], g, 0)
    decreases ENUM_MAX - g, SlotCount(cfg, g) + 1
  {
    if g < ENUM_MAX {
      RestIncreasing(cfg, g, 0);
    }
  }

  lemma {:induction false} SkipIncreasing(cfg: Config, g: int)
    requires 0 <= g <= ENUM_MAX
    ensures Increasing(Skip(cfg, g)) && forall k :: 0 <= k < |Skip(cfg, g)| ==> AtLeast(Skip(cfg, g)[k], g, 0)
    decreases ENUM_MAX - g, 0
  {
    if g < ENUM_MAX {
      if cfg[g].configured {
        FromIncreasing(cfg, g + 1);
      } else {
        SkipIncreasing(cfg, g + 1);
      }
    }
  }

  /** No client sees a device twice, whatever slots are inactive: the storage devices come in strictly
      increasing (group, index) order, after the network device. */
  lemma VisibleDistinct(cfg: Config, net: bool, k: nat, l: nat)
    requires k < l < |Visible(cfg, net)|
    ensures Visible(cfg, net)[k] != Visible(cfg, net)[l]
    ensures !net || k > 0 ==>
      var c, d := Visible(cfg, net)[k], Visible(cfg, net)[l];
      c.Dev? && AtLeast(d, c.group, c.index + 1)
  {
    FromIncreasing(cfg, 0);
    SkipIncreasing(cfg, 0);
  }

  // ---------------------------------------------------------------- completeness

  /** All usable devices from slot `i` of group `g` on. */
  function Usable(cfg: Config, g: int, i: nat): seq<Cookie>
    requires 0 <= g <= ENUM_MAX
    decreases ENUM_MAX - g, SlotCount(cfg, g) - i
  {
    if g == ENUM_MAX then []
    else if i >= |cfg[g].slots| then Usable(cfg, g + 1, 0)
    else (if cfg[g].slots[i].Active? then [Dev(g, i)] else []) + Usable(cfg, g, i + 1)
  }

  predicate IsUsable(cfg: Config, c: Cookie) {
    c.Dev? && 0 <= c.group < ENUM_MAX && 0 <= c.index < |cfg[c.group].slots| && cfg[c.group].slots[c.index].Active?
  }

  lemma UsableHere(cfg: Config, g: int, i: nat, c: Cookie)
    requires 0 <= g < ENUM_MAX && i < |cfg[g].slots|
    ensures c in Usable(cfg, g, i) <==> c in Usable(cfg, g, i + 1) || (cfg[g].slots[i].Active? && c == Dev(g, i))
    ensures AtLeast(c, g, i) <==> AtLeast(c, g, i + 1) || c == Dev(g, i)
    ensures c == Dev(g, i) ==> (IsUsable(cfg, c) <==> cfg[g].slots[i].Active?)
  {
  }

  lemma NoneLeft(cfg: Config, i: nat, c: Cookie)
    ensures Usable(cfg, ENUM_MAX, i) == [] && !(IsUsable(cfg, c) && AtLeast(c, ENUM_MAX, i))
  {
  }

  lemma GroupDone(cfg: Config, g: int, i: nat, c: Cookie)
    requires 0 <= g < ENUM_MAX && i >= |cfg[g].slots|
    ensures Usable(cfg, g, i) == Usable(cfg, g + 1, 0)
    ensures IsUsable(cfg, c) ==> (AtLeast(c, g, i) <==> AtLeast(c, g + 1, 0))
  {
  }

  /** `Usable` lists exactly the active slots. */
  lemma {:induction false} UsableIff(cfg: Config, g: int, i: nat, c: Cookie)
    requires 0 <= g <= ENUM_MAX
    ensures c in Usable(cfg, g, i) <==> IsUsable(cfg, c) && AtLeast(c, g, i)
    decreases ENUM_MAX - g, SlotCount(cfg, g) - i
  {
    if g < ENUM_MAX {
      if i >= |cfg[g].slots| {
        UsableIff(cfg, g + 1, 0, c);
        GroupDone(cfg, g, i, c);
      } else {
        UsableIff(cfg, g, i + 1, c);
        UsableHere(cfg, g, i, c);
      }
    } else {
      NoneLeft(cfg, i, c);
    }
  }

  predicate NoneActive(cfg: Config, g: int, i: nat)
    requires 0 <= g < ENUM_MAX
  {
    forall k :: i <= k < |cfg[g].slots| ==> !cfg[g].slots[k].Active?
  }

  /** Nothing usable is hidden: no usable device follows an inactive one in its group, and the group that
      a foreign cookie makes the enumeration skip has none either. */
  predicate RestLossless(cfg: Config, g: int, i: nat)
    requires 0 <= g < ENUM_MAX
    decreases ENUM_MAX - g, SlotCount(cfg, g) - i
  {
    if i >= |cfg[g].slots| then FromLossless(cfg, g + 1)
    else if cfg[g].slots[i].Inactive? then NoneActive(cfg, g, i) && SkipLossless(cfg, g + 1)
    else RestLossless(cfg, g, i + 1)
  }

  predicate FromLossless(cfg: Config, g: int)
    requires 0 <= g <= ENUM_MAX
    decreases ENUM_MAX - g, SlotCount(cfg, g) + 1
  {
    g == ENUM_MAX || RestLossless(cfg, g, 0)
  }

  predicate SkipLossless(cfg: Config, g: int)
    requires 0 <= g <= ENUM_MAX
    decreases ENUM_MAX - g, 0
  {
    if g == ENUM_MAX then true
    else if cfg[g].configured then NoneActive(cfg, g, 0) && FromLossless(cfg, g + 1)
    else SkipLossless(cfg, g + 1)
  }

  /** What is seen from group `g` on starts at or after that group. */
  lemma Heads(cfg: Config, g: int)
    requires 0 <= g <= ENUM_MAX
    ensures From(cfg, g) != [] ==> AtLeast(From(cfg, g)[0], g, 0)
    ensures Skip(cfg, g) != [] ==> AtLeast(Skip(cfg, g)[0], g, 0)
  {
    FromIncreasing(cfg, g);
    SkipIncreasing(cfg, g);
  }

  /** Usable devices of a group come before those of later groups, so a list that starts in a later group
      is complete only if the group has none. */
  lemma {:induction false} UsableSplit(cfg: Config, g: int, i: nat)
    requires 0 <= g < ENUM_MAX
    ensures NoneActive(cfg, g, i) ==> Usable(cfg, g, i) == Usable(cfg, g + 1, 0)
    ensures !NoneActive(cfg, g, i) ==>
      Usable(cfg, g, i) != [] && Usable(cfg, g, i)[0].Dev? && Usable(cfg, g, i)[0].group == g
    decreases |cfg[g].slots| - i
  {
    if i < |cfg[g].slots| {
      UsableSplit(cfg, g, i + 1);
    }
  }

  lemma HiddenTail(cfg: Config, g: int, i: nat, later: seq<Cookie>)
    requires 0 <= g < ENUM_MAX && (later != [] ==> AtLeast(later[0], g + 1, 0))
    ensures later == Usable(cfg, g, i) <==> NoneActive(cfg, g, i) && later == Usable(cfg, g + 1, 0)
  {
    UsableSplit(cfg, g, i);
  }

  lemma SameHead(c: Cookie, s: seq<Cookie>, t: seq<Cookie>)
    ensures [c] + s == [c] + t <==> s == t
  {
    assert ([c] + s)[1..] == s && ([c] + t)[1..] == t;
  }

  lemma {:induction false} RestComplete(cfg: Config, g: int, i: nat)
    requires 0 <= g < ENUM_MAX
    ensures Rest(cfg, g, i) == Usable(cfg, g, i) <==> RestLossless(cfg, g, i)
    decreases ENUM_MAX - g, SlotCount(cfg, g) - i
  {
    if i >= |cfg[g].slots| {
      FromComplete(cfg, g + 1);
    } else {
      match cfg[g].slots[i]
      case Inactive =>
        SkipComplete(cfg, g + 1);
        Heads(cfg, g + 1);
        HiddenTail(cfg, g, i, Skip(cfg, g + 1));
      case Active =>
        RestComplete(cfg, g, i + 1);
        SameHead(Dev(g, i), Rest(cfg, g, i + 1), Usable(cfg, g, i + 1));
      case Empty =>
        RestComplete(cfg, g, i + 1);
        assert Usable(cfg, g, i) == Usable(cfg, g, i + 1);
    }
  }

  lemma {:induction false} FromComplete(cfg: Config, g: int)
    requires 0 <= g <= ENUM_MAX
    ensures From(cfg, g) == Usable(cfg, g, 0) <==> FromLossless(cfg, g)
    decreases ENUM_MAX - g, SlotCount(cfg, g) + 1
  {
    if g < ENUM_MAX {
      RestComplete(cfg, g, 0);
    }
  }

  lemma {:induction false} SkipComplete(cfg: Config, g: int)
    requires 0 <= g <= ENUM_MAX
    ensures Skip(cfg, g) == Usable(cfg, g, 0) <==> SkipLossless(cfg, g)
    decreases ENUM_MAX - g, 0
  {
    if g < ENUM_MAX {
      if cfg[g].configured {
        FromComplete(cfg, g + 1);
        Heads(cfg, g + 1);
        HiddenTail(cfg, g, 0, From(cfg, g + 1));
      } else {
        SkipComplete(cfg, g + 1);
      }
    }
  }

  /** A client sees every usable storage device exactly once if and only if nothing usable is hidden by an
      inactive slot or, with a network device, by the group that the network cookie makes it skip. */
  lemma SeesAllIff(cfg: Config, net: bool)
    ensures Visible(cfg, net) == (if net then [Net] else []) + Usable(cfg, 0, 0) <==>
            if net then SkipLossless(cfg, 0) else FromLossless(cfg, 0)
  {
    FromComplete(cfg, 0);
    SkipComplete(cfg, 0);
    if net {
      assert Visible(cfg, net)[1..] == Skip(cfg, 0) && ([Net] + Usable(cfg, 0, 0))[1..] == Usable(cfg, 0, 0);
    }
  }

  lemma {:induction false} NoInactiveLossless(cfg: Config, g: int, i: nat)
    requires 0 <= g < ENUM_MAX
    requires forall h, k :: 0 <= h < ENUM_MAX && 0 <= k < |cfg[h].slots| ==> !cfg[h].slots[k].Inactive?
    ensures RestLossless(cfg, g, i)
    decreases ENUM_MAX - g, SlotCount(cfg, g) - i
  {
    if i < |cfg[g].slots| {
      NoInactiveLossless(cfg, g, i + 1);
    } else if g + 1 < ENUM_MAX {
      NoInactiveLossless(cfg, g + 1, 0);
    }
  }

  /** Without a network device and without inactive slots every device is seen exactly once. */
  lemma SeesEverything(cfg: Config)
    requires forall h, k :: 0 <= h < ENUM_MAX && 0 <= k < |cfg[h].slots| ==> !cfg[h].slots[k].Inactive?
    ensures Visible(cfg, false) == Usable(cfg, 0, 0)
  {
    NoInactiveLossless(cfg, 0, 0);
    SeesAllIff(cfg, false);
    assert [] + Usable(cfg, 0, 0) == Usable(cfg, 0, 0);
  }

  /** The network cookie hides the first group: with one disk in it, the disk is never seen. */
  lemma NetworkHidesDisk()
    ensures var none := Group(false, []);
      var cfg: Config := [Group(true, [Active]), none, none, none, none];
      Visible(cfg, true) == [Net] && IsUsable(cfg, Dev(0, 0))
  {
    var cfg: Config := [Group(true, [Active]), Group(false, []), Group(false, []), Group(false, []), Group(false, [])];
    assert From(cfg, 5) == [] && From(cfg, 4) == [] && From(cfg, 3) == [];
    assert From(cfg, 2) == [] && From(cfg, 1) == [];
    assert Skip(cfg, 0) == From(cfg, 1);
  }
}
