/** Lists of images handed from one boot stage to the next, linked through the nodes that the image
    descriptor table embeds. A pointer to an embedded node is the index of its descriptor. */
module HandOff {
  import opened Machine

  datatype ImageDesc = ImageDesc(imageId: int, executable: bool, firstExe: bool, nextHandoff: int)

  datatype Link = Null | To(index: nat)

  datatype Node = Node(imageId: int, next: Link)

  datatype Outcome = NoImages | AssertFailed | Built(head: Link)

  /** The pointer list that starts at `start` visits exactly the descriptors `c`, in order. */
  predicate ListIs(nodes: seq<Node>, start: Link, c: seq<nat>)
    decreases c
  {
    if c == [] then start == Null
    else start == To(c[0]) && c[0] < |nodes| && ListIs(nodes, nodes[c[0]].next, c[1..])
  }

  /** Link to the element of `c` after position `k`. */
  function After(c: seq<nat>, k: nat): Link {
    if k + 1 < |c| then To(c[k + 1]) else Null
  }

  /** Each node of `c` points to the one after it, and the last one to nothing. */
  predicate Linked(nodes: seq<Node>, c: seq<nat>) {
    && (forall k :: 0 <= k < |c| ==> c[k] < |nodes|)
    && (forall k {:trigger After(c, k)} :: 0 <= k < |c| ==> nodes[c[k]].next == After(c, k))
  }

  lemma {:induction false} LinkedIsList(nodes: seq<Node>, c: seq<nat>)
    requires c != [] && Linked(nodes, c)
    ensures ListIs(nodes, To(c[0]), c)
  {
    assert nodes[c[0]].next == After(c, 0);
    if |c| > 1 {
      var d := c[1..];
      forall k | 0 <= k < |d|
        ensures d[k] < |nodes| && nodes[d[k]].next == After(d, k)
      {
        assert d[k] == c[k + 1] && After(d, k) == After(c, k + 1);
      }
      LinkedIsList(nodes, d);
    }
  }

  /** Index of the first descriptor with this id. */
  predicate FirstWithId(t: seq<ImageDesc>, id: int, i: int) {
    0 <= i < |t| && t[i].imageId == id && forall j :: 0 <= j < i ==> t[j].imageId != id
  }

  /** Index of the first image marked executable and first to execute. */
  predicate IsHead(t: seq<ImageDesc>, i: int) {
    && 0 <= i < |t| && t[i].executable && t[i].firstExe
    && forall j :: 0 <= j < i ==> !(t[j].executable && t[j].firstExe)
  }

  /** Descriptor `i` hands over to descriptor `j`; index 0 is never a target. */
  predicate HandsTo(t: seq<ImageDesc>, i: nat, j: int) {
    i < |t| && t[i].nextHandoff != INVALID_IMAGE_ID && FirstWithId(t, t[i].nextHandoff, j) && j > 0
  }

  /** A hand-off path: it starts at the head, visits executable images only and follows hand-offs. */
  predicate IsPath(t: seq<ImageDesc>, c: seq<nat>) {
    && c != [] && IsHead(t, c[0])
    && (forall k :: 0 <= k < |c| ==> c[k] < |t| && t[c[k]].executable)
    && (forall k :: 0 <= k < |c| - 1 ==> HandsTo(t, c[k], c[k + 1]))
  }

  /** A complete chain: a path whose last image hands over to nobody. */
  predicate IsChain(t: seq<ImageDesc>, c: seq<nat>) {
    IsPath(t, c) && t[c[|c| - 1]].nextHandoff == INVALID_IMAGE_ID
  }

  predicate Distinct(c: seq<nat>) {
    forall i, j :: 0 <= i < j < |c| ==> c[i] != c[j]
  }

  /** Hand-offs are deterministic, so any path is a prefix of the chain, if there is one. */
  lemma {:induction false} PathPrefixOfChain(t: seq<ImageDesc>, v: seq<nat>, c: seq<nat>)
    requires IsPath(t, v) && IsChain(t, c)
    ensures |v| <= |c| && v == c[..|v|]
    decreases |v|
  {
    if |v| > 1 {
      var u, k := v[..|v| - 1], |v| - 2;
      PathPrefixOfChain(t, u, c);
      assert HandsTo(t, v[k], v[k + 1]);
      assert v[k] == u[k] == c[k];
      assert |u| < |c|;
      assert HandsTo(t, c[k], c[k + 1]);
      assert v == u + [v[k + 1]] && c[..|v|] == c[..|u|] + [c[k + 1]];
    } else {
      assert v[0] == c[0];
    }
  }

  lemma {:induction false} ShiftedChain(t: seq<ImageDesc>, c: seq<nat>, i: nat, j: nat, d: nat)
    requires IsChain(t, c) && i < j && j + d < |c| && c[i] == c[j]
    ensures c[i + d] == c[j + d]
  {
    if d > 0 {
      ShiftedChain(t, c, i, j, d - 1);
      assert HandsTo(t, c[i + d - 1], c[i + d - 1 + 1]) && HandsTo(t, c[j + d - 1], c[j + d - 1 + 1]);
    }
  }

  /** A chain that ends visits no image twice. */
  lemma ChainDistinct(t: seq<ImageDesc>, c: seq<nat>)
    requires IsChain(t, c)
    ensures Distinct(c)
  {
    forall i, j | 0 <= i < j < |c|
      ensures c[i] != c[j]
    {
      var d := |c| - 1 - j;
      assert HandsTo(t, c[i + d], c[i + d + 1]);
      if c[i] == c[j] {
        ShiftedChain(t, c, i, j, d);
      }
    }
  }

  lemma LongerPath(t: seq<ImageDesc>, v: seq<nat>, x: nat)
    requires if v == [] then IsHead(t, x) else IsPath(t, v) && HandsTo(t, v[|v| - 1], x)
    requires x < |t| && t[x].executable
    ensures IsPath(t, v + [x])
  {
    var w := v + [x];
    forall k | 0 <= k < |w| - 1
      ensures HandsTo(t, w[k], w[k + 1])
    {
      if k + 1 < |v| {
        assert HandsTo(t, v[k], v[k + 1]);
      }
    }
  }

  /** Where a path is not complete, the chain goes on after it. */
  lemma ChainGoesOn(t: seq<ImageDesc>, v: seq<nat>, c: seq<nat>)
    requires IsPath(t, v) && IsChain(t, c) && t[v[|v| - 1]].nextHandoff != INVALID_IMAGE_ID
    ensures |v| < |c| && HandsTo(t, v[|v| - 1], c[|v|]) && t[c[|v|]].executable
  {
    PathPrefixOfChain(t, v, c);
    assert v[|v| - 1] == c[|v| - 1];
    assert HandsTo(t, c[|v| - 1], c[|v| - 1 + 1]);
  }

  lemma ChainHasHead(t: seq<ImageDesc>)
    ensures (exists c :: IsChain(t, c)) ==> exists i :: IsHead(t, i)
  {
    if exists c :: IsChain(t, c) {
      var c :| IsChain(t, c);
      assert IsHead(t, c[0]);
    }
  }

  /** A table whose hand-offs revisit an image has no complete chain. */
  lemma RevisitHasNoChain(t: seq<ImageDesc>, v: seq<nat>)
    requires IsPath(t, v) && !Distinct(v)
    ensures !exists c :: IsChain(t, c)
  {
    forall c | IsChain(t, c)
      ensures false
    {
      ChainDistinct(t, c);
      PathPrefixOfChain(t, v, c);
    }
  }

  /** A path over a table of `n` descriptors that can still go on after `n` steps has no end. */
  lemma LongPathHasNoChain(t: seq<ImageDesc>, v: seq<nat>, x: nat)
    requires IsPath(t, v) && |v| == |t| && HandsTo(t, v[|v| - 1], x)
    ensures !exists c :: IsChain(t, c)
  {
    forall c | IsChain(t, c)
      ensures false
    {
      ChainDistinct(t, c);
      DistinctFits(c, |t|);
      ChainGoesOn(t, v, c);
    }
  }

  /** A path that cannot go on and is not complete has no chain. */
  lemma StuckPathHasNoChain(t: seq<ImageDesc>, v: seq<nat>)
    requires IsPath(t, v) && t[v[|v| - 1]].nextHandoff != INVALID_IMAGE_ID
    requires forall x :: HandsTo(t, v[|v| - 1], x) ==> !t[x].executable
    ensures !exists c :: IsChain(t, c)
  {
    forall c | IsChain(t, c)
      ensures false
    {
      ChainGoesOn(t, v, c);
    }
  }

  /** The nodes of the path `v` are linked and filled in; the others are as before. */
  predicate Progress(t: seq<ImageDesc>, nodes: seq<Node>, before: seq<Node>, v: seq<nat>) {
    && |nodes| == |before| == |t|
    && Linked(nodes, v)
    && (forall k :: 0 <= k < |v| ==> nodes[v[k]].imageId == t[v[k]].imageId)
    && (forall i :: 0 <= i < |t| && i !in v ==> nodes[i] == before[i])
  }

  /** What one turn of the linking loop does to the nodes. */
  function LinkedNext(t: seq<ImageDesc>, nodes: seq<Node>, last: Link, x: nat): seq<Node>
    requires x < |nodes| == |t| && (last.To? ==> last.index < |nodes|)
  {
    var filled := nodes[x := nodes[x].(imageId := t[x].imageId)];
    if last.To? then filled[last.index := filled[last.index].(next := To(x))] else filled
  }

  function LastOf(v: seq<nat>): Link {
    if v == [] then Null else To(v[|v| - 1])
  }

  lemma ProgressNext(t: seq<ImageDesc>, nodes: seq<Node>, before: seq<Node>, v: seq<nat>, x: nat)
    requires Progress(t, nodes, before, v) && Distinct(v + [x]) && x < |t| && before[x].next == Null
    ensures Progress(t, LinkedNext(t, nodes, LastOf(v), x), before, v + [x])
  {
    var w := v + [x];
    var nodes' := LinkedNext(t, nodes, LastOf(v), x);
    assert forall k :: 0 <= k < |v| ==> w[k] == v[k] && w[k] != w[|v|];
    assert x !in v && nodes[x] == before[x];
    forall k | 0 <= k < |w|
      ensures w[k] < |nodes'| && nodes'[w[k]] == Node(t[w[k]].imageId, After(w, k))
    {
      if k < |v| - 1 {
        assert w[k] != w[|v| - 1] && After(w, k) == After(v, k);
      }
    }
    forall i | 0 <= i < |t| && i !in w
      ensures nodes'[i] == before[i]
    {
      assert i != w[|v|] && (v != [] ==> i != w[|v| - 1]);
      assert i !in v;
    }
  }

  /** State of the nodes after the path `v`, before descriptor `next` is visited: the nodes of `v` are
      linked, or the last one has been visited before and so already has a successor. */
  predicate Walked(t: seq<ImageDesc>, nodes: seq<Node>, before: seq<Node>, v: seq<nat>) {
    && |nodes| == |before| == |t|
    && (v == [] || IsPath(t, v))
    && (if Distinct(v) then Progress(t, nodes, before, v) else nodes[v[|v| - 1]].next != Null)
  }

  predicate CanVisit(t: seq<ImageDesc>, v: seq<nat>, x: int) {
    0 <= x < |t| && if v == [] then IsHead(t, x) else IsPath(t, v) && HandsTo(t, v[|v| - 1], x)
  }

  lemma WalkedNext(t: seq<ImageDesc>, nodes: seq<Node>, before: seq<Node>, v: seq<nat>, x: nat)
    requires Walked(t, nodes, before, v) && CanVisit(t, v, x) && t[x].executable
    requires forall k :: 0 <= k < |t| ==> before[k].next == Null
    requires v != [] ==> nodes[v[|v| - 1]].next == Null
    ensures IsPath(t, v + [x]) && Walked(t, LinkedNext(t, nodes, LastOf(v), x), before, v + [x])
  {
    LongerPath(t, v, x);
    if Distinct(v + [x]) {
      assert Distinct(v) by {
        assert forall k :: 0 <= k < |v| ==> v[k] == (v + [x])[k];
      }
      ProgressNext(t, nodes, before, v, x);
    } else {
      assert x in v;
      var k :| 0 <= k < |v| && v[k] == x;
      assert nodes[v[k]].next == After(v, k);
    }
  }

  lemma LastUnlinked(t: seq<ImageDesc>, nodes: seq<Node>, before: seq<Node>, v: seq<nat>)
    requires Progress(t, nodes, before, v) && v != []
    ensures nodes[v[|v| - 1]].next == Null
  {
    assert nodes[v[|v| - 1]].next == After(v, |v| - 1);
  }

  /** The loop-detection assertion fails only on a revisit. */
  lemma RefusedLinkHasNoChain(t: seq<ImageDesc>, nodes: seq<Node>, before: seq<Node>, v: seq<nat>)
    requires Walked(t, nodes, before, v) && v != [] && nodes[v[|v| - 1]].next != Null
    ensures !exists c :: IsChain(t, c)
  {
    if Distinct(v) {
      LastUnlinked(t, nodes, before, v);
    }
    RevisitHasNoChain(t, v);
  }

  /** Pigeonhole: distinct indices below `n` are at most `n`. */
  lemma {:induction false} DistinctFits(c: seq<nat>, n: nat)
    requires Distinct(c) && forall k :: 0 <= k < |c| ==> c[k] < n
    ensures |c| <= n
  {
    assert c == [] || c[0] < n;
    if n > 0 && n - 1 !in c {
      DistinctFits(c, n - 1);
    } else if n > 0 {
      var k :| 0 <= k < |c| && c[k] == n - 1;
      DistinctFits(c[..k] + c[k + 1..], n - 1);
    }
  }

  class BlParams {
    const descs: seq<ImageDesc>
    /** `params_node_mem` and `load_node_mem` of each descriptor. */
    const paramsNodes: array<Node>
    const loadNodes: array<Node>
    /** `next_bl_params.head` and `bl_load_info.head`. */
    var paramsHead: Link
    var loadHead: Link

    ghost predicate Valid()
      reads this
    {
      paramsNodes.Length == |descs| && loadNodes.Length == |descs| && paramsNodes != loadNodes
    }

    constructor (table: seq<ImageDesc>)
      ensures Valid() && descs == table && paramsHead == Null && loadHead == Null
      ensures fresh(paramsNodes) && fresh(loadNodes)
      ensures forall k :: 0 <= k < |descs| ==> paramsNodes[k].next == Null && loadNodes[k].next == Null
    {
      descs := table;
      paramsNodes := new Node[|table|](_ => Node(0, Null));
      loadNodes := new Node[|table|](_ => Node(0, Null));
      paramsHead, loadHead := Null, Null;
    }

    method GetBlParamsNodeIndex(id: int) returns (index: int)
      ensures index == -1 || FirstWithId(descs, id, index)
      ensures index == -1 <==> forall j :: 0 <= j < |descs| ==> descs[j].imageId != id
    {
      for i := 0 to |descs|
        invariant forall j :: 0 <= j < i ==> descs[j].imageId != id
      {
        if descs[i].imageId == id {
          return i;
        }
      }
      return -1;
    }

    /** The load list: every descriptor, in table order. */
    method GetBlLoadInfo() returns (r: Outcome)
      requires Valid() && forall k :: 0 <= k < |descs| ==> loadNodes[k].next == Null
      modifies this`loadHead, loadNodes
      ensures r.NoImages? <==> descs == []
      ensures descs != [] ==> r == Built(loadHead) && ListIs(loadNodes[..], loadHead, seq(|descs|, i => i))
      ensures forall k :: 0 <= k < |descs| ==> loadNodes[k].imageId == descs[k].imageId
    {
      if |descs| == 0 {
        return NoImages;
      }
      var n := |descs|;
      loadHead := To(0);
      for index := 0 to n
        invariant loadHead == To(0)
        invariant forall k :: 0 <= k < index ==>
          loadNodes[k] == Node(descs[k].imageId, if k + 1 < n then To(k + 1) else Null)
        invariant forall k :: index <= k < n ==> loadNodes[k].next == Null
      {
        loadNodes[index] := loadNodes[index].(imageId := descs[index].imageId);
        if index + 1 < n {
          loadNodes[index] := loadNodes[index].(next := To(index + 1));
        }
      }
      LinkedIsList(loadNodes[..], seq(n, i => i));
      r := Built(loadHead);
    }

    /** First loop of `get_next_bl_params_from_mem_params_desc`. */
    method FindHead() returns (index: int)
      requires paramsHead == Null
      modifies this`paramsHead
      ensures if exists i :: IsHead(descs, i) then IsHead(descs, index) && paramsHead == To(index)
              else paramsHead == Null
    {
      index := 0;
      for count := 0 to |descs|
        invariant paramsHead == Null && forall j :: 0 <= j < count ==> !(descs[j].executable && descs[j].firstExe)
      {
        if descs[count].executable && descs[count].firstExe {
          paramsHead := To(count);
          assert IsHead(descs, count);
          return count;
        }
      }
    }

    /** Fills in node `x` and links the last node to it, unless that one already has a successor. */
    method LinkNode(last: Link, x: nat) returns (ok: bool)
      requires Valid() && x < |descs| && (last.To? ==> last.index < |descs|)
      modifies paramsNodes
      ensures ok <==> last == Null || old(paramsNodes[..])[last.index].next == Null
      ensures ok ==> paramsNodes[..] == LinkedNext(descs, old(paramsNodes[..]), last, x)
    {
      paramsNodes[x] := paramsNodes[x].(imageId := descs[x].imageId);
      if last.To? {
        if paramsNodes[last.index].next != Null {
          return false;
        }
        paramsNodes[last.index] := paramsNodes[last.index].(next := To(x));
      }
      ok := true;
    }

    /** Second loop of `get_next_bl_params_from_mem_params_desc`, from the head on. */
    method LinkChain(head: nat) returns (ok: bool, ghost chain: seq<nat>)
      requires Valid() && IsHead(descs, head)
      requires forall k :: 0 <= k < |descs| ==> paramsNodes[k].next == Null
      modifies paramsNodes
      ensures ok <==> exists c :: IsChain(descs, c)
      ensures ok ==> IsChain(descs, chain) && Walked(descs, paramsNodes[..], old(paramsNodes[..]), chain)
    {
      chain := [];
      ghost var before := paramsNodes[..];
      var linkIndex: int := head;
      var last := Null;
      for count := 0 to |descs|
        invariant |chain| == count && last == LastOf(chain)
        invariant CanVisit(descs, chain, linkIndex)
        invariant Walked(descs, paramsNodes[..], before, chain)
      {
        if !descs[linkIndex].executable {
          StuckPathHasNoChain(descs, chain);
          return false, chain;
        }
        ghost var nodes := paramsNodes[..];
        var linked := LinkNode(last, linkIndex);
        if !linked {
          RefusedLinkHasNoChain(descs, nodes, before, chain);
          return false, chain;
        }
        WalkedNext(descs, nodes, before, chain, linkIndex);
        chain := chain + [linkIndex];
        last := To(linkIndex);
        var imgId := descs[linkIndex].nextHandoff;
        if imgId == INVALID_IMAGE_ID {
          assert IsChain(descs, chain);
          return true, chain;
        }
        linkIndex := GetBlParamsNodeIndex(imgId);
        if !(0 < linkIndex < |descs|) {
          StuckPathHasNoChain(descs, chain);
          return false, chain;
        }
      }
      LongPathHasNoChain(descs, chain, linkIndex);
      return false, chain;
    }

    /** The hand-off list. On null links the call returns normally if and only if the table has a
        complete chain: the chain exists, visits executable images only and targets neither an unknown
        image nor index 0. The list built is then exactly that chain, without repeats, and no other
        node is touched. A table whose hand-offs revisit an image has no complete chain, so for it the
        call never returns normally. */
    method GetNextBlParams() returns (r: Outcome, ghost chain: seq<nat>)
      requires Valid() && paramsHead == Null
      requires forall k :: 0 <= k < |descs| ==> paramsNodes[k].next == Null
      modifies this`paramsHead, paramsNodes
      ensures r.NoImages? <==> descs == []
      ensures r.Built? <==> exists c :: IsChain(descs, c)
      ensures r.Built? ==> IsChain(descs, chain) && Distinct(chain)
      ensures r.Built? ==> r.head == paramsHead && ListIs(paramsNodes[..], paramsHead, chain)
      ensures r.Built? ==> forall k :: 0 <= k < |chain| ==> paramsNodes[chain[k]].imageId == descs[chain[k]].imageId
      ensures r.Built? ==> forall i :: 0 <= i < |descs| && i !in chain ==> paramsNodes[i] == old(paramsNodes[i])
    {
      chain := [];
      if |descs| == 0 {
        return NoImages, chain;
      }
      var head := FindHead();
      ChainHasHead(descs);
      if paramsHead == Null {
        return AssertFailed, chain;
      }
      var ok;
      ok, chain := LinkChain(head);
      if !ok {
        return AssertFailed, chain;
      }
      ChainDistinct(descs, chain);
      LinkedIsList(paramsNodes[..], chain);
      r := Built(paramsHead);
    }
  }
}
