/** Compaction of the EFI memory map for display: sort by physical start, then merge adjacent
    conventional regions, writing the result over the array that is still being read. */
module EfiMap {
  import opened Machine

  const PAGE_SIZE: int := 4096

  const EFI_LOADER_CODE: int := 1
  const EFI_LOADER_DATA: int := 2
  const EFI_BOOT_SERVICES_CODE: int := 3
  const EFI_BOOT_SERVICES_DATA: int := 4
  const EFI_CONVENTIONAL_MEMORY: int := 7
  const EFI_TABLE_END: int := 15

  datatype MemDesc = MemDesc(
    kind: int,
    physicalStart: nat,
    virtualStart: nat,
    numPages: nat,
    attribute: nat)

  predicate IsBootServices(kind: int) {
    || kind == EFI_LOADER_CODE || kind == EFI_LOADER_DATA
    || kind == EFI_BOOT_SERVICES_CODE || kind == EFI_BOOT_SERVICES_DATA
  }

  /** The difference is taken in 64 bits and read as a signed number. */
  function CmpEntry(x: MemDesc, y: MemDesc): (r: int)
    ensures -1 <= r <= 1
  {
    var diff := x.physicalStart - y.physicalStart + if x.physicalStart < y.physicalStart then TWO_64 else 0;
    if diff >= TWO_63 then -1 else if diff > 0 then 1 else 0
  }

  /** The comparator orders by start address exactly for pairs less than half the address space
      apart; two starts below 2^63 always are. */
  lemma CmpEntryOrdersIff(x: MemDesc, y: MemDesc)
    requires x.physicalStart < TWO_64 && y.physicalStart < TWO_64
    ensures (CmpEntry(x, y) <= 0 <==> x.physicalStart <= y.physicalStart) <==>
            (x.physicalStart == y.physicalStart || -TWO_63 <= x.physicalStart - y.physicalStart < TWO_63)
    ensures x.physicalStart < TWO_63 && y.physicalStart < TWO_63 ==>
            (CmpEntry(x, y) <= 0 <==> x.physicalStart <= y.physicalStart)
  {
  }

  /** Half the address space apart, the comparator puts the higher region first. */
  lemma CmpEntryWraps()
    ensures CmpEntry(MemDesc(EFI_CONVENTIONAL_MEMORY, TWO_63, 0, 1, 0),
                     MemDesc(EFI_CONVENTIONAL_MEMORY, 0, 0, 1, 0)) < 0
  {
  }

  /** First address after the region. */
  function End(d: MemDesc): nat {
    d.physicalStart + d.numPages * PAGE_SIZE
  }

  /** The region ends below the top of the address space. */
  predicate Fits(d: MemDesc) {
    End(d) < TWO_64
  }

  predicate AllFit(s: seq<MemDesc>) {
    forall i :: 0 <= i < |s| ==> Fits(s[i])
  }

  /** The end of a region as the code computes it, in 64-bit arithmetic. */
  function End64(d: MemDesc): nat {
    Wrap64(d.physicalStart + Wrap64(d.numPages * PAGE_SIZE))
  }

  lemma EndFits(d: MemDesc)
    requires Fits(d)
    ensures End64(d) == End(d)
  {
  }

  /** Boot-services memory counts as conventional once boot services are skipped. */
  function Mapped(d: MemDesc, skip: bool): MemDesc {
    if skip && IsBootServices(d.kind) then d.(kind := EFI_CONVENTIONAL_MEMORY) else d
  }

  predicate Mergeable(x: MemDesc, y: MemDesc) {
    x.kind == y.kind == EFI_CONVENTIONAL_MEMORY && End64(x) == y.physicalStart
  }

  /** `x` grown by the pages of `y`, which continues it. */
  function Join(x: MemDesc, y: MemDesc): MemDesc {
    x.(numPages := Wrap64(x.numPages + y.numPages))
  }

  /** Equal remainders, from a difference that is a multiple of 2^64. */
  lemma SameRemainder(a: int, b: int, k: int)
    requires 0 <= a < TWO_64 && 0 <= b < TWO_64 && a - b == TWO_64 * k
    ensures a == b
  {
  }

  lemma WrapIs(n: nat) returns (k: int)
    ensures Wrap64(n) == n - TWO_64 * k && 0 <= Wrap64(n) < TWO_64
  {
    k := n / TWO_64;
  }

  lemma EndIs(d: MemDesc) returns (k: int)
    ensures End64(d) == End(d) - TWO_64 * k && 0 <= End64(d) < TWO_64
  {
    var i := WrapIs(d.numPages * PAGE_SIZE);
    var j := WrapIs(d.physicalStart + Wrap64(d.numPages * PAGE_SIZE));
    k := i + j;
  }

  /** A joined region ends where the region it has taken in ends, also when the arithmetic wraps. */
  lemma JoinEnd(x: MemDesc, y: MemDesc)
    requires End64(x) == y.physicalStart
    ensures End64(Join(x, y)) == End64(y)
  {
    var k := WrapIs(x.numPages + y.numPages);
    var kx := EndIs(x);
    var ky := EndIs(y);
    var kz := EndIs(Join(x, y));
    SameRemainder(End64(Join(x, y)), End64(y), kx + ky - (PAGE_SIZE * k + kz));
  }

  function Last(s: seq<MemDesc>): MemDesc
    requires s != []
  {
    s[|s| - 1]
  }

  function Init(s: seq<MemDesc>): seq<MemDesc>
    requires s != []
  {
    s[..|s| - 1]
  }

  /** Adds one descriptor to a merged list: it joins the last region if it continues it, and starts a
      new one otherwise. */
  function Append(m: seq<MemDesc>, d: MemDesc, skip: bool): (r: seq<MemDesc>)
    ensures r != [] && |r| <= |m| + 1
  {
    if skip && m != [] && Mergeable(Last(m), d) then Init(m) + [Join(Last(m), d)] else m + [d]
  }

  /** Reference definition of the merge: the descriptors are added in order to an empty list. */
  function Merge(s: seq<MemDesc>, skip: bool): (m: seq<MemDesc>)
    ensures |m| <= |s|
    ensures s != [] ==> m != []
  {
    if s == [] then [] else Append(Merge(Init(s), skip), Mapped(Last(s), skip), skip)
  }

  lemma MergeNext(s: seq<MemDesc>, i: nat, skip: bool)
    requires i < |s|
    ensures Merge(s[..i + 1], skip) == Append(Merge(s[..i], skip), Mapped(s[i], skip), skip)
  {
    assert Init(s[..i + 1]) == s[..i];
  }

  /** One turn of the merge loop: descriptor `i` is copied to `dest` and either absorbed by the region
      before it or kept. `addr` is the end of the last descriptor read, which is also the end of the
      last region written. */
  method MergeOne(a: array<MemDesc>, dest: nat, i: nat, addr: nat, skip: bool) returns (dest': nat, addr': nat)
    requires dest <= i < a.Length
    requires dest > 0 ==> addr == End64(a[dest - 1])
    modifies a
    ensures 0 < dest' <= dest + 1
    ensures a[..dest'] == Append(old(a[..dest]), Mapped(old(a[i]), skip), skip)
    ensures forall k :: dest < k < a.Length ==> a[k] == old(a[k])
    ensures addr' == End64(a[dest' - 1])
  {
    var desc := a[i];
    var kind := if skip && IsBootServices(desc.kind) then EFI_CONVENTIONAL_MEMORY else desc.kind;
    var merge := true;
    ghost var m := a[..dest];
    a[dest] := desc;
    a[dest] := a[dest].(kind := kind);
    if !skip || dest == 0 {
      merge := false;
    } else if desc.physicalStart != addr {
      merge := false;
    } else if kind != EFI_CONVENTIONAL_MEMORY {
      merge := false;
    } else if a[dest - 1].kind != EFI_CONVENTIONAL_MEMORY {
      merge := false;
    }
    if merge {
      a[dest - 1] := a[dest - 1].(numPages := Wrap64(a[dest - 1].numPages + desc.numPages));
      JoinEnd(old(a[dest - 1]), Mapped(desc, skip));
      dest' := dest;
      assert a[..dest] == m[..dest - 1] + [a[dest - 1]];
    } else {
      dest' := dest + 1;
      assert a[..dest + 1] == m + [a[dest]];
    }
    addr' := End64(desc);
  }

  /** State of the merge loop before descriptor `i`: the first `n` slots hold what the first `i`
      descriptors merge to, and the rest of the input is still in place. */
  ghost predicate Merging(s: seq<MemDesc>, input: seq<MemDesc>, i: nat, n: nat, addr: nat, skip: bool) {
    && n <= i <= |input| <= |s|
    && s[..n] == Merge(input[..i], skip)
    && (forall k :: i <= k < |input| ==> s[k] == input[k])
    && (n > 0 ==> addr == End64(s[n - 1]))
  }

  method MergeTurn(a: array<MemDesc>, n: nat, i: nat, addr: nat, skip: bool, ghost input: seq<MemDesc>)
      returns (n': nat, addr': nat)
    requires i < |input| && Merging(a[..], input, i, n, addr, skip)
    modifies a
    ensures Merging(a[..], input, i + 1, n', addr', skip)
  {
    assert a[i] == input[i] && a[..][..n] == a[..n];
    MergeNext(input, i, skip);
    n', addr' := MergeOne(a, n, i, addr, skip);
    assert a[..][..n'] == a[..n'];
  }

  /** The merge loop of `efi_build_mem_table`. The write position never passes the read position, so
      no unread descriptor is overwritten. */
  method MergeLoop(a: array<MemDesc>, count: nat, skip: bool) returns (n: nat)
    requires count <= a.Length
    modifies a
    ensures n <= count
    ensures a[..n] == Merge(old(a[..count]), skip)
  {
    ghost var input := a[..count];
    var addr := 0;
    n := 0;
    for i := 0 to count
      invariant Merging(a[..], input, i, n, addr, skip)
    {
      n, addr := MergeTurn(a, n, i, addr, skip, input);
    }
    assert input[..count] == input && a[..][..n] == a[..n];
  }

  /** The loop and the end mark, which takes one slot past the input at most. */
  method MergeInPlace(a: array<MemDesc>, count: nat, skip: bool) returns (n: nat)
    requires count < a.Length
    modifies a
    ensures n <= count
    ensures a[..n] == Merge(old(a[..count]), skip)
    ensures a[n].kind == EFI_TABLE_END
  {
    n := MergeLoop(a, count, skip);
    a[n] := a[n].(kind := EFI_TABLE_END);
  }

  // ---------------------------------------------------------------- sorting

  predicate Sorted(s: seq<MemDesc>) {
    forall i, j :: 0 <= i < j < |s| ==> s[i].physicalStart <= s[j].physicalStart
  }

  lemma Pieces(s: seq<MemDesc>, x: nat, y: nat)
    requires x < y < |s|
    ensures multiset(s) == multiset(s[..x]) + multiset{s[x]} + multiset(s[x + 1..y]) + multiset{s[y]} +
      multiset(s[y + 1..])
  {
    assert s == s[..x] + [s[x]] + s[x + 1..y] + [s[y]] + s[y + 1..];
  }

  lemma SwapKeepsContents(s: seq<MemDesc>, x: nat, y: nat)
    requires x < y < |s|
    ensures multiset(s[x := s[y]][y := s[x]]) == multiset(s)
  {
    Pieces(s, x, y);
    Pieces(s[x := s[y]][y := s[x]], x, y);
    assert s[x := s[y]][y := s[x]][..x] == s[..x];
    assert s[x := s[y]][y := s[x]][x + 1..y] == s[x + 1..y];
    assert s[x := s[y]][y := s[x]][y + 1..] == s[y + 1..];
  }

  /** The first `nel` elements are those of `before` in some order, and the rest are unchanged. */
  ghost predicate Rearranged(s: seq<MemDesc>, before: seq<MemDesc>, nel: nat) {
    && nel <= |s| == |before|
    && multiset(s[..nel]) == multiset(before[..nel]) && s[nel..] == before[nel..]
  }

  /** All regions start in the lower half of the address space, where the comparator orders them. */
  predicate Low(s: seq<MemDesc>) {
    forall i :: 0 <= i < |s| ==> s[i].physicalStart < TWO_63
  }

  lemma StillLow(s: seq<MemDesc>, before: seq<MemDesc>, nel: nat, k: nat)
    requires Rearranged(s, before, nel) && Low(before[..nel]) && k < nel
    ensures s[k].physicalStart < TWO_63
  {
    assert s[..nel][k] in multiset(s[..nel]);
    assert s[k] in before[..nel];
  }

  lemma Compares(s: seq<MemDesc>, before: seq<MemDesc>, nel: nat, x: nat, y: nat)
    requires Rearranged(s, before, nel) && Low(before[..nel]) && x < nel && y < nel
    ensures CmpEntry(s[x], s[y]) <= 0 <==> s[x].physicalStart <= s[y].physicalStart
  {
    StillLow(s, before, nel, x);
    StillLow(s, before, nel, y);
    CmpEntryOrdersIff(s[x], s[y]);
  }

  method Swap(a: array<MemDesc>, nel: nat, x: nat, y: nat)
    requires x < y < nel <= a.Length
    modifies a
    ensures a[..] == old(a[..])[x := old(a[y])][y := old(a[x])]
    ensures Rearranged(a[..], old(a[..]), nel)
  {
    ghost var s := a[..nel];
    SwapKeepsContents(s, x, y);
    a[x], a[y] := a[y], a[x];
    assert a[..][..nel] == s[x := s[y]][y := s[x]];
  }

  /** Sorted apart from element `j`, which may be too small for its place. */
  predicate SortedBut(s: seq<MemDesc>, j: int) {
    forall x, y :: 0 <= x < y < |s| && y != j ==> s[x].physicalStart <= s[y].physicalStart
  }

  lemma SinkOne(s: seq<MemDesc>, t: seq<MemDesc>, i: nat, j: nat)
    requires 0 < j <= i < |s| && t == s[j - 1 := s[j]][j := s[j - 1]]
    requires SortedBut(s[..i + 1], j) && s[j - 1].physicalStart > s[j].physicalStart
    ensures SortedBut(t[..i + 1], j - 1)
  {
    var u, v := s[..i + 1], t[..i + 1];
    assert v == u[j - 1 := u[j]][j := u[j - 1]];
  }

  lemma SinkDone(s: seq<MemDesc>, j: nat)
    requires j < |s| && SortedBut(s, j) && (j > 0 ==> s[j - 1].physicalStart <= s[j].physicalStart)
    ensures Sorted(s)
  {
    forall x | 0 <= x < j
      ensures s[x].physicalStart <= s[j].physicalStart
    {
      assert s[x].physicalStart <= s[j - 1].physicalStart;
    }
  }

  /** State of the innermost loop of `qsort` with element `i` at `j`. What it says about order is for gap 1
      and regions in the lower half of the address space. */
  ghost predicate Sinking(s: seq<MemDesc>, before: seq<MemDesc>, nel: nat, gap: nat, i: nat, j: int) {
    && i < nel && Rearranged(s, before, nel)
    && (gap == 1 && Low(before[..nel]) ==> SortedBut(s[..i + 1], j))
  }

  /** One step down: the comparison and, if it asks for one, the swap. */
  method SinkStep(a: array<MemDesc>, nel: nat, gap: nat, i: nat, j: nat, ghost before: seq<MemDesc>)
      returns (stop: bool)
    requires 0 < gap <= j <= i && nel <= a.Length && Sinking(a[..], before, nel, gap, i, j)
    modifies a
    ensures stop ==> a[..] == old(a[..])
    ensures stop && gap == 1 && Low(before[..nel]) ==> a[j - 1].physicalStart <= a[j].physicalStart
    ensures !stop ==> Sinking(a[..], before, nel, gap, i, j - gap)
  {
    ghost var s := a[..];
    if Low(before[..nel]) {
      Compares(s, before, nel, j - gap, j);
    }
    stop := CmpEntry(a[j - gap], a[j]) <= 0;
    if !stop {
      Swap(a, nel, j - gap, j);
      if gap == 1 && Low(before[..nel]) {
        SinkOne(s, a[..], i, j);
      }
    }
  }

  /** The innermost loop of `qsort`: element `i` sinks in steps of `gap` until it meets one that is not
      larger. With gap 1 this inserts it into the sorted prefix. */
  method Sink(a: array<MemDesc>, nel: nat, gap: nat, i: nat, ghost before: seq<MemDesc>)
    requires 0 < gap <= i < nel <= a.Length && Rearranged(a[..], before, nel)
    requires gap == 1 && Low(before[..nel]) ==> Sorted(a[..i])
    modifies a
    ensures Rearranged(a[..], before, nel)
    ensures gap == 1 && Low(before[..nel]) ==> Sorted(a[..i + 1])
  {
    var j := i;
    var stop := false;
    assert a[..][..i + 1] == a[..i + 1];
    while j >= gap && !stop
      invariant 0 <= j <= i && Sinking(a[..], before, nel, gap, i, j)
      invariant stop && gap == 1 && Low(before[..nel]) ==> j > 0 && a[j - 1].physicalStart <= a[j].physicalStart
      decreases !stop, j
    {
      stop := SinkStep(a, nel, gap, i, j, before);
      if !stop {
        j := j - gap;
      }
    }
    if gap == 1 && Low(before[..nel]) {
      assert a[..][..i + 1] == a[..i + 1];
      SinkDone(a[..i + 1], j);
    }
  }

  /** One pass of `qsort`. */
  method ShellPass(a: array<MemDesc>, nel: nat, gap: nat, ghost before: seq<MemDesc>)
    requires 0 < gap < nel <= a.Length && Rearranged(a[..], before, nel)
    modifies a
    ensures Rearranged(a[..], before, nel)
    ensures gap == 1 && Low(before[..nel]) ==> Sorted(a[..nel])
  {
    for i := gap to nel
      invariant Rearranged(a[..], before, nel)
      invariant gap == 1 && Low(before[..nel]) ==> Sorted(a[..i])
    {
      Sink(a, nel, gap, i, before);
    }
  }

  /** The gap sequence 1, 4, 13, 40, ... */
  predicate IsGap(gap: int) {
    gap == 1 || (gap > 1 && gap % 3 == 1 && IsGap((gap - 1) / 3))
  }

  /** Every gap leads down to 1 and then to 0. */
  lemma GapDown(gap: int)
    requires IsGap(gap)
    ensures 0 <= (gap - 1) / 3 < gap && ((gap - 1) / 3 == 0 <==> gap == 1) && (gap != 1 ==> IsGap((gap - 1) / 3))
  {
  }

  method FirstGap(nel: nat) returns (gap: int)
    requires nel > 1
    ensures IsGap(gap) && 0 < gap < nel
  {
    gap := 1;
    while gap < (nel - 1) / 3
      invariant IsGap(gap) && 0 < gap < nel
    {
      gap := 3 * gap + 1;
    }
  }

  /** `qsort`, a Shell sort whose last pass is an insertion sort. It always permutes; it sorts where the
      comparator orders. */
  method Qsort(a: array<MemDesc>, nel: nat)
    requires nel <= a.Length
    modifies a
    ensures Low(old(a[..nel])) ==> Sorted(a[..nel])
    ensures Rearranged(a[..], old(a[..]), nel)
  {
    ghost var before := a[..];
    assert before[..nel] == a[..nel];
    if nel > 1 {
      var gap := FirstGap(nel);
      while gap > 0
        invariant 0 <= gap < nel && (gap == 0 || IsGap(gap))
        invariant gap == 0 && Low(before[..nel]) ==> Sorted(a[..nel])
        invariant Rearranged(a[..], before, nel)
      {
        ShellPass(a, nel, gap, before);
        GapDown(gap);
        gap := (gap - 1) / 3;
      }
    }
  }

  // ---------------------------------------------------------------- properties of the merge

  predicate Covers(d: MemDesc, address: int, kind: int) {
    d.kind == kind && d.physicalStart <= address < d.physicalStart + d.numPages * PAGE_SIZE
  }

  /** How many descriptors of type `kind` cover `address`, boot services counting as conventional when
      they are skipped. */
  function Coverage(s: seq<MemDesc>, skip: bool, address: int, kind: int): nat {
    if s == [] then 0
    else Coverage(Init(s), skip, address, kind) + if Covers(Mapped(Last(s), skip), address, kind) then 1 else 0
  }

  function TotalPages(s: seq<MemDesc>): nat {
    if s == [] then 0 else TotalPages(Init(s)) + Last(s).numPages
  }

  lemma Snoc(m: seq<MemDesc>, d: MemDesc, address: int, kind: int)
    ensures Coverage(m + [d], false, address, kind) ==
      Coverage(m, false, address, kind) + if Covers(d, address, kind) then 1 else 0
    ensures TotalPages(m + [d]) == TotalPages(m) + d.numPages
  {
    assert Init(m + [d]) == m;
  }

  /** Where nothing wraps, the joined region covers what its two parts covered. */
  lemma JoinCovers(x: MemDesc, y: MemDesc, address: int, kind: int)
    requires Fits(x) && Fits(y) && Mergeable(x, y)
    ensures Fits(Join(x, y)) && Join(x, y).numPages == x.numPages + y.numPages
    ensures (if Covers(Join(x, y), address, kind) then 1 else 0) ==
      (if Covers(x, address, kind) then 1 else 0) + if Covers(y, address, kind) then 1 else 0
  {
    EndFits(x);
    assert x.numPages + y.numPages < TWO_64;
  }

  predicate CoversOnce(x: MemDesc, y: MemDesc, address: int) {
    (if Covers(Join(x, y), address, x.kind) then 1 else 0) ==
    (if Covers(x, address, x.kind) then 1 else 0) + if Covers(y, address, x.kind) then 1 else 0
  }

  /** Joining two regions that the code takes for neighbours conserves coverage at every address, if and only
      if the first does not run up to the top of the address space. */
  lemma JoinConservesIff(x: MemDesc, y: MemDesc)
    requires Mergeable(x, y) && y.numPages > 0 && Fits(y)
    requires x.physicalStart < TWO_64 && x.numPages * PAGE_SIZE < TWO_64
    ensures (forall address :: CoversOnce(x, y, address)) <==> End(x) < TWO_64
  {
    if End(x) < TWO_64 {
      forall address
        ensures CoversOnce(x, y, address)
      {
        JoinCovers(x, y, address, x.kind);
      }
    } else {
      assert y.physicalStart == End(x) - TWO_64 < x.physicalStart;
      assert !CoversOnce(x, y, y.physicalStart);
    }
  }

  lemma AppendConserves(m: seq<MemDesc>, d: MemDesc, skip: bool, address: int, kind: int)
    requires AllFit(m) && Fits(d)
    ensures AllFit(Append(m, d, skip))
    ensures Coverage(Append(m, d, skip), false, address, kind) ==
      Coverage(m, false, address, kind) + if Covers(d, address, kind) then 1 else 0
    ensures TotalPages(Append(m, d, skip)) == TotalPages(m) + d.numPages
  {
    if skip && m != [] && Mergeable(Last(m), d) {
      assert m == Init(m) + [Last(m)];
      JoinCovers(Last(m), d, address, kind);
      Snoc(Init(m), Last(m), address, kind);
      Snoc(Init(m), Join(Last(m), d), address, kind);
    } else {
      Snoc(m, d, address, kind);
    }
  }

  /** The merge conserves, for every address and type, the number of covering descriptors, and the
      total number of pages. */
  lemma {:induction false} MergeConserves(s: seq<MemDesc>, skip: bool, address: int, kind: int)
    requires AllFit(s)
    ensures AllFit(Merge(s, skip))
    ensures Coverage(Merge(s, skip), false, address, kind) == Coverage(s, skip, address, kind)
    ensures TotalPages(Merge(s, skip)) == TotalPages(s)
  {
    if s != [] {
      MergeConserves(Init(s), skip, address, kind);
      AppendConserves(Merge(Init(s), skip), Mapped(Last(s), skip), skip, address, kind);
    }
  }

  /** No two neighbours are left that the merge would join. */
  predicate Maximal(m: seq<MemDesc>) {
    forall i :: 0 <= i < |m| - 1 ==> !Mergeable(m[i], m[i + 1])
  }

  lemma AppendSorted(m: seq<MemDesc>, d: MemDesc, skip: bool)
    requires Sorted(m) && (m != [] ==> Last(m).physicalStart <= d.physicalStart)
    ensures Sorted(Append(m, d, skip)) && Last(Append(m, d, skip)).physicalStart <= d.physicalStart
  {
  }

  /** Merging keeps the order. */
  lemma {:induction false} MergeSorted(s: seq<MemDesc>, skip: bool)
    requires Sorted(s)
    ensures Sorted(Merge(s, skip))
    ensures s != [] ==> Last(Merge(s, skip)).physicalStart <= Last(s).physicalStart
  {
    if s != [] {
      MergeSorted(Init(s), skip);
      AppendSorted(Merge(Init(s), skip), Mapped(Last(s), skip), skip);
    }
  }

  lemma AppendMaximal(m: seq<MemDesc>, d: MemDesc)
    requires Maximal(m)
    ensures Maximal(Append(m, d, true))
  {
  }

  /** When boot services are skipped, merging leaves no two neighbours that could still be merged. */
  lemma {:induction false} MergeMaximal(s: seq<MemDesc>, skip: bool)
    ensures skip ==> Maximal(Merge(s, skip))
  {
    if s != [] && skip {
      MergeMaximal(Init(s), skip);
      AppendMaximal(Merge(Init(s), skip), Mapped(Last(s), skip));
    }
  }

  lemma AppendShown(m: seq<MemDesc>, d: MemDesc, skip: bool)
    requires !skip
    ensures Append(m, Mapped(d, skip), skip) == m + [d]
  {
  }

  lemma {:induction false} MergeShown(s: seq<MemDesc>, i: nat, skip: bool)
    requires i <= |s| && !skip
    ensures Merge(s[..i], skip) == s[..i]
  {
    if i > 0 {
      MergeShown(s, i - 1, skip);
      MergeNext(s, i - 1, skip);
      AppendShown(s[..i - 1], s[i - 1], skip);
    }
  }

  /** With boot services shown, the table is the sorted map itself. */
  lemma MergeAllIsIdentity(s: seq<MemDesc>, skip: bool)
    requires !skip
    ensures Merge(s, skip) == s
  {
    MergeShown(s, |s|, skip);
    assert s[..|s|] == s;
  }

  lemma {:induction false} CoverageOfPermutation(s: seq<MemDesc>, t: seq<MemDesc>, skip: bool, address: int, kind: int)
    requires multiset(s) == multiset(t)
    ensures Coverage(s, skip, address, kind) == Coverage(t, skip, address, kind)
    ensures TotalPages(s) == TotalPages(t)
  {
    assert |s| == |multiset(s)| == |multiset(t)| == |t|;
    if s != [] {
      var x, y := TakeOut(s, t);
      CoverageOfPermutation(Init(s), x + y, skip, address, kind);
      CoverageSplit(x, Last(s), y, skip, address, kind);
    }
  }

  /** Taking one descriptor out of the middle. */
  lemma {:induction false} CoverageSplit(x: seq<MemDesc>, d: MemDesc, y: seq<MemDesc>, skip: bool, address: int,
      kind: int)
    ensures Coverage(x + [d] + y, skip, address, kind) ==
      Coverage(x + y, skip, address, kind) + if Covers(Mapped(d, skip), address, kind) then 1 else 0
    ensures TotalPages(x + [d] + y) == TotalPages(x + y) + d.numPages
  {
    if y == [] {
      assert x + [d] + y == x + [d] && Init(x + [d]) == x && x + y == x;
    } else {
      CoverageSplit(x, d, Init(y), skip, address, kind);
      assert Init(x + [d] + y) == x + [d] + Init(y) && Init(x + y) == x + Init(y);
    }
  }

  /** What skipping boot services means for each type: loader and boot-services memory (types 1 to 4) counts as
      conventional (type 7), and every other type counts as itself. */
  lemma {:induction false} SkippedKinds(s: seq<MemDesc>, address: int, kind: int)
    ensures kind in {1, 2, 3, 4} ==> Coverage(s, true, address, kind) == 0
    ensures kind !in {1, 2, 3, 4, 7} ==> Coverage(s, true, address, kind) == Coverage(s, false, address, kind)
    ensures Coverage(s, true, address, 7) ==
      Coverage(s, false, address, 1) + Coverage(s, false, address, 2) + Coverage(s, false, address, 3) +
      Coverage(s, false, address, 4) + Coverage(s, false, address, 7)
  {
    if s != [] {
      SkippedKinds(Init(s), address, kind);
    }
  }

  /** The entry describes a descriptor of the map: one of another type than conventional is that descriptor, and
      a conventional one starts where it does, with its other fields, and may have grown. */
  predicate ComesFrom(e: MemDesc, d: MemDesc) {
    && (e.kind != 7 ==> e == d)
    && (e.kind == 7 ==> d.kind in {1, 2, 3, 4, 7})
    && e.physicalStart == d.physicalStart && e.virtualStart == d.virtualStart && e.attribute == d.attribute
  }

  ghost predicate HasOrigin(e: MemDesc, s: seq<MemDesc>) {
    exists d :: d in s && ComesFrom(e, d)
  }

  ghost predicate AllComeFrom(m: seq<MemDesc>, s: seq<MemDesc>) {
    forall i :: 0 <= i < |m| ==> HasOrigin(m[i], s)
  }

  lemma OriginIn(e: MemDesc, s: seq<MemDesc>, t: seq<MemDesc>)
    requires HasOrigin(e, s) && forall d :: d in s ==> d in t
    ensures HasOrigin(e, t)
  {
    var d :| d in s && ComesFrom(e, d);
    assert d in t;
  }

  lemma OriginsIn(m: seq<MemDesc>, s: seq<MemDesc>, t: seq<MemDesc>)
    requires AllComeFrom(m, s) && forall d :: d in s ==> d in t
    ensures AllComeFrom(m, t)
  {
    forall i | 0 <= i < |m|
      ensures HasOrigin(m[i], t)
    {
      OriginIn(m[i], s, t);
    }
  }

  lemma JoinOrigin(x: MemDesc, y: MemDesc, s: seq<MemDesc>)
    requires HasOrigin(x, s) && x.kind == 7
    ensures HasOrigin(Join(x, y), s)
  {
    var d :| d in s && ComesFrom(x, d);
    assert ComesFrom(Join(x, y), d);
  }

  lemma AppendOrigins(m: seq<MemDesc>, d: MemDesc, skip: bool, s: seq<MemDesc>)
    requires AllComeFrom(m, s) && HasOrigin(d, s)
    ensures AllComeFrom(Append(m, d, skip), s)
  {
    if skip && m != [] && Mergeable(Last(m), d) {
      JoinOrigin(Last(m), d, s);
    }
  }

  /** Merging keeps types and fields. */
  lemma {:induction false} MergeOrigins(s: seq<MemDesc>, skip: bool)
    requires skip
    ensures AllComeFrom(Merge(s, skip), s)
  {
    if s != [] {
      MergeOrigins(Init(s), skip);
      OriginsIn(Merge(Init(s), skip), Init(s), s);
      assert Last(s) in s && ComesFrom(Mapped(Last(s), skip), Last(s));
      AppendOrigins(Merge(Init(s), skip), Mapped(Last(s), skip), skip, s);
    }
  }

  predicate HidesServices(m: seq<MemDesc>) {
    forall i :: 0 <= i < |m| ==> m[i].kind !in {1, 2, 3, 4}
  }

  lemma AppendHidesServices(m: seq<MemDesc>, d: MemDesc, skip: bool)
    requires HidesServices(m) && d.kind !in {1, 2, 3, 4}
    ensures HidesServices(Append(m, d, skip))
  {
  }

  /** Merging leaves no loader or boot-services memory. */
  lemma {:induction false} MergeHidesServices(s: seq<MemDesc>, skip: bool)
    requires skip
    ensures HidesServices(Merge(s, skip))
  {
    if s != [] {
      MergeHidesServices(Init(s), skip);
      AppendHidesServices(Merge(Init(s), skip), Mapped(Last(s), skip), skip);
    }
  }

  /** No two conventional neighbours touch. */
  ghost predicate Separate(m: seq<MemDesc>) {
    forall i, j :: 0 <= i && j == i + 1 && j < |m| && m[i].kind == 7 && m[j].kind == 7 ==>
      m[i].physicalStart + 4096 * m[i].numPages != m[j].physicalStart
  }

  lemma MaximalIsSeparate(m: seq<MemDesc>)
    requires Maximal(m) && AllFit(m)
    ensures Separate(m)
  {
    forall i, j | 0 <= i && j == i + 1 && j < |m| && m[i].kind == 7 && m[j].kind == 7
      ensures m[i].physicalStart + 4096 * m[i].numPages != m[j].physicalStart
    {
      EndFits(m[i]);
      assert !Mergeable(m[i], m[i + 1]);
    }
  }

  /** With boot services skipped: the table has no loader or boot-services memory, its entries are the map's
      descriptors, conventional ones grown, and, for regions that end below 2^64, no two of those touch, and
      every address is covered as often as in the map, type by type. */
  lemma SkippedTable(s: seq<MemDesc>, map_: seq<MemDesc>, m: seq<MemDesc>, skip: bool, address: int, kind: int)
    requires IsSortOf(s, map_) && m == Merge(s, skip) && skip
    ensures AllComeFrom(m, map_) && HidesServices(m)
    ensures AllFit(map_) ==> Separate(m)
    ensures AllFit(map_) && kind !in {1, 2, 3, 4, 7} ==>
      Coverage(m, false, address, kind) == Coverage(map_, false, address, kind)
    ensures AllFit(map_) ==>
      Coverage(m, false, address, 7) ==
      Coverage(map_, false, address, 1) + Coverage(map_, false, address, 2) + Coverage(map_, false, address, 3) +
      Coverage(map_, false, address, 4) + Coverage(map_, false, address, 7)
  {
    MergeOrigins(s, skip);
    MergeHidesServices(s, skip);
    assert forall d :: d in s ==> d in multiset(map_);
    OriginsIn(m, s, map_);
    if AllFit(map_) {
      SortFits(s, map_);
      MergeConserves(s, skip, address, kind);
      MergeMaximal(s, skip);
      MaximalIsSeparate(m);
      TableConserves(s, map_, skip, address, kind);
      TableConserves(s, map_, skip, address, 7);
      SkippedKinds(map_, address, kind);
    }
  }

  /** `s` is the firmware's map in an order that the comparator, where it orders, makes ascending. */
  ghost predicate IsSortOf(s: seq<MemDesc>, map_: seq<MemDesc>) {
    multiset(s) == multiset(map_) && (Low(map_) ==> Sorted(s))
  }

  lemma SortFits(s: seq<MemDesc>, map_: seq<MemDesc>)
    requires multiset(s) == multiset(map_) && AllFit(map_)
    ensures AllFit(s)
  {
    forall k | 0 <= k < |s|
      ensures Fits(s[k])
    {
      assert s[k] in multiset(s);
      assert s[k] in map_;
    }
  }

  /** What the merge of a sorted map means for the map. */
  lemma TableConserves(s: seq<MemDesc>, map_: seq<MemDesc>, skip: bool, address: int, kind: int)
    requires IsSortOf(s, map_) && AllFit(map_)
    ensures Coverage(Merge(s, skip), false, address, kind) == Coverage(map_, skip, address, kind)
    ensures TotalPages(Merge(s, skip)) == TotalPages(map_)
  {
    SortFits(s, map_);
    MergeConserves(s, skip, address, kind);
    CoverageOfPermutation(s, map_, skip, address, kind);
  }

  /** `efi_build_mem_table`: the displayed table is the merge of a sorted form of the firmware's map. For
      regions that end below 2^64 it covers every address, for every type, as often as the map does (boot
      services counted as conventional when skipped), and has the same number of pages. For regions that
      start below 2^63 it is sorted. It always leaves nothing to merge. */
  method BuildMemTable(map_: seq<MemDesc>, skip: bool) returns (base: array<MemDesc>, n: nat, ghost s: seq<MemDesc>)
    ensures fresh(base) && n < base.Length && base[n].kind == EFI_TABLE_END
    ensures IsSortOf(s, map_) && base[..n] == Merge(s, skip)
    ensures AllFit(map_) ==>
      forall address, kind :: Coverage(base[..n], false, address, kind) == Coverage(map_, skip, address, kind)
    ensures AllFit(map_) ==> TotalPages(base[..n]) == TotalPages(map_)
    ensures Low(map_) ==> Sorted(base[..n])
    ensures skip ==> Maximal(base[..n]) && AllComeFrom(base[..n], map_) && HidesServices(base[..n])
    ensures !skip ==> multiset(base[..n]) == multiset(map_)
  {
    var count := |map_|;
    base := new MemDesc[count + 1](i => if 0 <= i < |map_| then map_[i] else MemDesc(0, 0, 0, 0, 0));
    assert base[..count] == map_;
    ghost var unsorted := base[..];
    Qsort(base, count);
    s := base[..count];
    assert multiset(s) == multiset(map_) by {
      assert base[..][..count] == s && unsorted[..count] == map_;
    }
    n := MergeInPlace(base, count, skip);
    MergeMaximal(s, skip);
    if Low(map_) {
      MergeSorted(s, skip);
    }
    if skip {
      SkippedTable(s, map_, base[..n], skip, 0, 0);
    } else {
      MergeAllIsIdentity(s, skip);
    }
    if AllFit(map_) {
      forall address, kind
        ensures Coverage(Merge(s, skip), false, address, kind) == Coverage(map_, skip, address, kind)
      {
        TableConserves(s, map_, skip, address, kind);
      }
      TableConserves(s, map_, skip, 0, 0);
    }
  }

  /** A conventional page at the top of the address space sorts before one at address 0 and takes it in: the
      end of the first wraps to 0, and the table no longer shows address 0. */
  lemma TopPageTakesInBottom()
    ensures var top, bottom := MemDesc(EFI_CONVENTIONAL_MEMORY, TWO_64 - PAGE_SIZE, 0, 1, 0),
                               MemDesc(EFI_CONVENTIONAL_MEMORY, 0, 0, 1, 0);
      && CmpEntry(top, bottom) < 0 && |Merge([top, bottom], true)| == 1
      && Coverage([top, bottom], true, 0, EFI_CONVENTIONAL_MEMORY) == 1
      && Coverage(Merge([top, bottom], true), false, 0, EFI_CONVENTIONAL_MEMORY) == 0
  {
    var top, bottom := MemDesc(EFI_CONVENTIONAL_MEMORY, TWO_64 - PAGE_SIZE, 0, 1, 0),
                       MemDesc(EFI_CONVENTIONAL_MEMORY, 0, 0, 1, 0);
    var s, j := [top, bottom], Join(top, bottom);
    assert Init(s) == [top] && Init([top]) == [] && Init([j]) == [];
    assert Merge([top], true) == [top];
    assert Merge(s, true) == Append([top], bottom, true) == [j];
    assert Coverage([top], true, 0, EFI_CONVENTIONAL_MEMORY) == 0;
    assert Coverage([j], false, 0, EFI_CONVENTIONAL_MEMORY) == 0;
  }
}
