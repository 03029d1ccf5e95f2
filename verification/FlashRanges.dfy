/** Flash sector ranges: rounding an address to the end of its sector, and translating an address range
    into the sectors to erase or protect in each bank. Addresses are 64-bit. */
module FlashRanges {
  import opened Machine

  const MAX_SECTORS: int := 0x8000

  /** `start[s]` is the first address of sector `s`. */
  datatype Bank = Bank(known: bool, start: seq<nat>, size: nat)

  datatype Rc = Ok | StartNotOnBoundary | EndNotOnBoundary | EndPrecedesStart | ReverseOrder | EraseFailed

  /** The tables a flash driver fills in: a known bank has sectors. */
  predicate HasSectors(b: Bank) {
    0 < |b.start| <= MAX_SECTORS && b.start[0] + b.size > 0 && forall s :: 0 < s < |b.start| ==> b.start[s] > 0
  }

  function BankEnd(b: Bank): int
    requires b.start != []
  {
    b.start[0] + b.size - 1
  }

  /** Last address of a sector. */
  function SectorEnd(b: Bank, s: nat): int
    requires s < |b.start|
  {
    var next: int := if s == |b.start| - 1 then BankEnd(b) + 1 else b.start[s + 1];
    next - 1
  }

  predicate HasAddress(b: Bank, s: nat, a: int)
    requires s < |b.start|
  {
    b.start[s] <= a <= SectorEnd(b, s)
  }

  /** The sector shares an address with [first, last]. */
  predicate Meets(b: Bank, s: nat, first: int, last: int)
    requires s < |b.start|
  {
    first <= SectorEnd(b, s) && b.start[s] <= last
  }

  /** Sectors follow one another without gaps and none is empty. */
  predicate Ascending(b: Bank) {
    HasSectors(b) && (forall i, j :: 0 <= i < j < |b.start| ==> b.start[i] < b.start[j]) &&
    b.start[|b.start| - 1] <= BankEnd(b) < TWO_64
  }

  /** All banks are known and each begins where the one before it ends. */
  predicate Contiguous(banks: seq<Bank>) {
    && banks != []
    && (forall k :: 0 <= k < |banks| ==> banks[k].known && Ascending(banks[k]))
    && (forall j, k :: 0 <= j < |banks| && 0 <= k < |banks| && k == j + 1 ==>
      banks[k].start[0] == BankEnd(banks[j]) + 1)
  }

  lemma {:induction false} BanksOrdered(banks: seq<Bank>, i: nat, j: nat)
    requires Contiguous(banks) && i < j < |banks|
    ensures BankEnd(banks[i]) < banks[j].start[0]
    decreases j
  {
    assert banks[j].start[0] == BankEnd(banks[j - 1]) + 1;
    if i < j - 1 {
      BanksOrdered(banks, i, j - 1);
      assert Ascending(banks[j - 1]);
    }
  }

  lemma SectorInBank(b: Bank, s: nat)
    requires Ascending(b) && s < |b.start|
    ensures b.start[0] <= b.start[s] <= SectorEnd(b, s) <= BankEnd(b)
  {
  }

  lemma SectorsOrdered(b: Bank, i: nat, j: nat)
    requires Ascending(b) && i < j < |b.start|
    ensures SectorEnd(b, i) < b.start[j]
  {
  }

  /** The inner loop: the sector that begins at `first` and the one that ends at `last`, among those that
      meet the range; -1 if there is none. */
  method ScanBank(b: Bank, first: nat, last: nat) returns (sf: int, sl: int)
    requires HasSectors(b)
    ensures -1 <= sf < |b.start| && -1 <= sl < |b.start|
    ensures sf >= 0 ==> b.start[sf] == first && Meets(b, sf, first, last)
    ensures sl >= 0 ==> SectorEnd(b, sl) == last && Meets(b, sl, first, last)
    ensures forall s :: sf < s < |b.start| && Meets(b, s, first, last) ==> b.start[s] != first
    ensures forall s :: sl < s < |b.start| && Meets(b, s, first, last) ==> SectorEnd(b, s) != last
  {
    sf, sl := -1, -1;
    var bEnd, sEnd := b.start[0] + b.size - 1, |b.start| - 1;
    for sect := 0 to |b.start|
      invariant -1 <= sf < sect && -1 <= sl < sect
      invariant sf >= 0 ==> b.start[sf] == first && Meets(b, sf, first, last)
      invariant sl >= 0 ==> SectorEnd(b, sl) == last && Meets(b, sl, first, last)
      invariant forall s :: sf < s < sect && Meets(b, s, first, last) ==> b.start[s] != first
      invariant forall s :: sl < s < sect && Meets(b, s, first, last) ==> SectorEnd(b, s) != last
    {
      var end := if sect == sEnd then bEnd else b.start[sect + 1] - 1;
      if first > end {
        continue;
      }
      if last < b.start[sect] {
        continue;
      }
      if first == b.start[sect] {
        sf := sect;
      }
      if last == end {
        sl := sect;
      }
    }
  }

  // ---------------------------------------------------------------- the chosen sectors

  predicate Chosen(sf: seq<int>, sl: seq<int>, k: nat, s: int)
    requires k < |sf| == |sl|
  {
    0 <= sf[k] <= s <= sl[k]
  }

  /** How many of the bank's first `n` sectors meet the range. */
  function CountInBank(b: Bank, first: int, last: int, n: nat): nat
    requires n <= |b.start|
  {
    if n == 0 then 0 else CountInBank(b, first, last, n - 1) + if Meets(b, n - 1, first, last) then 1 else 0
  }

  /** How many sectors of the first `n` banks meet the range. */
  function CountMeeting(banks: seq<Bank>, first: int, last: int, n: nat): nat
    requires n <= |banks|
  {
    if n == 0 then 0
    else CountMeeting(banks, first, last, n - 1) + CountInBank(banks[n - 1], first, last, |banks[n - 1].start|)
  }

  lemma {:induction false} CountRange(b: Bank, first: int, last: int, lo: nat, hi: int, n: nat)
    requires lo <= hi < |b.start| && n <= |b.start|
    requires forall s :: 0 <= s < |b.start| ==> (Meets(b, s, first, last) <==> lo <= s <= hi)
    ensures CountInBank(b, first, last, n) == if n <= lo then 0 else if n <= hi then n - lo else hi - lo + 1
  {
    if n > 0 {
      CountRange(b, first, last, lo, hi, n - 1);
    }
  }

  lemma {:induction false} CountNone(b: Bank, first: int, last: int, n: nat)
    requires n <= |b.start| && forall s :: 0 <= s < |b.start| ==> !Meets(b, s, first, last)
    ensures CountInBank(b, first, last, n) == 0
  {
    if n > 0 {
      CountNone(b, first, last, n - 1);
    }
  }

  /** Bank `k` is settled: exactly its sectors that meet the range are chosen. */
  predicate Settled(banks: seq<Bank>, sf: seq<int>, sl: seq<int>, first: int, last: int, k: nat)
    requires k < |banks| == |sf| == |sl|
  {
    && (forall s :: 0 <= s < |banks[k].start| ==> (Chosen(sf, sl, k, s) <==> Meets(banks[k], s, first, last)))
    && (sf[k] >= 0 ==> sf[k] <= sl[k] < |banks[k].start|)
  }

  /** Sector `s` of the bank begins at `first`. */
  predicate Begins(b: Bank, s: nat, first: int) {
    s < |b.start| && b.start[s] == first
  }

  /** Sector `s` of the bank ends at `last`. */
  predicate Ends(b: Bank, s: nat, last: int) {
    s < |b.start| && SectorEnd(b, s) == last
  }

  /** What a successful translation with a non-empty result means for the first `n` banks. */
  ghost predicate Exact(banks: seq<Bank>, sf: seq<int>, sl: seq<int>, first: int, last: int, count: int, n: nat)
    requires n <= |banks| == |sf| == |sl|
  {
    && (forall k :: 0 <= k < n ==> Settled(banks, sf, sl, first, last, k))
    && (exists k, s :: 0 <= k < n && Begins(banks[k], s, first))
    && count == CountMeeting(banks, first, last, n)
  }

  /** The range ends with a sector of this bank. */
  ghost predicate EndsIn(b: Bank, last: int) {
    exists s :: Ends(b, s, last)
  }

  /** The range begins with a sector of bank `n` or a later one. */
  ghost predicate StartsFrom(banks: seq<Bank>, first: int, n: nat) {
    exists k, s :: n <= k < |banks| && Begins(banks[k], s, first)
  }

  /** The range ends with a sector, or beyond the flash. */
  ghost predicate EndsWell(banks: seq<Bank>, last: int)
    requires Contiguous(banks)
  {
    banks != [] && (last > BankEnd(banks[|banks| - 1]) || exists k :: 0 <= k < |banks| && EndsIn(banks[k], last))
  }

  /** `first` begins a sector, and `last` ends one or lies beyond the flash. */
  ghost predicate OnBoundaries(banks: seq<Bank>, first: int, last: int)
    requires Contiguous(banks)
  {
    StartsFrom(banks, first, 0) && EndsWell(banks, last)
  }

  /** State of the bank loop on contiguous banks, before bank `n`: nothing has been chosen yet, or what has
      been chosen is exact and the range either continues in bank `n` or is finished. */
  ghost predicate Filling(banks: seq<Bank>, sf: seq<int>, sl: seq<int>, first: int, last: int, count: int, f: int,
      n: nat)
    requires n <= |banks| == |sf| == |sl| && Contiguous(banks)
  {
    && (forall k :: n <= k < |banks| ==> sf[k] == -1 && sl[k] == -1)
    && (count == 0 ==> f == first && forall k :: 0 <= k < n ==> sf[k] == -1)
    && (count != 0 ==>
         && n > 0 && Exact(banks, sf, sl, first, last, count, n)
         && ((last > BankEnd(banks[n - 1]) && f == BankEnd(banks[n - 1]) + 1) ||
             (EndsIn(banks[n - 1], last) && (f > last || n == |banks|))))
  }

  /** A bank whose scan found the beginning: the chosen sectors are those that meet the whole range. */
  lemma BankSettled(b: Bank, first: int, f: int, last: int, sf: nat, sl: nat)
    requires Ascending(b) && first <= f && sf < |b.start| && sl < |b.start|
    requires b.start[sf] == f && (first == f || (sf == 0 && first <= b.start[0])) && f <= last
    requires SectorEnd(b, sl) == last || (sl == |b.start| - 1 && last > BankEnd(b))
    ensures sf <= sl
    ensures forall s :: 0 <= s < |b.start| ==> (Meets(b, s, first, last) <==> sf <= s <= sl)
    ensures CountInBank(b, first, last, |b.start|) == sl - sf + 1
  {
    forall s | 0 <= s < |b.start|
      ensures Meets(b, s, first, last) <==> sf <= s <= sl
    {
      SectorInBank(b, s);
      if s < sf {
        SectorsOrdered(b, s, sf);
      }
      if sl < s {
        SectorsOrdered(b, sl, s);
      }
      if s < sl {
        SectorsOrdered(b, s, sl);
      }
    }
    if sl < sf {
      SectorsOrdered(b, sl, sf);
    }
    CountRange(b, first, last, sf, sl, |b.start|);
  }

  /** Banks before the one where the range begins have nothing in it. */
  lemma {:induction false} NothingBefore(banks: seq<Bank>, first: int, last: int, k: nat, n: nat)
    requires Contiguous(banks) && n <= k < |banks| && banks[k].start[0] <= first
    ensures CountMeeting(banks, first, last, n) == 0
    ensures forall j, s :: 0 <= j < n && 0 <= s < |banks[j].start| ==> !Meets(banks[j], s, first, last)
  {
    if n > 0 {
      NothingBefore(banks, first, last, k, n - 1);
      BanksOrdered(banks, n - 1, k);
      var b := banks[n - 1];
      forall s | 0 <= s < |b.start|
        ensures !Meets(b, s, first, last)
      {
        SectorInBank(b, s);
      }
      CountNone(b, first, last, |b.start|);
    }
  }

  /** Where bank `n` goes on with the range, it is at its first sector and after the range's beginning. */
  lemma Continues(banks: seq<Bank>, first: int, f: int, n: nat, a: nat)
    requires 0 < n < |banks| && Contiguous(banks) && f == BankEnd(banks[n - 1]) + 1
    requires a < |banks[n].start| && banks[n].start[a] == f
    requires exists k, s :: 0 <= k < n && Begins(banks[k], s, first)
    ensures a == 0 && first <= f
  {
    assert banks[n].start[0] == BankEnd(banks[n - 1]) + 1;
    assert Ascending(banks[n]);
    var k, s :| 0 <= k < n && Begins(banks[k], s, first);
    SectorInBank(banks[k], s);
    BanksOrdered(banks, k, n);
  }

  lemma ExactGrows(banks: seq<Bank>, sf: seq<int>, sl: seq<int>, first: int, last: int, count: int, total: int, n: nat)
    requires 0 < n <= |banks| == |sf| == |sl| && Exact(banks, sf, sl, first, last, count, n - 1)
    requires Settled(banks, sf, sl, first, last, n - 1)
    requires total == count + CountInBank(banks[n - 1], first, last, |banks[n - 1].start|)
    ensures Exact(banks, sf, sl, first, last, total, n)
  {
    var k, s :| 0 <= k < n - 1 && Begins(banks[k], s, first);
    assert 0 <= k < n && Begins(banks[k], s, first);
  }

  /** Choices made in other banks do not matter. */
  lemma ExactElsewhere(banks: seq<Bank>, sf: seq<int>, sl: seq<int>, first: int, last: int, count: int, n: nat,
      a: int, z: int)
    requires n < |banks| == |sf| == |sl| && Exact(banks, sf, sl, first, last, count, n)
    ensures Exact(banks, sf[n := a], sl[n := z], first, last, count, n)
  {
    var sf', sl' := sf[n := a], sl[n := z];
    forall k | 0 <= k < n
      ensures Settled(banks, sf', sl', first, last, k)
    {
      assert Settled(banks, sf, sl, first, last, k);
    }
  }

  /** The bank in which the range begins. */
  lemma ExactFirst(banks: seq<Bank>, sf: seq<int>, sl: seq<int>, first: int, last: int, n: nat, a: nat, z: nat)
    requires n < |banks| == |sf| == |sl| && Contiguous(banks) && first <= last
    requires forall k :: 0 <= k < n ==> sf[k] == -1
    requires a < |banks[n].start| && z < |banks[n].start| && banks[n].start[a] == first
    requires SectorEnd(banks[n], z) == last || (z == |banks[n].start| - 1 && last > BankEnd(banks[n]))
    ensures a <= z && Exact(banks, sf[n := a], sl[n := z], first, last, z - a + 1, n + 1)
  {
    var b, sf', sl' := banks[n], sf[n := a], sl[n := z];
    assert Ascending(b);
    SectorInBank(b, a);
    NothingBefore(banks, first, last, n, n);
    BankSettled(b, first, first, last, a, z);
    assert Begins(banks[n], a, first);
    forall k | 0 <= k < n + 1
      ensures Settled(banks, sf', sl', first, last, k)
    {
    }
  }

  lemma ChoiceSettles(banks: seq<Bank>, sf: seq<int>, sl: seq<int>, first: int, f: int, last: int, n: nat, a: nat,
      z: nat)
    requires n < |banks| == |sf| == |sl| && Ascending(banks[n]) && first <= f <= last
    requires a < |banks[n].start| && z < |banks[n].start| && banks[n].start[a] == f
    requires first == f || (a == 0 && first <= banks[n].start[0])
    requires SectorEnd(banks[n], z) == last || (z == |banks[n].start| - 1 && last > BankEnd(banks[n]))
    ensures a <= z && CountInBank(banks[n], first, last, |banks[n].start|) == z - a + 1
    ensures Settled(banks, sf[n := a], sl[n := z], first, last, n)
  {
    BankSettled(banks[n], first, f, last, a, z);
  }

  lemma ExactAppend(banks: seq<Bank>, sf: seq<int>, sl: seq<int>, first: int, last: int, count: int, n: nat, a: nat,
      z: nat)
    requires n < |banks| == |sf| == |sl| && a <= z && Exact(banks, sf, sl, first, last, count, n)
    requires Settled(banks, sf[n := a], sl[n := z], first, last, n)
    requires CountInBank(banks[n], first, last, |banks[n].start|) == z - a + 1
    ensures Exact(banks, sf[n := a], sl[n := z], first, last, count + (z - a + 1), n + 1)
  {
    ExactElsewhere(banks, sf, sl, first, last, count, n, a, z);
    ExactGrows(banks, sf[n := a], sl[n := z], first, last, count, count + (z - a + 1), n + 1);
  }

  /** A bank in which the range continues. */
  lemma ExactContinued(banks: seq<Bank>, sf: seq<int>, sl: seq<int>, first: int, last: int, count: int, f: int,
      n: nat, a: nat, z: nat)
    requires 0 < n < |banks| == |sf| == |sl| && Contiguous(banks) && f <= last
    requires Exact(banks, sf, sl, first, last, count, n) && f == BankEnd(banks[n - 1]) + 1
    requires a < |banks[n].start| && z < |banks[n].start| && banks[n].start[a] == f
    requires SectorEnd(banks[n], z) == last || (z == |banks[n].start| - 1 && last > BankEnd(banks[n]))
    ensures a <= z && Exact(banks, sf[n := a], sl[n := z], first, last, count + (z - a + 1), n + 1)
  {
    Continues(banks, first, f, n, a);
    ChoiceSettles(banks, sf, sl, first, f, last, n, a, z);
    ExactAppend(banks, sf, sl, first, last, count, n, a, z);
  }

  lemma ExactNext(banks: seq<Bank>, sf: seq<int>, sl: seq<int>, first: int, last: int, count: int, f: int, n: nat,
      a: nat, z: nat)
    requires n < |banks| == |sf| == |sl| && Contiguous(banks) && f <= last
    requires count == 0 ==> f == first && forall k :: 0 <= k < n ==> sf[k] == -1
    requires count != 0 ==> n > 0 && Exact(banks, sf, sl, first, last, count, n) && f == BankEnd(banks[n - 1]) + 1
    requires a < |banks[n].start| && z < |banks[n].start| && banks[n].start[a] == f
    requires SectorEnd(banks[n], z) == last || (z == |banks[n].start| - 1 && last > BankEnd(banks[n]))
    ensures a <= z && Exact(banks, sf[n := a], sl[n := z], first, last, count + (z - a + 1), n + 1)
  {
    if count == 0 {
      ExactFirst(banks, sf, sl, first, last, n, a, z);
    } else {
      ExactContinued(banks, sf, sl, first, last, count, f, n, a, z);
    }
  }

  /** First address after sector `z`, in 64-bit arithmetic. */
  function NextAddress(b: Bank, z: nat): int
    requires z < |b.start|
  {
    (if z == |b.start| - 1 then BankEnd(b) + 1 else b.start[z + 1]) % TWO_64
  }

  lemma NextAddressIs(banks: seq<Bank>, last: int, n: nat, z: nat)
    requires n < |banks| && Contiguous(banks) && last < TWO_64 && z < |banks[n].start|
    requires SectorEnd(banks[n], z) == last || (z == |banks[n].start| - 1 && last > BankEnd(banks[n]))
    ensures last > BankEnd(banks[n]) ==> NextAddress(banks[n], z) == BankEnd(banks[n]) + 1
    ensures last <= BankEnd(banks[n]) ==>
      EndsIn(banks[n], last) && (NextAddress(banks[n], z) > last || n + 1 == |banks|)
  {
    var b := banks[n];
    assert Ascending(b);
    SectorInBank(b, z);
    if last <= BankEnd(b) {
      assert Ends(b, z, last);
      if n + 1 < |banks| {
        assert banks[n + 1].start[0] == BankEnd(banks[n + 1 - 1]) + 1;
        assert Ascending(banks[n + 1]);
        SectorInBank(banks[n + 1], 0);
      }
    }
  }

  /** The bank that completes or continues the range keeps the loop state. */
  lemma FillingNext(banks: seq<Bank>, sf: seq<int>, sl: seq<int>, first: int, last: int, count: int, f: int, n: nat,
      a: nat, z: nat)
    requires n < |banks| == |sf| == |sl| && Contiguous(banks) && count >= 0 && last < TWO_64 && f <= last
    requires Filling(banks, sf, sl, first, last, count, f, n)
    requires a < |banks[n].start| && z < |banks[n].start| && banks[n].start[a] == f
    requires SectorEnd(banks[n], z) == last || (z == |banks[n].start| - 1 && last > BankEnd(banks[n]))
    ensures a <= z
    ensures Filling(banks, sf[n := a], sl[n := z], first, last, count + (z - a + 1), NextAddress(banks[n], z), n + 1)
  {
    ExactNext(banks, sf, sl, first, last, count, f, n, a, z);
    NextAddressIs(banks, last, n, z);
  }

  /** The state after the loop: when something has been chosen, all of it is right. */
  lemma Filled(banks: seq<Bank>, sf: seq<int>, sl: seq<int>, first: int, last: int, count: int, f: int, n: nat)
    requires n <= |banks| == |sf| == |sl| && Contiguous(banks) && count > 0
    requires Filling(banks, sf, sl, first, last, count, f, n) && (n == |banks| || f > last)
    ensures Exact(banks, sf, sl, first, last, count, |banks|)
    ensures last > BankEnd(banks[|banks| - 1]) || exists k :: 0 <= k < |banks| && EndsIn(banks[k], last)
  {
    if n < |banks| {
      assert EndsIn(banks[n - 1], last);
      var s :| Ends(banks[n - 1], s, last);
      SectorInBank(banks[n - 1], s);
      NothingAfter(banks, sf, sl, first, last, count, n, |banks|);
    }
  }

  lemma NothingIn(banks: seq<Bank>, sf: seq<int>, sl: seq<int>, first: int, last: int, n: nat, m: nat)
    requires n < m < |banks| == |sf| == |sl| && Contiguous(banks) && last <= BankEnd(banks[n]) && sf[m] == -1
    ensures Settled(banks, sf, sl, first, last, m) && CountInBank(banks[m], first, last, |banks[m].start|) == 0
  {
    BanksOrdered(banks, n, m);
    var b := banks[m];
    forall s | 0 <= s < |b.start|
      ensures !Meets(b, s, first, last)
    {
      SectorInBank(b, s);
    }
    CountNone(b, first, last, |b.start|);
  }

  lemma {:induction false} NothingAfter(banks: seq<Bank>, sf: seq<int>, sl: seq<int>, first: int, last: int, count: int,
      n: nat, m: nat)
    requires 0 < n <= m <= |banks| == |sf| == |sl| && Contiguous(banks)
    requires Exact(banks, sf, sl, first, last, count, n) && last <= BankEnd(banks[n - 1])
    requires forall k :: n <= k < |banks| ==> sf[k] == -1 && sl[k] == -1
    ensures Exact(banks, sf, sl, first, last, count, m)
    decreases m
  {
    if n == m {
      assert Exact(banks, sf, sl, first, last, count, m);
    } else {
      NothingAfter(banks, sf, sl, first, last, count, n, m - 1);
      NothingIn(banks, sf, sl, first, last, n - 1, m - 1);
      ExactGrows(banks, sf, sl, first, last, count, count, m);
    }
  }

  /** A bank in which nothing begins leaves the loop state as it was. */
  lemma FillingSkip(banks: seq<Bank>, sf: seq<int>, sl: seq<int>, first: int, last: int, count: int, f: int, n: nat)
    requires n < |banks| == |sf| == |sl| && Contiguous(banks) && f <= last
    requires Filling(banks, sf, sl, first, last, count, f, n) && f != banks[n].start[0]
    ensures Filling(banks, sf, sl, first, last, count, f, n + 1)
  {
    assert n > 0 ==> banks[n].start[0] == BankEnd(banks[n - 1]) + 1;
  }

  /** An address inside a bank that ends a sector ends one of that bank. */
  lemma EndsHere(banks: seq<Bank>, n: nat, k: nat, last: int)
    requires Contiguous(banks) && n < |banks| && k < |banks|
    requires banks[n].start[0] <= last <= BankEnd(banks[n]) && EndsIn(banks[k], last)
    ensures EndsIn(banks[n], last)
  {
    var s :| Ends(banks[k], s, last);
    SectorInBank(banks[k], s);
    if k < n {
      BanksOrdered(banks, k, n);
    } else if n < k {
      BanksOrdered(banks, n, k);
    }
  }

  /** The address lies in the bank, before its last address. */
  predicate InBank(b: Bank, a: int) {
    b.start != [] && b.start[0] <= a < BankEnd(b)
  }

  /** A bank that the loop goes past before the range has begun. */
  ghost predicate Unstarted(b: Bank, first: int, last: int) {
    !InBank(b, first) && !EndsIn(b, last)
  }

  /** Only the start is wrong, and it lies in a bank. */
  ghost predicate StartsInside(banks: seq<Bank>, first: int) {
    !StartsFrom(banks, first, 0) && exists k :: 0 <= k < |banks| && InBank(banks[k], first)
  }

  /** The range ends with a sector, and begins before all banks or with the last address of one. */
  ghost predicate OnlyEnds(banks: seq<Bank>, first: int, last: int) {
    && !StartsFrom(banks, first, 0) && (forall k :: 0 <= k < |banks| ==> !InBank(banks[k], first))
    && exists k :: 0 <= k < |banks| && EndsIn(banks[k], last)
  }

  /** Where the start-boundary and reverse-order errors are reported for bank `n`, they are right. */
  lemma StartErrors(banks: seq<Bank>, first: int, last: int, n: nat, rc: Rc)
    requires Contiguous(banks) && n < |banks| && !StartsFrom(banks, first, 0)
    requires forall k :: 0 <= k < n ==> Unstarted(banks[k], first, last)
    requires rc == StartNotOnBoundary ==> InBank(banks[n], first)
    requires rc == ReverseOrder ==> !InBank(banks[n], first) && EndsIn(banks[n], last) && first <= BankEnd(banks[n])
    ensures rc == StartNotOnBoundary ==> StartsInside(banks, first)
    ensures rc == ReverseOrder ==> OnlyEnds(banks, first, last)
  {
    if rc == ReverseOrder {
      forall k | 0 <= k < |banks|
        ensures !InBank(banks[k], first)
      {
        if n < k {
          BanksOrdered(banks, n, k);
        }
      }
    }
  }

  /** A sector that ends at the end of a range meets it. */
  lemma NoEnd(b: Bank, f: int, last: int)
    requires Ascending(b) && f <= last
    requires forall s :: 0 <= s < |b.start| && Meets(b, s, f, last) ==> SectorEnd(b, s) != last
    ensures !EndsIn(b, last)
  {
    forall s: nat
      ensures !Ends(b, s, last)
    {
    }
  }

  /** One turn of the bank loop. */
  method FillBank(b: Bank, f: nat, last: nat) returns (rc: Rc, sf: int, sl: int, next: int)
    requires HasSectors(b) && f <= last
    ensures rc == Ok && sf >= 0 ==>
      && sf <= sl < |b.start| && b.start[sf] == f && next == NextAddress(b, sl)
      && (SectorEnd(b, sl) == last || (sl == |b.start| - 1 && last > BankEnd(b)))
    ensures rc == Ok && sf < 0 ==> sf == -1 && sl == -1 && next == f
    ensures rc == Ok && Ascending(b) && f == b.start[0] ==> sf >= 0
    ensures rc == EndNotOnBoundary && Ascending(b) ==>
      sf >= 0 && Begins(b, sf, f) && last <= BankEnd(b) && !EndsIn(b, last)
    ensures rc == EndPrecedesStart ==> !Ascending(b)
    ensures rc == StartNotOnBoundary || rc == ReverseOrder ==> Ascending(b) ==> f <= BankEnd(b)
    ensures Ascending(b) && (exists s :: Begins(b, s, f)) ==> sf >= 0
    ensures rc == StartNotOnBoundary || rc == ReverseOrder ==> sf < 0
    ensures rc == StartNotOnBoundary ==> InBank(b, f)
    ensures rc == ReverseOrder ==> !InBank(b, f) && EndsIn(b, last)
    ensures rc == Ok && sf < 0 && Ascending(b) ==> Unstarted(b, f, last)
    ensures rc != EraseFailed
  {
    sf, sl := ScanBank(b, f, last);
    rc, next := Ok, f;
    if Ascending(b) && exists s :: Begins(b, s, f) {
      var s :| Begins(b, s, f);
      SectorInBank(b, s);
      assert Meets(b, s, f, last);
    }
    var bEnd, sEnd := b.start[0] + b.size - 1, |b.start| - 1;
    if sf >= 0 {
      if sl < 0 {
        if last > bEnd {
          sl := sEnd;
        } else {
          rc := EndNotOnBoundary;
          if Ascending(b) {
            NoEnd(b, f, last);
          }
          return;
        }
      }
      if sl < sf {
        if Ascending(b) {
          SectorsOrdered(b, sl, sf);
        }
        rc := EndPrecedesStart;
        return;
      }
      next := (if sl == sEnd then bEnd + 1 else b.start[sl + 1]) % TWO_64;
    } else if f >= b.start[0] && f < bEnd {
      rc := StartNotOnBoundary;
    } else if sl >= 0 {
      rc := ReverseOrder;
      assert Ends(b, sl, last);
      if Ascending(b) {
        SectorInBank(b, sl);
      }
    } else if Ascending(b) {
      SectorInBank(b, 0);
      NoEnd(b, f, last);
    }
  }

  /** As long as the range has a beginning ahead or continues, a bank that reaches up to the loop's address
      has a sector that begins there. */
  lemma StartsHere(banks: seq<Bank>, sf: seq<int>, sl: seq<int>, first: int, last: int, count: int, f: int, n: nat)
    requires n < |banks| == |sf| == |sl| && Contiguous(banks) && f <= last && f <= BankEnd(banks[n])
    requires Filling(banks, sf, sl, first, last, count, f, n) && (count == 0 ==> StartsFrom(banks, first, n))
    ensures exists s :: Begins(banks[n], s, f)
  {
    if count == 0 {
      var k, s :| n <= k < |banks| && Begins(banks[k], s, first);
      SectorInBank(banks[k], s);
      if n < k {
        BanksOrdered(banks, n, k);
      }
    } else {
      assert banks[n].start[0] == BankEnd(banks[n - 1]) + 1;
      assert Begins(banks[n], 0, f);
    }
  }

  /** A range whose end lies in bank `n` but on no boundary does not end well. */
  lemma EndsBadly(banks: seq<Bank>, last: int, n: nat)
    requires Contiguous(banks) && n < |banks| && banks[n].start[0] <= last <= BankEnd(banks[n]) &&
      !EndsIn(banks[n], last)
    ensures !EndsWell(banks, last)
  {
    SectorInBank(banks[n], 0);
    InsideFlash(banks, n, |banks[n].start| - 1);
    if exists k :: 0 <= k < |banks| && EndsIn(banks[k], last) {
      var k :| 0 <= k < |banks| && EndsIn(banks[k], last);
      EndsHere(banks, n, k, last);
    }
  }

  lemma StartsLater(banks: seq<Bank>, first: int, n: nat)
    requires n < |banks| && StartsFrom(banks, first, n) && forall s :: !Begins(banks[n], s, first)
    ensures StartsFrom(banks, first, n + 1)
  {
    var k, s :| n <= k < |banks| && Begins(banks[k], s, first);
    assert k != n;
  }

  /** What the outcome of bank `n` means for the whole range. */
  lemma BankOutcome(banks: seq<Bank>, sf: seq<int>, sl: seq<int>, first: int, last: int, c: int, f: int, n: nat,
      rc: Rc, a: int)
    requires n < |banks| == |sf| == |sl| && Contiguous(banks) && f <= last
    requires Filling(banks, sf, sl, first, last, c, f, n)
    requires rc == EndNotOnBoundary ==>
      a >= 0 && Begins(banks[n], a, f) && last <= BankEnd(banks[n]) && !EndsIn(banks[n], last)
    requires rc == StartNotOnBoundary || rc == ReverseOrder ==> a < 0 && f <= BankEnd(banks[n])
    requires rc != EndPrecedesStart && rc != EraseFailed && ((exists s :: Begins(banks[n], s, f)) ==> a >= 0)
    ensures rc == EndNotOnBoundary ==> StartsFrom(banks, first, 0) && !EndsWell(banks, last)
    ensures (c == 0 ==> StartsFrom(banks, first, n)) ==> rc == Ok || rc == EndNotOnBoundary
    ensures c == 0 && a < 0 && StartsFrom(banks, first, n) ==> StartsFrom(banks, first, n + 1)
  {
    if rc == EndNotOnBoundary {
      SectorInBank(banks[n], a);
      EndsBadly(banks, last, n);
      assert c == 0 ==> StartsFrom(banks, first, n);
    }
    if f <= BankEnd(banks[n]) && (c == 0 ==> StartsFrom(banks, first, n)) {
      StartsHere(banks, sf, sl, first, last, c, f, n);
    }
    if c == 0 && a < 0 && StartsFrom(banks, first, n) {
      StartsLater(banks, first, n);
    }
  }

  // ---------------------------------------------------------------- banks that are not there

  /** The known ones of the first `n` banks. */
  function Known(banks: seq<Bank>, n: nat): (kb: seq<Bank>)
    requires n <= |banks|
    ensures |kb| <= n
  {
    if n == 0 then [] else Known(banks, n - 1) + if banks[n - 1].known then [banks[n - 1]] else []
  }

  /** The entries of a table for the known ones of the first `n` banks. */
  function Pick(banks: seq<Bank>, xs: seq<int>, n: nat): (r: seq<int>)
    requires n <= |banks| == |xs|
    ensures |r| == |Known(banks, n)|
  {
    if n == 0 then [] else Pick(banks, xs, n - 1) + if banks[n - 1].known then [xs[n - 1]] else []
  }

  lemma {:induction false} KnownAt(banks: seq<Bank>, k: nat, n: nat)
    requires k < n <= |banks| && banks[k].known
    ensures |Known(banks, k)| < |Known(banks, n)| && Known(banks, n)[|Known(banks, k)|] == banks[k]
  {
    if k < n - 1 {
      KnownAt(banks, k, n - 1);
    }
  }

  lemma {:induction false} PickSame(banks: seq<Bank>, xs: seq<int>, ys: seq<int>, n: nat)
    requires n <= |banks| == |xs| == |ys| && xs[..n] == ys[..n]
    ensures Pick(banks, xs, n) == Pick(banks, ys, n)
  {
    if n > 0 {
      assert xs[..n - 1] == xs[..n][..n - 1] && ys[..n - 1] == ys[..n][..n - 1];
      assert xs[n - 1] == xs[..n][n - 1] && ys[n - 1] == ys[..n][n - 1];
      PickSame(banks, xs, ys, n - 1);
    }
  }

  lemma {:induction false} PickUpdate(banks: seq<Bank>, xs: seq<int>, k: nat, v: int, n: nat)
    requires k < n <= |banks| == |xs| && banks[k].known
    ensures |Known(banks, k)| < |Known(banks, n)|
    ensures Pick(banks, xs[k := v], n) == Pick(banks, xs, n)[|Known(banks, k)| := v]
  {
    KnownAt(banks, k, n);
    if k < n - 1 {
      KnownAt(banks, k, n - 1);
      PickUpdate(banks, xs, k, v, n - 1);
    } else {
      PickSame(banks, xs, xs[k := v], k);
    }
  }

  lemma {:induction false} PickNone(banks: seq<Bank>, xs: seq<int>, n: nat)
    requires n <= |banks| == |xs| && forall k :: 0 <= k < n ==> xs[k] == -1
    ensures forall k :: 0 <= k < |Pick(banks, xs, n)| ==> Pick(banks, xs, n)[k] == -1
  {
    if n > 0 {
      PickNone(banks, xs, n - 1);
    }
  }

  lemma {:induction false} PickAt(banks: seq<Bank>, xs: seq<int>, k: nat, n: nat)
    requires k < n <= |banks| == |xs| && banks[k].known
    ensures |Known(banks, k)| < |Known(banks, n)| && Pick(banks, xs, n)[|Known(banks, k)|] == xs[k]
  {
    if k < n - 1 {
      PickAt(banks, xs, k, n - 1);
    }
  }

  lemma {:induction false} KnownAll(banks: seq<Bank>, n: nat)
    requires n <= |banks| && forall k :: 0 <= k < |banks| ==> banks[k].known
    ensures Known(banks, n) == banks[..n]
  {
    if n > 0 {
      KnownAll(banks, n - 1);
    }
  }

  /** The banks that are there. */
  function Present(banks: seq<Bank>): seq<Bank> {
    Known(banks, |banks|)
  }

  function ForPresent(banks: seq<Bank>, xs: seq<int>): (r: seq<int>)
    requires |banks| == |xs|
    ensures |r| == |Present(banks)|
  {
    Pick(banks, xs, |banks|)
  }

  /** One turn of the bank loop for bank `n` of `kb`, the banks that are there; `sf` and `sl` are what has been
      chosen in them. */
  method ChooseBank(b: Bank, f: nat, last: nat, c: int, ghost kb: seq<Bank>, ghost sf: seq<int>, ghost sl: seq<int>,
      ghost first: nat, ghost n: nat) returns (rc: Rc, a: int, z: int, next: int, count: int)
    requires n < |kb| == |sf| == |sl| && kb[n] == b && HasSectors(b) && f <= last < TWO_64 && c >= 0
    requires Contiguous(kb) ==> Filling(kb, sf, sl, first, last, c, f, n)
    requires Contiguous(kb) && c == 0 ==>
      (StartsFrom(kb, first, 0) ==> StartsFrom(kb, first, n)) &&
      forall k :: 0 <= k < n ==> Unstarted(kb[k], first, last)
    ensures rc == Ok ==> next >= 0 && count >= 0
    ensures rc == Ok && Contiguous(kb) && count == 0 ==> forall k :: 0 <= k < n + 1 ==> Unstarted(kb[k], first, last)
    ensures Contiguous(kb) && rc == StartNotOnBoundary ==> StartsInside(kb, first)
    ensures Contiguous(kb) && rc == ReverseOrder ==> OnlyEnds(kb, first, last)
    ensures rc == Ok && Contiguous(kb) ==> Filling(kb, sf[n := a], sl[n := z], first, last, count, next, n + 1)
    ensures Contiguous(kb) && rc == EndNotOnBoundary ==> StartsFrom(kb, first, 0) && !EndsWell(kb, last)
    ensures Contiguous(kb) && (c == 0 ==> StartsFrom(kb, first, n)) ==>
      (rc == Ok || rc == EndNotOnBoundary) && (rc == Ok && count == 0 ==> StartsFrom(kb, first, n + 1))
    ensures Contiguous(kb) ==> rc != EndPrecedesStart
    ensures rc != EraseFailed
  {
    rc, a, z, next := FillBank(b, f, last);
    count := c;
    if Contiguous(kb) {
      BankOutcome(kb, sf, sl, first, last, c, f, n, rc, a);
      if rc == StartNotOnBoundary || rc == ReverseOrder {
        StartErrors(kb, first, last, n, rc);
      }
    }
    if rc != Ok {
      return;
    }
    if a >= 0 {
      count := count + z - a + 1;
      if Contiguous(kb) {
        FillingNext(kb, sf, sl, first, last, c, f, n, a, z);
      }
    } else if Contiguous(kb) {
      assert sf[n := -1] == sf && sl[n := -1] == sl;
      FillingSkip(kb, sf, sl, first, last, c, f, n);
    }
  }

  /** Nothing is chosen in a bank that is not there. */
  predicate AbsentUnchosen(banks: seq<Bank>, sf: seq<int>, sl: seq<int>) {
    |sf| == |sl| == |banks| && forall k :: 0 <= k < |banks| && !banks[k].known ==> sf[k] == -1 && sl[k] == -1
  }

  /** One turn of the bank loop, storing its choice. */
  method StoreBank(banks: seq<Bank>, bank: nat, f: nat, last: nat, sFirst: array<int>, sLast: array<int>, c: int,
      ghost first: nat, ghost kb: seq<Bank>, ghost n: nat) returns (rc: Rc, next: int, count: int)
    requires bank < |banks| && banks[bank].known && HasSectors(banks[bank]) && f <= last < TWO_64 && c >= 0
    requires sFirst.Length == sLast.Length == |banks| && sFirst != sLast
    requires kb == Present(banks) && n == |Known(banks, bank)| && AbsentUnchosen(banks, sFirst[..], sLast[..])
    requires Contiguous(kb) ==>
      n <= |kb| && Filling(kb, ForPresent(banks, sFirst[..]), ForPresent(banks, sLast[..]), first, last, c, f, n)
    requires Contiguous(kb) && c == 0 ==>
      (StartsFrom(kb, first, 0) ==> StartsFrom(kb, first, n)) &&
      forall k :: 0 <= k < n ==> Unstarted(kb[k], first, last)
    modifies sFirst, sLast
    ensures rc == Ok ==> next >= 0 && count >= 0
    ensures rc == Ok && Contiguous(kb) && count == 0 ==>
      n < |kb| && forall k :: 0 <= k < n + 1 ==> Unstarted(kb[k], first, last)
    ensures Contiguous(kb) && rc == StartNotOnBoundary ==> StartsInside(kb, first)
    ensures Contiguous(kb) && rc == ReverseOrder ==> OnlyEnds(kb, first, last)
    ensures AbsentUnchosen(banks, sFirst[..], sLast[..])
    ensures rc == Ok && Contiguous(kb) ==>
      n + 1 <= |kb| &&
      Filling(kb, ForPresent(banks, sFirst[..]), ForPresent(banks, sLast[..]), first, last, count, next, n + 1)
    ensures Contiguous(kb) && rc == EndNotOnBoundary ==> StartsFrom(kb, first, 0) && !EndsWell(kb, last)
    ensures Contiguous(kb) && (c == 0 ==> StartsFrom(kb, first, n)) ==>
      (rc == Ok || rc == EndNotOnBoundary) && (rc == Ok && count == 0 ==> StartsFrom(kb, first, n + 1))
    ensures Contiguous(kb) ==> rc != EndPrecedesStart
    ensures rc != EraseFailed
  {
    ghost var sf, sl := sFirst[..], sLast[..];
    KnownAt(banks, bank, |banks|);
    var a, z;
    rc, a, z, next, count :=
      ChooseBank(banks[bank], f, last, c, kb, ForPresent(banks, sf), ForPresent(banks, sl), first, n);
    sFirst[bank], sLast[bank] := a, z;
    assert sFirst[..] == sf[bank := a] && sLast[..] == sl[bank := z];
    PickUpdate(banks, sf, bank, a, |banks|);
    PickUpdate(banks, sl, bank, z, |banks|);
  }

  /** State of the bank loop before bank `bank`. */
  ghost predicate Walking(banks: seq<Bank>, sf: seq<int>, sl: seq<int>, first: int, last: int, count: int, f: int,
      bank: nat)
    requires bank <= |banks|
  {
    var kb, n := Present(banks), |Known(banks, bank)|;
    && count >= 0 && f >= 0 && n <= |kb| && AbsentUnchosen(banks, sf, sl)
    && (Contiguous(kb) ==>
          && Filling(kb, ForPresent(banks, sf), ForPresent(banks, sl), first, last, count, f, n)
          && (StartsFrom(kb, first, 0) && count == 0 ==> StartsFrom(kb, first, n))
          && (count == 0 ==> forall k :: 0 <= k < n ==> Unstarted(kb[k], first, last)))
  }

  /** What a result means. Nothing is chosen in a bank that is not there, and such banks do not matter. If those
      that are there are contiguous, the result is Ok with a non-zero count if and only if the range begins
      with a sector and ends with one or beyond the flash; then exactly the sectors that meet the range are
      chosen, and the count is their number. The end-boundary error is reported exactly when only the end is
      wrong, the start-boundary error exactly when the start lies inside a bank but begins no sector, and the
      reverse-order error exactly when the range ends with a sector but begins in none. */
  ghost predicate Translated(banks: seq<Bank>, sf: seq<int>, sl: seq<int>, first: int, last: int, rc: Rc, count: int) {
    var kb := Present(banks);
    && AbsentUnchosen(banks, sf, sl)
    && (rc == Ok ==> count >= 0) && rc != EraseFailed
    && (Contiguous(kb) ==>
          && (rc == Ok && count > 0 <==> first <= last && OnBoundaries(kb, first, last))
          && (rc == Ok && count > 0 ==>
                Exact(kb, ForPresent(banks, sf), ForPresent(banks, sl), first, last, count, |kb|))
          && (rc == EndNotOnBoundary <==> first <= last && StartsFrom(kb, first, 0) && !EndsWell(kb, last))
          && (rc == StartNotOnBoundary <==> first <= last && StartsInside(kb, first))
          && (rc == ReverseOrder <==> first <= last && OnlyEnds(kb, first, last))
          && rc != EndPrecedesStart)
  }

  /** A sector is chosen if and only if its bank is there and it meets the range. */
  lemma ChosenIff(banks: seq<Bank>, sf: seq<int>, sl: seq<int>, first: int, last: int, count: int, k: nat, s: nat)
    requires Translated(banks, sf, sl, first, last, Ok, count) && count > 0 && Contiguous(Present(banks)) && k < |banks|
    ensures Chosen(sf, sl, k, s) <==> banks[k].known && s < |banks[k].start| && Meets(banks[k], s, first, last)
  {
    if banks[k].known {
      var kb, n := Present(banks), |Known(banks, k)|;
      KnownAt(banks, k, |banks|);
      PickAt(banks, sf, k, |banks|);
      PickAt(banks, sl, k, |banks|);
      assert Settled(kb, ForPresent(banks, sf), ForPresent(banks, sl), first, last, n);
    }
  }

  /** One turn of the bank loop: a bank that is not there is passed over. */
  method NextBank(banks: seq<Bank>, bank: nat, f: nat, last: nat, sFirst: array<int>, sLast: array<int>, c: int,
      ghost first: nat) returns (rc: Rc, next: int, count: int)
    requires bank < |banks| && f <= last < TWO_64 && first <= last
    requires banks[bank].known ==> HasSectors(banks[bank])
    requires sFirst.Length == sLast.Length == |banks| && sFirst != sLast
    requires Walking(banks, sFirst[..], sLast[..], first, last, c, f, bank)
    modifies sFirst, sLast
    ensures rc == Ok ==> Walking(banks, sFirst[..], sLast[..], first, last, count, next, bank + 1)
    ensures rc != Ok ==> Translated(banks, sFirst[..], sLast[..], first, last, rc, count)
  {
    rc, next, count := Ok, f, c;
    if banks[bank].known {
      KnownAt(banks, bank, |banks|);
      rc, next, count :=
        StoreBank(banks, bank, f, last, sFirst, sLast, c, first, Present(banks), |Known(banks, bank)|);
    }
  }

  lemma WalkEnds(banks: seq<Bank>, sf: seq<int>, sl: seq<int>, first: int, last: int, count: int, f: int, bank: nat)
    requires bank <= |banks| && Walking(banks, sf, sl, first, last, count, f, bank)
    requires bank == |banks| || f > last
    requires bank > 0 ==> first <= last
    requires bank == 0 ==> f == first && count == 0
    ensures Translated(banks, sf, sl, first, last, Ok, count)
  {
    var kb, n := Present(banks), |Known(banks, bank)|;
    if Contiguous(kb) {
      if count > 0 {
        Filled(kb, ForPresent(banks, sf), ForPresent(banks, sl), first, last, count, f, n);
      } else {
        assert first <= last ==> bank == |banks| && !StartsFrom(kb, first, n);
        assert first <= last ==> forall k :: 0 <= k < |kb| ==> Unstarted(kb[k], first, last);
      }
    }
  }

  /** Nothing is chosen yet. */
  method ClearChoices(banks: seq<Bank>, first: nat, last: nat, sFirst: array<int>, sLast: array<int>)
    requires sFirst.Length == sLast.Length == |banks| && sFirst != sLast
    modifies sFirst, sLast
    ensures Walking(banks, sFirst[..], sLast[..], first, last, 0, first, 0)
  {
    for bank := 0 to |banks|
      invariant forall k :: 0 <= k < bank ==> sFirst[k] == -1 && sLast[k] == -1
    {
      sFirst[bank] := -1;
      sLast[bank] := -1;
    }
    PickNone(banks, sFirst[..], |banks|);
    PickNone(banks, sLast[..], |banks|);
  }

  /** `flash_fill_sect_ranges`. */
  method FillSectRanges(banks: seq<Bank>, first: nat, last: nat, sFirst: array<int>, sLast: array<int>)
      returns (rc: Rc, count: int)
    requires first < TWO_64 && last < TWO_64
    requires sFirst.Length == sLast.Length == |banks| && sFirst != sLast
    requires forall k :: 0 <= k < |banks| && banks[k].known ==> HasSectors(banks[k])
    modifies sFirst, sLast
    ensures Translated(banks, sFirst[..], sLast[..], first, last, rc, count)
  {
    rc, count := Ok, 0;
    ClearChoices(banks, first, last, sFirst, sLast);
    var addrFirst: int := first;
    var bank := 0;
    while bank < |banks| && addrFirst <= last
      invariant 0 <= bank <= |banks| && rc == Ok
      invariant Walking(banks, sFirst[..], sLast[..], first, last, count, addrFirst, bank)
      invariant bank > 0 ==> first <= last
      invariant bank == 0 ==> addrFirst == first && count == 0
    {
      rc, addrFirst, count := NextBank(banks, bank, addrFirst, last, sFirst, sLast, count, first);
      if rc != Ok {
        return;
      }
      bank := bank + 1;
    }
    WalkEnds(banks, sFirst[..], sLast[..], first, last, count, addrFirst, bank);
  }

  // ---------------------------------------------------------------- the addresses covered

  /** Two sectors of contiguous banks are ordered: one lies wholly before the other or they are the same. */
  lemma SectorOrder(banks: seq<Bank>, k: nat, s: nat, j: nat, t: nat)
    requires Contiguous(banks) && k < |banks| && j < |banks| && s < |banks[k].start| && t < |banks[j].start|
    ensures SectorEnd(banks[k], s) < banks[j].start[t] || SectorEnd(banks[j], t) < banks[k].start[s] ||
      (k == j && s == t)
  {
    SectorInBank(banks[k], s);
    SectorInBank(banks[j], t);
    if k < j {
      BanksOrdered(banks, k, j);
    } else if j < k {
      BanksOrdered(banks, j, k);
    } else if s < t {
      SectorsOrdered(banks[k], s, t);
    } else if t < s {
      SectorsOrdered(banks[k], t, s);
    }
  }

  lemma {:induction false} LocateInBank(b: Bank, a: int, n: nat) returns (s: nat)
    requires Ascending(b) && 0 < n <= |b.start| && b.start[0] <= a <= SectorEnd(b, n - 1)
    ensures s < |b.start| && HasAddress(b, s, a)
  {
    if b.start[n - 1] <= a {
      s := n - 1;
    } else {
      s := LocateInBank(b, a, n - 1);
    }
  }

  /** Every flash address lies in a sector. */
  lemma {:induction false} Locate(banks: seq<Bank>, a: int, n: nat) returns (k: nat, s: nat)
    requires Contiguous(banks) && 0 < n <= |banks| && banks[0].start[0] <= a <= BankEnd(banks[n - 1])
    ensures k < n && s < |banks[k].start| && HasAddress(banks[k], s, a)
  {
    if banks[n - 1].start[0] <= a {
      k := n - 1;
      s := LocateInBank(banks[k], a, |banks[k].start|);
    } else {
      assert banks[n - 1].start[0] == BankEnd(banks[n - 2]) + 1;
      k, s := Locate(banks, a, n - 1);
    }
  }

  /** A sector that meets a range beginning with a sector does not begin before it, and one that meets a
      range ending with a sector does not end after it. */
  lemma WithinSectors(banks: seq<Bank>, k: nat, s: nat, j: nat, t: nat, first: int, last: int)
    requires Contiguous(banks) && k < |banks| && s < |banks[k].start| && Meets(banks[k], s, first, last) && j < |banks|
    ensures Begins(banks[j], t, first) ==> first <= banks[k].start[s]
    ensures Ends(banks[j], t, last) ==> SectorEnd(banks[k], s) <= last
  {
    if t < |banks[j].start| {
      SectorOrder(banks, k, s, j, t);
      SectorInBank(banks[k], s);
      SectorInBank(banks[j], t);
    }
  }

  lemma InsideFlash(banks: seq<Bank>, k: nat, s: nat)
    requires Contiguous(banks) && k < |banks| && s < |banks[k].start|
    ensures banks[0].start[0] <= banks[k].start[s] <= SectorEnd(banks[k], s) <= BankEnd(banks[|banks| - 1])
  {
    SectorInBank(banks[k], s);
    if k > 0 {
      BanksOrdered(banks, 0, k);
      SectorInBank(banks[0], 0);
    }
    if k < |banks| - 1 {
      BanksOrdered(banks, k, |banks| - 1);
      SectorInBank(banks[|banks| - 1], 0);
    }
  }

  lemma MeetingIsInside(banks: seq<Bank>, first: int, last: int, k: nat, s: nat)
    requires Contiguous(banks) && OnBoundaries(banks, first, last)
    requires k < |banks| && s < |banks[k].start| && Meets(banks[k], s, first, last)
    ensures first <= banks[k].start[s] && SectorEnd(banks[k], s) <= last
  {
    var j, t :| 0 <= j < |banks| && Begins(banks[j], t, first);
    WithinSectors(banks, k, s, j, t, first, last);
    if last > BankEnd(banks[|banks| - 1]) {
      InsideFlash(banks, k, s);
    } else {
      var i :| 0 <= i < |banks| && EndsIn(banks[i], last);
      var u :| Ends(banks[i], u, last);
      WithinSectors(banks, k, s, i, u, first, last);
    }
  }

  /** The sectors that meet such a range together cover exactly its addresses, up to the end of the flash. */
  lemma UnionIsTheRange(banks: seq<Bank>, first: int, last: int, a: int)
    requires Contiguous(banks) && OnBoundaries(banks, first, last)
    ensures (exists k, s :: 0 <= k < |banks| && 0 <= s < |banks[k].start|
                            && Meets(banks[k], s, first, last) && HasAddress(banks[k], s, a))
      <==> first <= a <= last && a <= BankEnd(banks[|banks| - 1])
  {
    if k, s :| 0 <= k < |banks| && 0 <= s < |banks[k].start|
               && Meets(banks[k], s, first, last) && HasAddress(banks[k], s, a) {
      MeetingIsInside(banks, first, last, k, s);
      InsideFlash(banks, k, s);
    }
    if first <= a <= last && a <= BankEnd(banks[|banks| - 1]) {
      var j, t :| 0 <= j < |banks| && Begins(banks[j], t, first);
      InsideFlash(banks, j, t);
      var k, s := Locate(banks, a, |banks|);
      assert Meets(banks[k], s, first, last) && HasAddress(banks[k], s, a);
    }
  }

  // ---------------------------------------------------------------- callers

  /** `flash_sect_roundb`: moves an address to the end of the first sector that holds it. The result is a
      sector end, so with it as end address `FillSectRanges` never reports the end-boundary error. */
  method RoundB(banks: seq<Bank>, addr: nat) returns (found: bool, rounded: int)
    requires forall k :: 0 <= k < |banks| ==> banks[k].start == [] || HasSectors(banks[k])
    ensures found <==> exists k, s :: 0 <= k < |banks| && 0 <= s < |banks[k].start| && HasAddress(banks[k], s, addr)
    ensures found ==>
      exists k, s :: 0 <= k < |banks| && 0 <= s < |banks[k].start| && HasAddress(banks[k], s, addr) &&
        Ends(banks[k], s, rounded)
    ensures found ==> exists k :: 0 <= k < |banks| && EndsIn(banks[k], rounded)
    ensures !found ==> rounded == addr
  {
    found, rounded := false, addr;
    for bank := 0 to |banks|
      invariant !found && rounded == addr
      invariant forall k, s :: 0 <= k < bank && 0 <= s < |banks[k].start| ==> !HasAddress(banks[k], s, addr)
    {
      var info := banks[bank];
      for i := 0 to |info.start|
        invariant !found && rounded == addr
        invariant forall s :: 0 <= s < i ==> !HasAddress(info, s, addr)
      {
        var sectorEnd: int := if i == |info.start| - 1 then info.start[0] + info.size - 1 else info.start[i + 1] - 1;
        if addr <= sectorEnd && addr >= info.start[i] {
          found := true;
          if addr < sectorEnd {
            rounded := sectorEnd;
          }
          assert HasAddress(banks[bank], i, addr) && Ends(banks[bank], i, rounded);
          assert EndsIn(banks[bank], rounded);
          return;
        }
      }
    }
  }

  /** `flash_sect_erase`, with the driver's answer for each bank as an oracle. If the banks that are there are
      contiguous, a successful call erases exactly their sectors that meet the range. */
  method SectErase(banks: seq<Bank>, first: nat, last: nat, eraseOk: nat -> bool)
      returns (rc: Rc, erased: set<(nat, nat)>)
    requires first < TWO_64 && last < TWO_64
    requires forall k :: 0 <= k < |banks| && banks[k].known ==> HasSectors(banks[k])
    ensures rc == Ok && Contiguous(Present(banks)) ==>
      forall k: nat, s: nat :: (k, s) in erased <==>
        k < |banks| && banks[k].known && s < |banks[k].start| && Meets(banks[k], s, first, last)
    ensures Contiguous(Present(banks)) && (forall k :: 0 <= k < |banks| ==> eraseOk(k)) ==>
      (rc == Ok <==> first <= last && OnBoundaries(Present(banks), first, last))
    ensures Contiguous(Present(banks)) && EndsWell(Present(banks), last) ==> rc != EndNotOnBoundary
  {
    erased := {};
    var sFirst, sLast := new int[|banks|], new int[|banks|];
    var planned;
    rc, planned := FillSectRanges(banks, first, last, sFirst, sLast);
    if rc != Ok {
      return;
    }
    if planned == 0 {
      rc := StartNotOnBoundary;
      return;
    }
    ghost var sf, sl := sFirst[..], sLast[..];
    var done;
    done, erased := EraseChosen(|banks|, sFirst, sLast, eraseOk);
    if !done {
      rc := EraseFailed;
    } else if Contiguous(Present(banks)) {
      forall k: nat, s: nat | k < |banks|
        ensures (k, s) in erased <==> banks[k].known && s < |banks[k].start| && Meets(banks[k], s, first, last)
      {
        ChosenIff(banks, sf, sl, first, last, planned, k, s);
      }
    }
  }

  /** The loop that hands each bank's range to its driver. */
  method EraseChosen(n: nat, sFirst: array<int>, sLast: array<int>, eraseOk: nat -> bool)
      returns (done: bool, erased: set<(nat, nat)>)
    requires sFirst.Length == sLast.Length == n
    ensures done ==> forall k: nat, s: nat :: (k, s) in erased <==> k < n && Chosen(sFirst[..], sLast[..], k, s)
    ensures (forall k :: 0 <= k < n ==> eraseOk(k)) ==> done
  {
    erased, done := {}, true;
    for bank := 0 to n
      invariant forall k: nat, s: nat :: (k, s) in erased <==> k < bank && Chosen(sFirst[..], sLast[..], k, s)
    {
      if sFirst[bank] >= 0 {
        if !eraseOk(bank) {
          done := false;
          return;
        }
        var range := set s: nat | 0 <= sFirst[bank] <= s <= sLast[bank] :: (bank, s);
        erased := erased + range;
      }
    }
  }

  /** Last address of a range given by its length, in 64-bit arithmetic. */
  function LengthEnd(first: nat, length: nat): nat
    requires first < TWO_64 && length < TWO_64
  {
    if first + length == 0 then TWO_64 - 1 else Wrap64(first + length - 1)
  }

  /** No sector begins between an address and the end of its sector, so rounding adds no sector to a range. */
  lemma RoundingAddsNothing(banks: seq<Bank>, first: int, last: int, rounded: int, j: nat, t: nat, k: nat, s: nat)
    requires Contiguous(banks) && j < |banks| && t < |banks[j].start| && HasAddress(banks[j], t, last)
    requires rounded == SectorEnd(banks[j], t) && k < |banks| && s < |banks[k].start|
    ensures Meets(banks[k], s, first, last) <==> Meets(banks[k], s, first, rounded)
  {
    SectorOrder(banks, k, s, j, t);
  }

  lemma OneSector(banks: seq<Bank>, a: int, j: nat, t: nat, k: nat, s: nat)
    requires Contiguous(banks) && j < |banks| && t < |banks[j].start| && HasAddress(banks[j], t, a)
    requires k < |banks| && s < |banks[k].start| && HasAddress(banks[k], s, a)
    ensures j == k && s == t
  {
    SectorOrder(banks, k, s, j, t);
  }

  /** `erase start +length`. The end is rounded to the end of its sector, so on contiguous banks the
      end-boundary error cannot happen, and exactly the sectors that meet the given range are erased. */
  method EraseLength(banks: seq<Bank>, first: nat, length: nat, eraseOk: nat -> bool)
      returns (accepted: bool, rc: Rc, erased: set<(nat, nat)>)
    requires first < TWO_64 && length < TWO_64
    requires forall k :: 0 <= k < |banks| ==> banks[k].start == [] || HasSectors(banks[k])
    requires forall k :: 0 <= k < |banks| && banks[k].known ==> banks[k].start != []
    requires forall k, s :: 0 <= k < |banks| && 0 <= s < |banks[k].start| ==> SectorEnd(banks[k], s) < TWO_64
    ensures !accepted ==> erased == {}
    ensures Contiguous(banks) ==>
      (accepted <==> exists k, s :: 0 <= k < |banks| && 0 <= s < |banks[k].start|
                                    && HasAddress(banks[k], s, LengthEnd(first, length))
                                    && first < SectorEnd(banks[k], s))
    ensures Contiguous(banks) && accepted ==> rc != EndNotOnBoundary
    ensures Contiguous(banks) && accepted && (forall k :: 0 <= k < |banks| ==> eraseOk(k)) ==>
      (rc == Ok <==> StartsFrom(banks, first, 0))
    ensures Contiguous(banks) && accepted && rc == Ok ==>
      forall k: nat, s: nat :: (k, s) in erased <==>
        k < |banks| && s < |banks[k].start| && Meets(banks[k], s, first, LengthEnd(first, length))
  {
    var last := LengthEnd(first, length);
    accepted, rc, erased := false, Ok, {};
    var found, rounded := RoundB(banks, last);
    if !found {
      return;
    }
    ghost var j, t :| 0 <= j < |banks| && 0 <= t < |banks[j].start|
      && HasAddress(banks[j], t, last) && Ends(banks[j], t, rounded);
    if Contiguous(banks) {
      forall k, s | 0 <= k < |banks| && 0 <= s < |banks[k].start| && HasAddress(banks[k], s, last)
        ensures k == j && s == t
      {
        OneSector(banks, last, j, t, k, s);
      }
    }
    if first >= rounded {
      return;
    }
    accepted := true;
    if Contiguous(banks) {
      KnownAll(banks, |banks|);
      assert banks[..|banks|] == banks;
    }
    rc, erased := SectErase(banks, first, rounded, eraseOk);
    if Contiguous(banks) {
      forall k: nat, s: nat | k < |banks| && s < |banks[k].start|
        ensures Meets(banks[k], s, first, last) <==> Meets(banks[k], s, first, rounded)
      {
        RoundingAddsNothing(banks, first, last, rounded, j, t, k, s);
      }
    }
  }
}
