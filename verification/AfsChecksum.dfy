/** The footer checksum of ARM Flash Partitions: the inverse of a 32-bit sum with end-around carry. */
module AfsChecksum {
  import opened Machine

  const MAX: int := 0xFFFF_FFFF

  function Inverse(x: U32): U32 {
    MAX - x
  }

  /** One step of the loop in 32-bit arithmetic: a carry out of the top comes back in at the bottom. */
  function AddWord(sum: U32, val: U32): U32 {
    Add32(if val > Inverse(sum) then Add32(sum, 1) else sum, val)
  }

  function Sum(words: seq<U32>): U32 {
    if words == [] then 0 else AddWord(Sum(words[..|words| - 1]), words[|words| - 1])
  }

  function Total(words: seq<U32>): nat {
    if words == [] then 0 else Total(words[..|words| - 1]) + words[|words| - 1]
  }

  /** The representative of `t` modulo 2^32 - 1 in 1 .. 2^32 - 1, or 0 for 0 itself. */
  function Folded(t: nat): U32 {
    if t == 0 then 0 else (t - 1) % MAX + 1
  }

  lemma ModIs(x: nat, q: nat, r: nat)
    requires x == q * MAX + r && r < MAX
    ensures x % MAX == r
  {
  }

  lemma FoldedStep(t: nat, val: U32)
    ensures AddWord(Folded(t), val) == Folded(t + val)
  {
    if t > 0 {
      var q, r := (t - 1) / MAX, (t - 1) % MAX;
      if r + val < MAX {
        ModIs(t - 1 + val, q, r + val);
      } else {
        ModIs(t - 1 + val, q + 1, r + val - MAX);
      }
    }
  }

  /** The end-around-carry sum depends on the words only through their plain sum. */
  lemma {:induction false} SumIsFolded(words: seq<U32>)
    ensures Sum(words) == Folded(Total(words))
  {
    if words != [] {
      SumIsFolded(words[..|words| - 1]);
      FoldedStep(Total(words[..|words| - 1]), words[|words| - 1]);
    }
  }

  /** `compute_crc` over `len` bytes; a length that is not a multiple of four is answered with 0. */
  method ComputeCrc(words: seq<U32>, len: nat) returns (crc: U32)
    requires len <= 4 * |words|
    ensures crc == if len % 4 != 0 then 0 else Inverse(Sum(words[..len / 4]))
  {
    if len % 4 != 0 {
      return 0;
    }
    var sum: U32 := 0;
    var i := 0;
    while i < len
      invariant 0 <= i <= len && i % 4 == 0 && sum == Sum(words[..i / 4])
    {
      var val := words[i / 4];
      assert words[..i / 4 + 1][..i / 4] == words[..i / 4];
      if val > Inverse(sum) {
        sum := (sum + 1) % TWO_32;
      }
      sum := (sum + val) % TWO_32;
      i := i + 4;
    }
    crc := Inverse(sum);
  }

  lemma {:induction false} TotalSplit(x: seq<U32>, w: U32, y: seq<U32>)
    ensures Total(x + [w] + y) == Total(x + y) + w
  {
    if y == [] {
      assert x + [w] + y == x + [w] && (x + [w])[..|x|] == x && x + y == x;
    } else {
      var z := y[..|y| - 1];
      TotalSplit(x, w, z);
      assert (x + [w] + y)[..|x| + |y|] == x + [w] + z && (x + y)[..|x| + |y| - 1] == x + z;
    }
  }

  lemma {:induction false} TotalOfPermutation(s: seq<U32>, t: seq<U32>)
    requires multiset(s) == multiset(t)
    ensures Total(s) == Total(t)
  {
    assert |multiset(s)| == |s| && |multiset(t)| == |t|;
    if s != [] {
      var x, y := TakeOut(s, t);
      TotalOfPermutation(s[..|s| - 1], x + y);
      TotalSplit(x, s[|s| - 1], y);
    }
  }

  /** The checksum does not depend on the order of the words. */
  lemma OrderIrrelevant(s: seq<U32>, t: seq<U32>)
    requires multiset(s) == multiset(t)
    ensures Sum(s) == Sum(t)
  {
    TotalOfPermutation(s, t);
    SumIsFolded(s);
    SumIsFolded(t);
  }

  /** A word may be added last wherever it stands. */
  lemma SumSplit(x: seq<U32>, w: U32, y: seq<U32>)
    ensures Sum(x + [w] + y) == AddWord(Sum(x + y), w)
  {
    SumIsFolded(x + [w] + y);
    SumIsFolded(x + y);
    TotalSplit(x, w, y);
    FoldedStep(Total(x + y), w);
  }

  lemma AddsToAllOnes(sum: U32, w: U32)
    ensures AddWord(sum, w) == MAX <==> w == Inverse(sum) || (w == MAX && sum == MAX)
  {
  }

  /** With word `w` anywhere among the others, the checksum is 0 if and only if `w` is the inverse of the sum
      of the others, or both are all ones. */
  lemma ZeroIff(x: seq<U32>, w: U32, y: seq<U32>)
    ensures Inverse(Sum(x + [w] + y)) == 0 <==> w == Inverse(Sum(x + y)) || (w == MAX && Sum(x + y) == MAX)
  {
    SumSplit(x, w, y);
    AddsToAllOnes(Sum(x + y), w);
  }

  /** Two words of all ones have checksum 0 although neither is the inverse of the other. */
  lemma AllOnesSumToZero()
    ensures Inverse(Sum([MAX] + [MAX] + [])) == 0 && MAX != Inverse(Sum([MAX] + []))
  {
    assert [MAX] + [] == [MAX] && [MAX][..0] == [];
    assert Sum([MAX]) == AddWord(0, MAX);
    ZeroIff([MAX], MAX, []);
  }
}
