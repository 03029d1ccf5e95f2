/** Bytes, machine words and their arithmetic, shared by the models. */
module Machine {
  const TWO_32: int := 0x1_0000_0000
  const TWO_63: int := 0x8000_0000_0000_0000
  const TWO_64: int := 0x1_0000_0000_0000_0000

  /** Error numbers of the loaders. */
  const EPERM: int := 1
  const ENOMEM: int := 12
  const EAUTH: int := 80

  const INVALID_IMAGE_ID: U32 := 0xFFFF_FFFF

  type Byte = b: int | 0 <= b < 256
  type U32 = n: int | 0 <= n < TWO_32

  /** Unsigned 32-bit addition and subtraction, with wrap-around. */
  function Add32(a: U32, b: U32): U32 {
    if a + b < TWO_32 then a + b else a + b - TWO_32
  }

  function Sub32(a: U32, b: U32): U32 {
    if a >= b then a - b else a - b + TWO_32
  }

  /** A number in 64 bits. */
  function Wrap64(n: nat): nat {
    if n < TWO_64 then n else n % TWO_64
  }

  lemma RemoveOne<T>(t: seq<T>, k: nat)
    requires k < |t|
    ensures t == t[..k] + [t[k]] + t[k + 1..]
    ensures multiset(t[..k] + t[k + 1..]) == multiset(t) - multiset{t[k]}
  {
    assert t == t[..k] + [t[k]] + t[k + 1..];
  }

  /** The last element of `s` taken out of a permutation of `s`. */
  lemma TakeOut<T>(s: seq<T>, t: seq<T>) returns (x: seq<T>, y: seq<T>)
    requires s != [] && multiset(s) == multiset(t)
    ensures t == x + [s[|s| - 1]] + y && multiset(s[..|s| - 1]) == multiset(x + y)
  {
    RemoveOne(s, |s| - 1);
    assert s[..|s| - 1] + s[|s|..] == s[..|s| - 1];
    assert s[|s| - 1] in multiset(t);
    var k :| 0 <= k < |t| && t[k] == s[|s| - 1];
    RemoveOne(t, k);
    x, y := t[..k], t[k + 1..];
  }
}
