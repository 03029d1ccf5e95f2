/** Words and rows as lists of bits, least significant first, and the shifts that the fuse driver does
    on the 32-bit halves of a row. A shift by the whole width gives 0. */
module EfuseBits {
  type Word = w: seq<bool> | |w| == 32 witness seq(32, _ => false)
  type Row = r: seq<bool> | |r| == 64 witness seq(64, _ => false)

  function Zero(): Word {
    seq(32, _ => false)
  }

  function Shl(w: Word, n: nat): Word {
    seq(32, i requires 0 <= i < 32 => n <= i && w[i - n])
  }

  function Shr(w: Word, n: nat): Word {
    seq(32, i requires 0 <= i < 32 => i + n < 32 && w[i + n])
  }

  function Or(v: Word, w: Word): Word {
    seq(32, i requires 0 <= i < 32 => v[i] || w[i])
  }

  /** `w & (0xFFFFFFFF >> (32 - n))`. */
  function Low(w: Word, n: nat): Word {
    seq(32, i requires 0 <= i < 32 => i < n && w[i])
  }

  function RowOf(lo: Word, hi: Word): Row {
    lo + hi
  }

  /** The two halves of a row, as the driver keeps them. */
  datatype Pair = Pair(lo: Word, hi: Word)

  function RowOfPair(p: Pair): Row {
    RowOf(p.lo, p.hi)
  }

  function Lo(r: Row): Word {
    r[..32]
  }

  function Hi(r: Row): Word {
    r[32..]
  }

  function OrRow(r: Row, s: Row): Row {
    seq(64, i requires 0 <= i < 64 => r[i] || s[i])
  }

  /** 64-bit shifts. */
  function ShlRow(r: Row, n: nat): Row {
    seq(64, i requires 0 <= i < 64 => n <= i && r[i - n])
  }

  function ShrRow(r: Row, n: nat): Row {
    seq(64, i requires 0 <= i < 64 => i + n < 64 && r[i + n])
  }

  /** The left shift on halves, as `efuse_write` does it. */
  function ShlHalves(lo: Word, hi: Word, offset: nat): Pair
    requires offset <= 64
  {
    if offset < 32 then Pair(Shl(lo, offset), Or(Shl(hi, offset), Shr(lo, 32 - offset)))
    else Pair(Zero(), Shl(lo, offset - 32))
  }

  /** The right shift on halves, as `efuse_read` does it. */
  function ShrHalves(lo: Word, hi: Word, offset: nat): Pair
    requires offset <= 64
  {
    if offset < 32 then Pair(Or(Shr(lo, offset), Shl(hi, 32 - offset)), Shr(hi, offset))
    else Pair(Shr(hi, offset - 32), Zero())
  }

  /** Both shifts on halves are the 64-bit shifts, at every offset and across the word boundary. */
  lemma HalvesShiftTheRow(lo: Word, hi: Word, offset: nat)
    requires offset <= 64
    ensures RowOfPair(ShlHalves(lo, hi, offset)) == ShlRow(RowOf(lo, hi), offset)
    ensures RowOfPair(ShrHalves(lo, hi, offset)) == ShrRow(RowOf(lo, hi), offset)
  {
  }

  lemma Halves(r: Row)
    ensures RowOf(Lo(r), Hi(r)) == r
  {
  }
}
