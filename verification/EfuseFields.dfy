/** What the fuse driver is meant to compute, on values: where a field goes in its row, what a sequence
    of writes leaves in the fuses, and what a read gives back. */
module EfuseFields {
  import opened EfuseBits
  import opened EfuseDevice

  const EFUSE_MAX_ROW: int := 43
  const EFUSE_BITS_IN_ROW: int := 64

  /** Rows that a field takes; bits that do not fill a row beyond the first are dropped. */
  function Loops(size: nat): nat {
    if size <= EFUSE_BITS_IN_ROW then 1 else size / EFUSE_BITS_IN_ROW
  }

  /** A field of whole rows takes all of them. */
  lemma LoopsFill(size: nat)
    requires size >= EFUSE_BITS_IN_ROW
    ensures EFUSE_BITS_IN_ROW * Loops(size) <= size < EFUSE_BITS_IN_ROW * (Loops(size) + 1)
  {
  }

  /** A field has a bit, and the device has the rows it takes from any first row that the driver accepts. */
  predicate IsFieldSize(size: nat) {
    0 < size && EFUSE_MAX_ROW - 1 + Loops(size) <= ROWS
  }

  /** A single bit takes three cells; a short field is cut to its size. */
  function Expand(size: nat, w0: Word, w1: Word): Pair {
    if size == 1 then Pair(seq(32, i requires 0 <= i < 32 => i < 3 && w0[0]), Zero())
    else if size <= 32 then Pair(Low(w0, size), Zero())
    else Pair(w0, w1)
  }

  /** The cells of row `k` of the field that the caller asks for. */
  function Requested(size: nat, offset: nat, args: seq<Word>, k: nat): Row
    requires 2 * k + 1 < |args|
  {
    if size < EFUSE_BITS_IN_ROW then ShlRow(RowOfPair(Expand(size, args[2 * k], args[2 * k + 1])), offset)
    else RowOf(args[2 * k], args[2 * k + 1])
  }

  /** The fuses after the first `n` rows of the field have been written: each is its old value OR the
      requested one, and no other row differs. */
  function Written(fuses: seq<Row>, size: nat, row: nat, offset: nat, args: seq<Word>, n: nat): (r: seq<Row>)
    requires 2 * n <= |args|
    ensures |r| == |fuses|
  {
    seq(|fuses|, i requires 0 <= i < |fuses| =>
      if row <= i < row + n then OrRow(fuses[i], Requested(size, offset, args, i - row)) else fuses[i])
  }

  lemma WrittenNone(fuses: seq<Row>, size: nat, row: nat, offset: nat, args: seq<Word>)
    ensures Written(fuses, size, row, offset, args, 0) == fuses
  {
  }

  lemma WrittenNext(fuses: seq<Row>, size: nat, row: nat, offset: nat, args: seq<Word>, n: nat)
    requires 2 * n + 2 <= |args| && row + n < |fuses|
    ensures Written(fuses, size, row, offset, args, n + 1) ==
      Written(fuses, size, row, offset, args, n)[row + n := OrRow(fuses[row + n], Requested(size, offset, args, n))]
  {
  }

  /** Two of three cells decide a single bit. */
  predicate Majority(w: Word) {
    (w[0] && w[1]) || (w[0] && w[2]) || (w[1] && w[2])
  }

  function Bit(b: bool): Word {
    seq(32, i => i == 0 && b)
  }

  /** What a read of a field shorter than a row returns. */
  function ReadField(size: nat, offset: nat, r: Row): Pair {
    var s := ShrRow(r, offset);
    if size == 1 then Pair(Bit(Majority(Lo(s))), Zero())
    else if size <= 32 then Pair(Low(Lo(s), size), Zero())
    else Pair(Lo(s), Hi(s))
  }

  /** The cell in a column, or false past the end of the row. */
  predicate CellOf(r: Row, col: nat) {
    col < 64 && r[col]
  }

  /** What a read of a field shorter than a row returns, cell by cell: a single bit is what at least two of its
      three cells say, a field of up to 32 bits is its cells and nothing else, and a longer one is not cut. */
  lemma ReadFieldBit(size: nat, offset: nat, r: Row, i: nat)
    requires 0 < size < EFUSE_BITS_IN_ROW && i < 32
    ensures var p := ReadField(size, offset, r);
      var x, y, z := CellOf(r, offset), CellOf(r, offset + 1), CellOf(r, offset + 2);
      && (size == 1 ==> p.lo[i] == (i == 0 && if x then y || z else y && z))
      && (1 < size <= 32 ==> p.lo[i] == (i < size && CellOf(r, offset + i)))
      && (size <= 32 ==> !p.hi[i])
      && (size > 32 ==> p.lo[i] == CellOf(r, offset + i) && p.hi[i] == CellOf(r, offset + 32 + i))
  {
  }

  // ---------------------------------------------------------------- any sequence of writes

  /** A write call and the number of rows of its field that it got written: all of them when it completes,
      fewer when the device stops answering, none when it is refused. */
  datatype Call = Call(size: nat, row: nat, offset: nat, args: seq<Word>, rows: nat)

  predicate IsCall(c: Call) {
    IsFieldSize(c.size) && |c.args| >= 2 * Loops(c.size) && c.rows <= Loops(c.size)
  }

  function WrittenAll(fuses: seq<Row>, calls: seq<Call>): (r: seq<Row>)
    requires forall i :: 0 <= i < |calls| ==> IsCall(calls[i])
    ensures |r| == |fuses|
  {
    if calls == [] then fuses
    else
      var c := calls[|calls| - 1];
      assert IsCall(c);
      Written(WrittenAll(fuses, calls[..|calls| - 1]), c.size, c.row, c.offset, c.args, c.rows)
  }

  lemma WrittenOneMore(fuses: seq<Row>, calls: seq<Call>, c: Call)
    requires (forall i :: 0 <= i < |calls| ==> IsCall(calls[i])) && IsCall(c)
    ensures WrittenAll(fuses, calls + [c]) ==
      Written(WrittenAll(fuses, calls), c.size, c.row, c.offset, c.args, c.rows)
  {
    assert (calls + [c])[..|calls|] == calls;
  }

  /** A write of the first `n` rows of a field asks for the cell in row `r`, column `col`. A single bit asks
      for three cells from `offset` on, a field of up to 32 bits for as many as it has, a longer one that is
      shorter than a row for both words from `offset` on, and whole rows for both words of each row. */
  predicate Wants(size: nat, row: nat, offset: nat, args: seq<Word>, n: nat, r: nat, col: nat)
    requires 2 * n <= |args| && (size < EFUSE_BITS_IN_ROW ==> n <= 1) && col < 64
  {
    && row <= r < row + n
    && if size >= EFUSE_BITS_IN_ROW then
         if col < 32 then args[2 * (r - row)][col] else args[2 * (r - row) + 1][col - 32]
       else if col < offset then false
       else if size == 1 then col < offset + 3 && args[0][0]
       else if size <= 32 then col < offset + size && args[0][col - offset]
       else if col - offset < 32 then args[0][col - offset]
       else args[1][col - offset - 32]
  }

  /** Call `c` got to the cell in row `r`, column `col`, and asks for it. */
  predicate Asks(c: Call, r: nat, col: nat)
    requires IsCall(c) && col < 64
  {
    Wants(c.size, c.row, c.offset, c.args, c.rows, r, col)
  }

  /** After any sequence of writes, completed, timed out or refused, a fuse is set if and only if it was set before
      or some write got to it and asked for it; so no fuse is ever cleared and order does not matter. */
  lemma {:induction false} FuseSetIff(fuses: seq<Row>, calls: seq<Call>, r: nat, col: nat)
    requires (forall i :: 0 <= i < |calls| ==> IsCall(calls[i])) && r < |fuses| && col < 64
    ensures WrittenAll(fuses, calls)[r][col] <==>
            fuses[r][col] || exists i :: 0 <= i < |calls| && Asks(calls[i], r, col)
  {
    if calls != [] {
      var init, c := calls[..|calls| - 1], calls[|calls| - 1];
      assert IsCall(c);
      FuseSetIff(fuses, init, r, col);
      WrittenBit(WrittenAll(fuses, init), c, r, col);
      assert forall i :: 0 <= i < |init| ==> init[i] == calls[i];
    }
  }

  /** A short field at its offset. */
  lemma RequestedBit(size: nat, offset: nat, args: seq<Word>, col: nat)
    requires 0 < size < EFUSE_BITS_IN_ROW && |args| >= 2 && col < 64
    ensures Requested(size, offset, args, 0)[col] == Wants(size, 0, offset, args, 1, 0, col)
  {
  }

  /** After a write of the first `n` rows a cell is set if and only if it was set or is asked for. */
  lemma WrittenCell(fuses: seq<Row>, size: nat, row: nat, offset: nat, args: seq<Word>, n: nat, r: nat, col: nat)
    requires 0 < size && n <= Loops(size) && 2 * n <= |args| && r < |fuses| && col < 64
    ensures Written(fuses, size, row, offset, args, n)[r][col] <==>
            fuses[r][col] || Wants(size, row, offset, args, n, r, col)
  {
    if row <= r < row + n && size < EFUSE_BITS_IN_ROW {
      RequestedBit(size, offset, args, col);
    }
  }

  lemma WrittenBit(fuses: seq<Row>, c: Call, r: nat, col: nat)
    requires IsCall(c) && r < |fuses| && col < 64
    ensures Written(fuses, c.size, c.row, c.offset, c.args, c.rows)[r][col] <==> fuses[r][col] || Asks(c, r, col)
  {
    WrittenCell(fuses, c.size, c.row, c.offset, c.args, c.rows, r, col);
  }

  /** A write of a field of up to 32 bits leaves every cell outside the field as it was. */
  lemma OutsideFieldKept(fuses: seq<Row>, size: nat, row: nat, offset: nat, args: seq<Word>, r: nat, col: nat)
    requires 0 < size <= 32 && |args| >= 2 && r < |fuses| && col < 64
    requires r != row || col < offset || col >= offset + Width(size)
    ensures Written(fuses, size, row, offset, args, 1)[r][col] == fuses[r][col]
  {
    WrittenCell(fuses, size, row, offset, args, 1, r, col);
  }

  // ---------------------------------------------------------------- the row limit

  function Ones(): Word {
    seq(32, _ => true)
  }

  function NoFuses(): seq<Row> {
    seq(ROWS, _ => seq(64, _ => false))
  }

  /** No value makes a completed write change a row at or above the limit, if and only if the whole field
      lies below it. The driver checks the first row only. */
  lemma StaysBelowLimitIff(size: nat, row: nat, offset: nat)
    requires IsFieldSize(size) && row < EFUSE_MAX_ROW && offset <= EFUSE_BITS_IN_ROW
    ensures (forall fuses: seq<Row>, args: seq<Word>, r: nat ::
               |fuses| == ROWS && |args| >= 2 * Loops(size) && EFUSE_MAX_ROW <= r < ROWS ==>
                 Written(fuses, size, row, offset, args, Loops(size))[r] == fuses[r]) <==>
            row + Loops(size) <= EFUSE_MAX_ROW
  {
    if row + Loops(size) > EFUSE_MAX_ROW {
      var fuses, args := NoFuses(), seq(2 * Loops(size), _ => Ones());
      var r := row + Loops(size) - 1;
      PassesLimit(fuses, size, row, offset, args, r);
    }
  }

  lemma PassesLimit(fuses: seq<Row>, size: nat, row: nat, offset: nat, args: seq<Word>, r: nat)
    requires IsFieldSize(size) && size >= EFUSE_BITS_IN_ROW && |args| == 2 * Loops(size) && fuses == NoFuses()
    requires (forall i :: 0 <= i < |args| ==> args[i] == Ones()) && row <= r < row + Loops(size) <= ROWS
    ensures Written(fuses, size, row, offset, args, Loops(size))[r] != fuses[r]
  {
    var k := r - row;
    assert args[2 * k] == Ones();
    assert Requested(size, offset, args, k)[0] == args[2 * k][0];
    assert Written(fuses, size, row, offset, args, Loops(size))[r][0] && !fuses[r][0];
  }

  // ---------------------------------------------------------------- read after write

  function Width(size: nat): nat {
    if size == 1 then 3 else size
  }

  predicate Blank(r: Row, offset: nat, width: nat) {
    offset + width <= 64 && forall i :: offset <= i < offset + width ==> !r[i]
  }

  /** The value a caller of a short field means. */
  function Meant(size: nat, w: Word): Word {
    if size == 1 then Bit(w[0]) else Low(w, size)
  }

  /** A cell that was blank reads back as the bit moved to it. */
  lemma CellReadBack(fuses: seq<Row>, size: nat, row: nat, offset: nat, args: seq<Word>, i: nat)
    requires size < 64 && row < |fuses| && |args| >= 2 && offset + i < 64 && !fuses[row][offset + i]
    ensures ShrRow(Written(fuses, size, row, offset, args, 1)[row], offset)[i] ==
            RowOfPair(Expand(size, args[0], args[1]))[i]
  {
    assert Written(fuses, size, row, offset, args, 1)[row] == OrRow(fuses[row], Requested(size, offset, args, 0));
  }

  lemma LowSame(v: Word, w: Word, n: nat)
    requires forall i :: 0 <= i < n && i < 32 ==> v[i] == w[i]
    ensures Low(v, n) == Low(w, n)
  {
  }

  /** A field of up to 32 bits written to blank cells at any offset where it fits, across the word
      boundary or not, reads back as written. */
  lemma ShortFieldRoundTrip(fuses: seq<Row>, size: nat, row: nat, offset: nat, args: seq<Word>)
    requires 0 < size <= 32
    requires row < |fuses| && |args| >= 2 && Blank(fuses[row], offset, Width(size))
    ensures ReadField(size, offset, Written(fuses, size, row, offset, args, 1)[row]) ==
            Pair(Meant(size, args[0]), Zero())
  {
    var s := ShrRow(Written(fuses, size, row, offset, args, 1)[row], offset);
    var e := Expand(size, args[0], args[1]);
    forall i | 0 <= i < Width(size)
      ensures Lo(s)[i] == e.lo[i]
    {
      CellReadBack(fuses, size, row, offset, args, i);
    }
    if size == 1 {
      assert Lo(s)[0] == Lo(s)[1] == Lo(s)[2] == args[0][0];
    } else {
      LowSame(Lo(s), args[0], size);
    }
  }

  /** A field of 33 to 63 bits is not cut to its size: written to a row that is blank from its offset on, both
      words read back as written if and only if no bit of them is moved out of the row. */
  lemma MiddleFieldRoundTripIff(fuses: seq<Row>, size: nat, row: nat, offset: nat, args: seq<Word>)
    requires 32 < size < 64 && row < |fuses| && |args| >= 2 && offset <= 64 && Blank(fuses[row], offset, 64 - offset)
    ensures ReadField(size, offset, Written(fuses, size, row, offset, args, 1)[row]) == Pair(args[0], args[1]) <==>
            forall i :: 64 - offset <= i < 64 ==> !RowOf(args[0], args[1])[i]
  {
    var v, s := RowOf(args[0], args[1]), ShrRow(Written(fuses, size, row, offset, args, 1)[row], offset);
    forall i | 0 <= i < 64 - offset
      ensures s[i] == v[i]
    {
      CellReadBack(fuses, size, row, offset, args, i);
    }
    OutOfRow(s, args[0], args[1], offset);
  }

  lemma OutOfRow(s: Row, lo: Word, hi: Word, offset: nat)
    requires offset <= 64 && forall i :: 0 <= i < 64 - offset ==> s[i] == RowOf(lo, hi)[i]
    requires forall i :: 64 - offset <= i < 64 ==> !s[i]
    ensures Pair(Lo(s), Hi(s)) == Pair(lo, hi) <==> forall i :: 64 - offset <= i < 64 ==> !RowOf(lo, hi)[i]
  {
    var v := RowOf(lo, hi);
    Halves(s);
    if forall i :: 64 - offset <= i < 64 ==> !v[i] {
      assert s == v;
      assert Lo(v) == lo && Hi(v) == hi;
    }
  }

  /** A single bit reads back as written even if any one of its three cells is wrong. */
  lemma SingleBitSurvivesOneFault(fuses: seq<Row>, row: nat, offset: nat, args: seq<Word>, cell: nat, wrong: bool)
    requires row < |fuses| && |args| >= 2 && Blank(fuses[row], offset, 3) && cell < 3
    ensures ReadField(1, offset, Written(fuses, 1, row, offset, args, 1)[row][offset + cell := wrong]) ==
            Pair(Bit(args[0][0]), Zero())
  {
    var r := Written(fuses, 1, row, offset, args, 1)[row];
    var e := RowOfPair(Expand(1, args[0], args[1]));
    assert forall i :: 0 <= i < 3 ==> r[offset + i] == e[i] == args[0][0];
    var s := ShrRow(r[offset + cell := wrong], offset);
    assert forall i :: 0 <= i < 3 && i != cell ==> s[i] == r[offset + i];
    assert Lo(s)[0] == s[0] && Lo(s)[1] == s[1] && Lo(s)[2] == s[2];
  }

  /** Whole rows written to blank rows hold exactly the words written. */
  lemma WholeRowsRoundTrip(fuses: seq<Row>, size: nat, row: nat, offset: nat, args: seq<Word>, k: nat)
    requires size >= EFUSE_BITS_IN_ROW && |args| >= 2 * Loops(size) && k < Loops(size)
    requires row + Loops(size) <= |fuses| && Blank(fuses[row + k], 0, 64)
    ensures var r := Written(fuses, size, row, offset, args, Loops(size))[row + k];
      Lo(r) == args[2 * k] && Hi(r) == args[2 * k + 1]
  {
    assert OrRow(fuses[row + k], RowOf(args[2 * k], args[2 * k + 1])) == RowOf(args[2 * k], args[2 * k + 1]);
  }

  /** The cells of the field are blank. */
  predicate BlankField(fuses: seq<Row>, size: nat, row: nat, offset: nat) {
    && row + Loops(size) <= |fuses|
    && (size < EFUSE_BITS_IN_ROW ==> Blank(fuses[row], offset, Width(size)))
    && (size >= EFUSE_BITS_IN_ROW ==> forall r :: row <= r < row + Loops(size) ==> Blank(fuses[r], 0, 64))
  }

  /** The words `out` are what a read of the field returns. */
  predicate IsRead(fuses: seq<Row>, size: nat, row: nat, offset: nat, out: seq<Word>)
    requires |out| >= 2 * Loops(size) && row + Loops(size) <= |fuses|
  {
    && (size < EFUSE_BITS_IN_ROW ==> Pair(out[0], out[1]) == ReadField(size, offset, fuses[row]))
    && (size >= EFUSE_BITS_IN_ROW ==>
          forall k :: 0 <= k < Loops(size) ==> out[2 * k] == Lo(fuses[row + k]) && out[2 * k + 1] == Hi(fuses[row + k]))
  }

  /** The words `out` are the field that the caller asked to write. */
  predicate IsMeant(size: nat, args: seq<Word>, out: seq<Word>)
    requires |args| >= 2 * Loops(size) && |out| >= 2 * Loops(size)
  {
    && (size < EFUSE_BITS_IN_ROW ==> Pair(out[0], out[1]) == Pair(Meant(size, args[0]), Zero()))
    && (size >= EFUSE_BITS_IN_ROW ==>
          forall k :: 0 <= k < Loops(size) ==> out[2 * k] == args[2 * k] && out[2 * k + 1] == args[2 * k + 1])
  }

  /** A field of up to 32 bits or of whole rows written to blank cells reads back as it was meant. */
  lemma FieldRoundTrip(fuses: seq<Row>, size: nat, row: nat, offset: nat, args: seq<Word>, out: seq<Word>)
    requires 0 < size && (size <= 32 || size >= EFUSE_BITS_IN_ROW)
    requires |args| >= 2 * Loops(size) && |out| >= 2 * Loops(size)
    requires BlankField(fuses, size, row, offset)
    requires IsRead(Written(fuses, size, row, offset, args, Loops(size)), size, row, offset, out)
    ensures IsMeant(size, args, out)
  {
    if size < EFUSE_BITS_IN_ROW {
      ShortFieldRoundTrip(fuses, size, row, offset, args);
    } else {
      forall k | 0 <= k < Loops(size)
        ensures out[2 * k] == args[2 * k] && out[2 * k + 1] == args[2 * k + 1]
      {
        assert Blank(fuses[row + k], 0, 64);
        WholeRowsRoundTrip(fuses, size, row, offset, args, k);
      }
    }
  }
}
