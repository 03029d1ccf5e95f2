/** Where printing and setting a property value stop being inverse to each other, and when the parser reads
    past its last argument. */
module FdtLimits {
  import opened Machine
  import opened FdtText
  import opened StrTo

  // ---------------------------------------------------------------- how long numbers are

  /** A number of `m` hexadecimal digits stays one of `m + k` after `k` more digits. */
  lemma {:induction false} ScanBound(s: string, q: nat, base: nat, acc: nat, m: nat)
    requires q <= |s| && base <= 16 && acc < Pow16(m)
    ensures var (v, e) := Scan(s, q, base, acc); v < Pow16(m + (e - q))
    decreases |s| - q
  {
    if q < |s| && 0 <= HexVal(s[q]) < base {
      TimesSixteen(acc, base);
      var next := Push(acc, base, HexVal(s[q]));
      ScanNext(s, q, base, acc, next);
      ScanBound(s, q + 1, base, next, m + 1);
    }
  }

  lemma PowersOf16(k: nat)
    requires k <= 4
    ensures Pow16(k) <= 65536
  {
    assert Pow16(1) == 16 && Pow16(2) == 256 && Pow16(3) == 4096 && Pow16(4) == 65536;
  }

  /** A number written in at most four characters is below 2^16. */
  lemma ShortNumber(s: string, p: nat)
    requires p <= |s| && StrToUl(s, p, 0).1 <= p + 4
    ensures StrToUl(s, p, 0).0 < 65536
  {
    var (b, q) := Prefix(s, p, 0);
    var (v, e) := Scan(s, q, b, 0);
    ScanBound(s, q, b, 0, 0);
    PowersOf16(e - q);
  }

  lemma HighHalfZero(n: nat)
    requires n < 65536
    ensures Be32(n)[0] == 0 && Be32(n)[1] == 0
  {
  }

  // ---------------------------------------------------------------- how much text a value needs

  function TotalFrom(args: seq<string>, i: nat): nat
    decreases |args| - i
  {
    if i >= |args| then 0 else |args[i]| + TotalFrom(args, i + 1)
  }

  /** Characters from argument `i`, position `p` on. */
  function Left(args: seq<string>, i: nat, p: nat): nat
    requires i < |args| && p <= |args[i]|
  {
    |args[i]| - p + TotalFrom(args, i + 1)
  }

  /** Cells that do not start with two zero bytes need more characters than they give bytes. */
  lemma {:induction false} CellsNeedText(args: seq<string>, i: nat, p: nat, acc: seq<Byte>)
    requires i < |args| && p <= |args[i]| && ParseCells(args, i, p, acc).Ok?
    ensures var d := ParseCells(args, i, p, acc).data;
      acc <= d && (NoZeroPair(d) ==> |d| - |acc| <= Left(args, i, p))
    decreases |args| - i, |args[i]| - p
  {
    var s := args[i];
    if At(s, p) == '>' {
    } else if p == |s| {
      CellsNeedText(args, i + 1, 0, acc);
    } else {
      var (v, q) := StrToUl(s, p, 0);
      var acc' := acc + Be32(v);
      CellsNeedText(args, i, SkipSpaces(s, q), acc');
      var d := ParseCells(args, i, p, acc).data;
      assert acc <= d;
      if NoZeroPair(d) {
        LongToken(s, p, v, q, acc, d);
      }
    }
  }

  lemma LongToken(s: string, p: nat, v: nat, q: nat, acc: seq<Byte>, d: seq<Byte>)
    requires p <= |s| && StrToUl(s, p, 0) == (v, q) && acc + Be32(v) <= d && NoZeroPair(d)
    ensures q >= p + 5
  {
    assert d[|acc|] == Be32(v)[0] && d[|acc| + 1] == Be32(v)[1];
    if q <= p + 4 {
      ShortNumber(s, p);
      HighHalfZero(v);
    }
  }

  lemma {:induction false} BytesNeedText(args: seq<string>, i: nat, p: nat, acc: seq<Byte>)
    requires i < |args| && p <= |args[i]| && ParseBytes(args, i, p, acc).Ok?
    ensures |ParseBytes(args, i, p, acc).data| - |acc| <= Left(args, i, p)
    decreases |args| - i, |args[i]| - p
  {
    var s := args[i];
    if At(s, p) != ']' {
      var p' := SkipSpaces(s, p);
      if p' == |s| {
        BytesNeedText(args, i + 1, 0, acc);
      } else if IsXDigit(s[p']) {
        var (v, q) := StrToUl(s, p', 16);
        BytesNeedText(args, i, q, acc + [Low8(v)]);
      }
    }
  }

  lemma {:induction false} StringsLength(args: seq<string>, i: nat)
    requires i <= |args|
    ensures |ParseStrings(args[i..])| == TotalFrom(args, i) + |args| - i
    decreases |args| - i
  {
    if i < |args| {
      StringsLength(args, i + 1);
      assert args[i..][1..] == args[i + 1..];
    }
  }

  /** A value whose first string opens a bracket is longer than anything its strings can be read as. */
  lemma BracketLosesBytes(v: seq<Byte>)
    requires v != [] && (v[0] == '<' as int || v[0] == '[' as int) && NoZeroPair(v)
    ensures |Pieces(v, 0)| > 0 && ParseProp(Pieces(v, 0)) != Ok(v)
  {
    var args := Pieces(v, 0);
    var first := Chars(v[0..StringEnd(v, 0)]);
    assert args[0] == first && first[0] == v[0] as char;
    PiecesParse(v, 0);
    StringsLength(args, 0);
    assert args[0..] == args && v[0..] == v;
    assert |v| + |Missing(v)| == TotalFrom(args, 0) + |args|;
    if ParseProp(args) == Ok(v) {
      if first[0] == '<' {
        CellsNeedText(args, 0, 1, []);
      } else {
        BytesNeedText(args, 0, 1, []);
      }
    }
  }

  /** Strings of which the first opens no bracket are read as strings. */
  lemma PlainStringsParse(v: seq<Byte>)
    requires v != [] && v[0] != '<' as int && v[0] != '[' as int
    ensures |Pieces(v, 0)| > 0 && ParseProp(Pieces(v, 0)) == Ok(v + Missing(v))
  {
    PiecesParse(v, 0);
    assert v[0..] == v;
    var first := Chars(v[0..StringEnd(v, 0)]);
    assert Pieces(v, 0)[0] == first;
    assert first != "" ==> first[0] == v[0] as char;
    assert At(first, 0) != '<' && At(first, 0) != '[';
  }

  /** A value that prints as quoted strings is read back from those strings if and only if it ends in a
      terminator and its first string does not open a bracket. */
  lemma PrintedStringsParseIff(v: seq<Byte>, after: Byte, pointer: string)
    requires PrintableString(v, after)
    ensures Text(v, after, pointer) == "\"" + QuotedList(Pieces(v, 0), true)
    ensures |Pieces(v, 0)| > 0
    ensures ParseProp(Pieces(v, 0)) == Ok(v) <==> v[|v| - 1] == 0 && v[0] != '<' as int && v[0] != '[' as int
  {
    StringsAreQuoted(v, 0);
    if v[0] == '<' as int || v[0] == '[' as int {
      BracketLosesBytes(v);
    } else {
      PlainStringsParse(v);
      assert v[|v| - 1] != 0 ==> |v + Missing(v)| != |v|;
    }
  }

  /** The string "<1>" is set as one cell. */
  lemma BracketedString()
    ensures var v: seq<Byte> := ['<' as int, '1' as int, '>' as int, 0];
      PrintableString(v, 0) && |Pieces(v, 0)| > 0 && ParseProp(Pieces(v, 0)) != Ok(v)
  {
    var v: seq<Byte> := ['<' as int, '1' as int, '>' as int, 0];
    PrintedStringsParseIff(v, 0, "");
  }

  // ---------------------------------------------------------------- the numbers of an argument

  /** Where the run of numbers that starts at position `p` of an argument stops: a number starts with a decimal
      digit, and spaces may follow it. */
  function CellStop(s: string, p: nat): (q: nat)
    requires p <= |s|
    ensures p <= q <= |s|
    decreases |s| - p
  {
    if p < |s| && '0' <= s[p] <= '9' then
      CellConverts(s, p);
      CellStop(s, SkipSpaces(s, StrToUl(s, p, 0).1))
    else p
  }

  /** How many numbers that run has. */
  function CellCount(s: string, p: nat): nat
    requires p <= |s|
    decreases |s| - p
  {
    if p < |s| && '0' <= s[p] <= '9' then
      CellConverts(s, p);
      1 + CellCount(s, SkipSpaces(s, StrToUl(s, p, 0).1))
    else 0
  }

  /** A cell converts if and only if it starts with a decimal digit. */
  lemma CellConverts(s: string, p: nat)
    requires p < |s|
    ensures StrToUl(s, p, 0).1 > p <==> '0' <= s[p] <= '9'
  {
  }

  /** The same for the bytes of an argument: spaces may stand before a number, and numbers are hexadecimal. */
  function ByteStop(s: string, p: nat): (q: nat)
    requires p <= |s|
    ensures p <= q <= |s|
    decreases |s| - p
  {
    var p' := SkipSpaces(s, p);
    if p' < |s| && IsXDigit(s[p']) then
      DigitAdvances(s, p');
      ByteStop(s, StrToUl(s, p', 16).1)
    else p'
  }

  function ByteCount(s: string, p: nat): nat
    requires p <= |s|
    decreases |s| - p
  {
    var p' := SkipSpaces(s, p);
    if p' < |s| && IsXDigit(s[p']) then
      DigitAdvances(s, p');
      1 + ByteCount(s, StrToUl(s, p', 16).1)
    else 0
  }

  // ---------------------------------------------------------------- reading past the last argument

  /** Nothing but numbers from argument `i`, position `p` on. */
  predicate OnlyCells(args: seq<string>, i: nat, p: nat)
    requires i < |args| && p <= |args[i]|
  {
    CellStop(args[i], p) == |args[i]| && forall k :: i < k < |args| ==> CellStop(args[k], 0) == |args[k]|
  }

  predicate OnlyBytes(args: seq<string>, i: nat, p: nat)
    requires i < |args| && p <= |args[i]|
  {
    ByteStop(args[i], p) == |args[i]| && forall k :: i < k < |args| ==> ByteStop(args[k], 0) == |args[k]|
  }

  lemma {:induction false} CellsFaultIff(args: seq<string>, i: nat, p: nat, acc: seq<Byte>)
    requires i < |args| && p <= |args[i]|
    ensures ParseCells(args, i, p, acc).Fault? <==> OnlyCells(args, i, p)
    decreases |args| - i, |args[i]| - p
  {
    var s := args[i];
    if p == |s| {
      if i + 1 < |args| {
        CellsFaultIff(args, i + 1, 0, acc);
      }
    } else {
      CellConverts(s, p);
      if '0' <= s[p] <= '9' {
        var (v, q) := StrToUl(s, p, 0);
        CellsFaultIff(args, i, SkipSpaces(s, q), acc + Be32(v));
      }
    }
  }

  lemma {:induction false} BytesFaultIff(args: seq<string>, i: nat, p: nat, acc: seq<Byte>)
    requires i < |args| && p <= |args[i]|
    ensures ParseBytes(args, i, p, acc).Fault? <==> OnlyBytes(args, i, p)
    decreases |args| - i, |args[i]| - p
  {
    var s := args[i];
    var p' := SkipSpaces(s, p);
    if At(s, p) == ']' {
    } else if p' == |s| {
      if i + 1 < |args| {
        BytesFaultIff(args, i + 1, 0, acc);
      }
    } else if IsXDigit(s[p']) {
      DigitAdvances(s, p');
      var (v, q) := StrToUl(s, p', 16);
      BytesFaultIff(args, i, q, acc + [Low8(v)]);
    }
  }

  /** The parser reads past the last argument if and only if the arguments open a bracket and after it there
      is nothing but numbers: no closing bracket and nothing else. */
  lemma FaultIff(args: seq<string>)
    requires args != []
    ensures ParseProp(args).Fault? <==>
            || (At(args[0], 0) == '<' && OnlyCells(args, 0, 1))
            || (At(args[0], 0) == '[' && OnlyBytes(args, 0, 1))
  {
    if At(args[0], 0) == '<' {
      CellsFaultIff(args, 0, 1, []);
    } else if At(args[0], 0) == '[' {
      BytesFaultIff(args, 0, 1, []);
    }
  }

  /** A list of cells without its closing bracket. */
  lemma UnclosedCells()
    ensures ParseProp(["<1"]).Fault?
  {
    var s := "<1";
    ScanEnds(s, 2, 10, 1);
    assert Scan(s, 1, 10, 0) == (1, 2);
    assert StrToUl(s, 1, 0) == (1, 2);
    assert ParseCells([s], 0, 2, Be32(1)).Fault?;
  }

  // ---------------------------------------------------------------- room for the result

  /** Bytes of the buffer that `fdt set` parses into. */
  const SCRATCHPAD: int := 1024

  /** Cells that are stored from argument `i`, position `p` on: one for each number up to the first character
      that starts none, and one more if that is not the closing bracket, because a cell is stored before its
      conversion is looked at. */
  function CellsStored(args: seq<string>, i: nat, p: nat): nat
    requires i < |args| && p <= |args[i]|
    decreases |args| - i
  {
    var s, q := args[i], CellStop(args[i], p);
    CellCount(s, p) +
    if q < |s| then if s[q] == '>' then 0 else 1
    else if i + 1 < |args| then CellsStored(args, i + 1, 0) else 0
  }

  /** Bytes that are stored from argument `i`, position `p` on. */
  function BytesStored(args: seq<string>, i: nat, p: nat): nat
    requires i < |args| && p <= |args[i]|
    decreases |args| - i
  {
    ByteCount(args[i], p) +
    if ByteStop(args[i], p) == |args[i]| && i + 1 < |args| then BytesStored(args, i + 1, 0) else 0
  }

  /** Bytes that one call stores. */
  function Stored(args: seq<string>): nat
    requires |args| > 0
  {
    if At(args[0], 0) == '<' then 4 * CellsStored(args, 0, 1)
    else if At(args[0], 0) == '[' then BytesStored(args, 0, 1)
    else TotalFrom(args, 0) + |args|
  }

  lemma {:induction false} CellsLength(args: seq<string>, i: nat, p: nat, acc: seq<Byte>)
    requires i < |args| && p <= |args[i]| && ParseCells(args, i, p, acc).Ok?
    ensures |ParseCells(args, i, p, acc).data| == |acc| + 4 * CellsStored(args, i, p)
    decreases |args| - i, |args[i]| - p
  {
    var s := args[i];
    if At(s, p) == '>' {
    } else if p == |s| {
      CellsLength(args, i + 1, 0, acc);
    } else {
      CellConverts(s, p);
      var (v, q) := StrToUl(s, p, 0);
      CellsLength(args, i, SkipSpaces(s, q), acc + Be32(v));
    }
  }

  lemma {:induction false} BytesLength(args: seq<string>, i: nat, p: nat, acc: seq<Byte>)
    requires i < |args| && p <= |args[i]| && ParseBytes(args, i, p, acc).Ok?
    ensures |ParseBytes(args, i, p, acc).data| == |acc| + BytesStored(args, i, p)
    decreases |args| - i, |args[i]| - p
  {
    var s := args[i];
    var p' := SkipSpaces(s, p);
    if At(s, p) == ']' {
    } else if p' == |s| {
      BytesLength(args, i + 1, 0, acc);
    } else if IsXDigit(s[p']) {
      DigitAdvances(s, p');
      var (v, q) := StrToUl(s, p', 16);
      BytesLength(args, i, q, acc + [Low8(v)]);
    }
  }

  /** An accepted value has as many bytes as the arguments have numbers of its kind, or characters and
      terminators; it is longer than the buffer if and only if there are too many of those. */
  lemma StoredIsLength(args: seq<string>)
    requires |args| > 0 && ParseProp(args).Ok?
    ensures |ParseProp(args).data| == Stored(args)
    ensures |ParseProp(args).data| > SCRATCHPAD <==> Stored(args) > SCRATCHPAD
  {
    if At(args[0], 0) == '<' {
      CellsLength(args, 0, 1, []);
    } else if At(args[0], 0) == '[' {
      BytesLength(args, 0, 1, []);
    } else {
      StringsLength(args, 0);
      assert args[0..] == args;
    }
  }

  /** A string of as many characters as the buffer has bytes does not fit with its terminator. */
  lemma LongString() returns (args: seq<string>)
    ensures |args| == 1 && |args[0]| == SCRATCHPAD
    ensures ParseProp(args).Ok? && |ParseProp(args).data| > SCRATCHPAD
  {
    args := [seq(SCRATCHPAD, k => 'a')];
    StoredIsLength(args);
  }
}
