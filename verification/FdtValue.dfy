/** The property commands of `fdt`: the loops that print a value and parse one from arguments. */
module FdtValue {
  import opened Machine
  import opened FdtText
  import opened StrTo
  import opened FdtLimits

  method SkipBlanks(s: string, p: nat) returns (q: nat)
    requires p <= |s|
    ensures q == SkipSpaces(s, p)
  {
    q := p;
    while At(s, q) == ' '
      invariant q <= |s| && SkipSpaces(s, p) == SkipSpaces(s, q)
      decreases |s| - q
    {
      q := q + 1;
    }
  }

  /** The cell branch of `fdt_parse_prop`, after the opening bracket. */
  method CellValue(args: seq<string>) returns (r: Outcome, len: nat)
    requires |args| > 0 && |args[0]| > 0
    ensures r == ParseCells(args, 0, 1, []) && len == 4 * CellsStored(args, 0, 1)
  {
    var stridx: nat, newp: nat, data: seq<Byte> := 0, 1, [];
    len := 0;
    while At(args[stridx], newp) != '>'
      invariant stridx < |args| && newp <= |args[stridx]|
      invariant ParseCells(args, 0, 1, []) == ParseCells(args, stridx, newp, data)
      invariant len + 4 * CellsStored(args, stridx, newp) == 4 * CellsStored(args, 0, 1)
      decreases |args| - stridx, |args[stridx]| - newp
    {
      if newp == |args[stridx]| {
        if stridx + 1 == |args| {
          return Fault, len;
        }
        stridx, newp := stridx + 1, 0;
      } else {
        var tmp, next := SimpleStrToUl(args[stridx], newp, 0);
        CellConverts(args[stridx], newp);
        data, len := data + Be32(tmp), len + 4;
        if next == newp {
          return Bad, len;
        }
        newp := SkipBlanks(args[stridx], next);
      }
    }
    r := Ok(data);
  }

  /** The byte branch of `fdt_parse_prop`, after the opening bracket. */
  method ByteValue(args: seq<string>) returns (r: Outcome, len: nat)
    requires |args| > 0 && |args[0]| > 0
    ensures r == ParseBytes(args, 0, 1, []) && len == BytesStored(args, 0, 1)
  {
    var stridx: nat, newp: nat, data: seq<Byte> := 0, 1, [];
    len := 0;
    while At(args[stridx], newp) != ']'
      invariant stridx < |args| && newp <= |args[stridx]|
      invariant ParseBytes(args, 0, 1, []) == ParseBytes(args, stridx, newp, data)
      invariant len + BytesStored(args, stridx, newp) == BytesStored(args, 0, 1)
      decreases |args| - stridx, |args[stridx]| - newp
    {
      var p := SkipBlanks(args[stridx], newp);
      if p == |args[stridx]| {
        if stridx + 1 == |args| {
          return Fault, len;
        }
        stridx, newp := stridx + 1, 0;
      } else if !IsXDigit(args[stridx][p]) {
        return if args[stridx][p] == ']' then Ok(data) else Bad, len;
      } else {
        var tmp, next := SimpleStrToUl(args[stridx], p, 16);
        DigitAdvances(args[stridx], p);
        data, len := data + [Low8(tmp)], len + 1;
        newp := next;
      }
    }
    r := Ok(data);
  }

  method StringValue(args: seq<string>) returns (data: seq<Byte>)
    ensures data == ParseStrings(args)
  {
    var stridx := 0;
    data := [];
    while stridx < |args|
      invariant stridx <= |args|
      invariant data + ParseStrings(args[stridx..]) == ParseStrings(args)
    {
      assert args[stridx..][1..] == args[stridx + 1..];
      data := data + BytesOf(args[stridx]) + [0];
      stridx := stridx + 1;
    }
    assert args[stridx..] == [];
  }

  /** `fdt_parse_prop`: the arguments of one call give the bytes of the property; `len` bytes are stored. */
  method FdtParseProp(args: seq<string>) returns (r: Outcome, len: nat)
    requires |args| > 0
    ensures r == ParseProp(args) && len == Stored(args)
  {
    if At(args[0], 0) == '<' {
      r, len := CellValue(args);
    } else if At(args[0], 0) == '[' {
      r, len := ByteValue(args);
    } else {
      var data := StringValue(args);
      StoredIsLength(args);
      r, len := Ok(data), |data|;
    }
  }

  /** `is_printable_string`; `after` is the byte behind the value in memory. */
  method IsPrintableString(v: seq<Byte>, after: Byte) returns (r: bool)
    ensures r == PrintableString(v, after)
  {
    if |v| == 0 {
      return false;
    }
    if v[|v| - 1] != 0 && v[|v| - 1] != 10 {
      return false;
    }
    var i := 0;
    while i < |v| && Textual(v[i])
      invariant i <= |v|
      invariant forall k :: 0 <= k < i ==> Textual(v[k])
      invariant forall k, m :: 0 <= k < i && m == k + 1 && m < |v| ==> v[k] != 0 || v[m] != 0
      invariant i == |v| ==> v[|v| - 1] == 10
    {
      if v[i] == 0 {
        if i == |v| - 1 {
          return true;
        }
        if v[i + 1] == 0 {
          return false;
        }
      }
      i := i + 1;
    }
    r := i == |v| && after == 0;
  }

  /** `print_data`. */
  method PrintData(v: seq<Byte>, after: Byte, pointer: string) returns (text: string)
    ensures text == Text(v, after, pointer)
  {
    if |v| == 0 {
      return "";
    }
    var printable := IsPrintableString(v, after);
    if printable {
      text := PrintStrings(v);
    } else if |v| > MAX_DUMP {
      text := "* 0x" + pointer + " [0x" + Hex(|v|, 8) + "]";
    } else if |v| % 4 == 0 {
      text := PrintCells(v);
    } else {
      text := PrintBytes(v);
    }
  }

  /** One string, with what separates it from the one before. */
  method PrintPiece(v: seq<Byte>, j: nat) returns (piece: string, e: nat)
    requires j <= |v|
    ensures piece == Piece(v, j) && e == StringEnd(v, j)
  {
    e := j;
    while e < |v| && v[e] != 0
      invariant j <= e <= |v| && StringEnd(v, j) == StringEnd(v, e)
    {
      e := e + 1;
    }
    piece := (if j > 0 then "\", \"" else "") + Chars(v[j..e]);
  }

  method PrintStrings(v: seq<Byte>) returns (text: string)
    ensures text == "\"" + StringsFrom(v, 0)
  {
    text := "\"";
    var j := 0;
    ghost var all := text + StringsFrom(v, j);
    while j < |v|
      invariant text + StringsFrom(v, j) == all
      decreases |v| - j
    {
      var piece, e := PrintPiece(v, j);
      StringsNext(text, v, j, piece, e);
      text, j := text + piece, e + 1;
    }
    text := text + "\"";
  }

  method PrintCells(v: seq<Byte>) returns (text: string)
    requires |v| % 4 == 0
    ensures text == "<" + CellsFrom(Words(v), 0)
  {
    text := "<";
    for j := 0 to |v| / 4
      invariant text + CellsFrom(Words(v), j) == "<" + CellsFrom(Words(v), 0)
    {
      text := text + (CellText(Word(v, j)) + if j < |v| / 4 - 1 then " " else "");
    }
    text := text + ">";
  }

  method PrintBytes(v: seq<Byte>) returns (text: string)
    ensures text == "[" + BytesFrom(v, 0)
  {
    text := "[";
    for j := 0 to |v|
      invariant text + BytesFrom(v, j) == "[" + BytesFrom(v, 0)
    {
      text := text + (Hex(v[j], 2) + if j < |v| - 1 then " " else "");
    }
    text := text + "]";
  }
}
