/** Property values of a device tree as text: how `fdt print` writes them and `fdt set` reads them.
    Cells are big-endian 32-bit words, as in section 2.2.4 of the Devicetree Specification. */
module FdtText {
  import opened Machine
  import opened StrTo

  const MAX_DUMP: int := 64

  // ---------------------------------------------------------------- cells and bytes

  function Word(v: seq<Byte>, j: nat): (w: nat)
    requires 4 * j + 4 <= |v|
    ensures w < TWO_32
  {
    var a: int, b: int, c: int, d: int := v[4 * j], v[4 * j + 1], v[4 * j + 2], v[4 * j + 3];
    a * 0x100_0000 + b * 0x1_0000 + c * 0x100 + d
  }

  /** `cpu_to_fdt32`: the low 32 bits, most significant byte first. */
  function Be32(n: nat): (b: seq<Byte>)
    ensures |b| == 4
  {
    [(n / 0x100_0000) % 256, (n / 0x1_0000) % 256, (n / 0x100) % 256, n % 256]
  }

  lemma LowByte(n: nat, d: nat)
    requires d < 256
    ensures (256 * n + d) / 256 == n && (256 * n + d) % 256 == d
  {
  }

  /** The stored bytes of a number below 2^32 are the number. */
  lemma Be32Value(n: nat)
    requires n < TWO_32
    ensures Word(Be32(n), 0) == n
  {
    LowByte(n / 256, n % 256);
    LowByte(n / 0x1_0000, n / 256 % 256);
    assert n / 256 / 256 == n / 0x1_0000 && n / 0x1_0000 / 256 == n / 0x100_0000;
    assert n / 0x100_0000 < 256;
  }

  lemma WordBytes(v: seq<Byte>, j: nat)
    requires 4 * j + 4 <= |v|
    ensures Be32(Word(v, j)) == v[4 * j..4 * j + 4]
  {
    var a: nat, b: nat, c: nat, d: nat := v[4 * j], v[4 * j + 1], v[4 * j + 2], v[4 * j + 3];
    var ab: nat, abc: nat, w := 256 * a + b, 256 * (256 * a + b) + c, Word(v, j);
    LowByte(abc, d);
    LowByte(ab, c);
    LowByte(a, b);
    assert w == 256 * abc + d && w / 256 == abc && abc / 256 == ab && ab / 256 == a;
    assert w / 0x1_0000 == ab && w / 0x100_0000 == a;
  }

  /** Ways to write a cell: a number in decimal, octal or hexadecimal, or a word as it is printed. */
  datatype Numeral = Decimal(n: nat) | Octal(n: nat) | Hexadecimal(n: nat) | Printed(n: nat)

  predicate IsNumeral(m: Numeral) {
    m.Printed? ==> m.n < TWO_32
  }

  function NumeralText(m: Numeral): (t: string)
    ensures t != ""
  {
    match m
    case Decimal(n) => Digits(n, 10)
    case Octal(n) => "0" + Digits(n, 8)
    case Hexadecimal(n) => "0x" + Digits(n, 16)
    case Printed(n) => CellText(n)
  }

  /** The cells of a value, as they are printed. */
  function Words(v: seq<Byte>): (ws: seq<Numeral>)
    ensures |ws| == |v| / 4
  {
    seq(|v| / 4, j requires 0 <= j < |v| / 4 => Printed(Word(v, j)))
  }

  predicate AreCells(ws: seq<Numeral>) {
    forall j :: 0 <= j < |ws| ==> IsNumeral(ws[j])
  }

  /** The cells from number `j` on, in memory: the low 32 bits of each. */
  function Flat(ws: seq<Numeral>, j: nat): seq<Byte>
    decreases |ws| - j
  {
    if j >= |ws| then [] else Be32(Wrap64(ws[j].n)) + Flat(ws, j + 1)
  }

  lemma {:induction false} WordsFlat(v: seq<Byte>, j: nat)
    requires |v| % 4 == 0 && j <= |v| / 4
    ensures Flat(Words(v), j) == v[4 * j..]
    decreases |v| - j
  {
    if j < |v| / 4 {
      WordsFlat(v, j + 1);
      WordBytes(v, j);
      assert v[4 * j..] == v[4 * j..4 * j + 4] + v[4 * (j + 1)..];
    }
  }

  function CellText(w: nat): (t: string)
    ensures |t| == 10
  {
    "0x" + Hex(w, 8)
  }

  /** Text of the cells from number `j` on, with the closing bracket. */
  function CellsFrom(ws: seq<Numeral>, j: nat): string
    decreases |ws| - j
  {
    if j >= |ws| then ">"
    else NumeralText(ws[j]) + (if j + 1 < |ws| then " " else "") + CellsFrom(ws, j + 1)
  }

  /** Text of the bytes from number `j` on, with the closing bracket. */
  function BytesFrom(v: seq<Byte>, j: nat): string
    requires j <= |v|
    decreases |v| - j
  {
    if j == |v| then "]"
    else Hex(v[j], 2) + (if j + 1 < |v| then " " else "") + BytesFrom(v, j + 1)
  }

  // ---------------------------------------------------------------- arguments

  /** Arguments with a space between each two, from argument `i`, position `p` on. */
  function Joined(args: seq<string>, i: nat, p: nat): string
    requires i < |args| && p <= |args[i]|
    decreases |args| - i
  {
    args[i][p..] + if i + 1 < |args| then " " + Joined(args, i + 1, 0) else ""
  }

  /** A space-free beginning of the joined text lies in one argument. */
  lemma TokenInArgument(args: seq<string>, i: nat, p: nat, token: string, rest: string)
    requires i < |args| && p <= |args[i]| && Joined(args, i, p) == token + rest
    requires forall k :: 0 <= k < |token| ==> token[k] != ' '
    ensures p + |token| <= |args[i]| && args[i][p..p + |token|] == token && Joined(args, i, p + |token|) == rest
  {
    var s, n := args[i], |token|;
    var tail := if i + 1 < |args| then " " + Joined(args, i + 1, 0) else "";
    var all := s[p..] + tail;
    assert all == token + rest;
    assert tail != "" ==> all[|s| - p] == ' ';
    assert forall k :: 0 <= k < n ==> all[k] == token[k];
    assert all[..n] == s[p..p + n] && all[..n] == token;
    assert all[n..] == s[p + n..] + tail && all[n..] == rest;
  }

  datatype Outcome = Ok(data: seq<Byte>) | Bad | Fault

  function SkipSpaces(s: string, p: nat): (q: nat)
    requires p <= |s|
    ensures p <= q <= |s| && (q < |s| ==> s[q] != ' ')
    decreases |s| - p
  {
    if p < |s| && s[p] == ' ' then SkipSpaces(s, p + 1) else p
  }

  /** The cell loop. Running out of arguments makes it read past the last one. */
  function ParseCells(args: seq<string>, i: nat, p: nat, acc: seq<Byte>): Outcome
    requires i < |args| && p <= |args[i]|
    decreases |args| - i, |args[i]| - p
  {
    var s := args[i];
    if At(s, p) == '>' then Ok(acc)
    else if p == |s| then if i + 1 < |args| then ParseCells(args, i + 1, 0, acc) else Fault
    else
      var (v, q) := StrToUl(s, p, 0);
      if q == p then Bad else ParseCells(args, i, SkipSpaces(s, q), acc + Be32(v))
  }

  /** `& 0xFF`. */
  function Low8(n: nat): Byte {
    if n < 256 then n else n % 256
  }

  /** The byte loop. */
  function ParseBytes(args: seq<string>, i: nat, p: nat, acc: seq<Byte>): Outcome
    requires i < |args| && p <= |args[i]|
    decreases |args| - i, |args[i]| - p
  {
    var s := args[i];
    if At(s, p) == ']' then Ok(acc)
    else
      var p' := SkipSpaces(s, p);
      if p' == |s| then if i + 1 < |args| then ParseBytes(args, i + 1, 0, acc) else Fault
      else if !IsXDigit(s[p']) then if s[p'] == ']' then Ok(acc) else Bad
      else
        var (v, q) := StrToUl(s, p', 16);
        if q == p' then Bad else ParseBytes(args, i, q, acc + [Low8(v)])
  }

  /** The string case: every argument with its terminator. */
  function ParseStrings(args: seq<string>): seq<Byte> {
    if args == [] then [] else BytesOf(args[0]) + [0] + ParseStrings(args[1..])
  }

  function BytesOf(s: string): seq<Byte> {
    seq(|s|, k requires 0 <= k < |s| => s[k] as int % 256)
  }

  /** `fdt_parse_prop`. */
  function ParseProp(args: seq<string>): Outcome
    requires |args| > 0
  {
    if At(args[0], 0) == '<' then ParseCells(args, 0, 1, [])
    else if At(args[0], 0) == '[' then ParseBytes(args, 0, 1, [])
    else Ok(ParseStrings(args))
  }

  // ---------------------------------------------------------------- printing

  predicate IsPrint(b: Byte) {
    32 <= b <= 126 || 160 <= b
  }

  predicate IsSpace(b: Byte) {
    9 <= b <= 13 || b == 32 || b == 160
  }

  predicate Textual(b: Byte) {
    b == 0 || IsPrint(b) || IsSpace(b)
  }

  /** What counts as text: terminators, white space, ASCII from the space to the tilde, and the upper part of
      Latin-1. */
  lemma TextualIff(b: Byte)
    ensures Textual(b) <==> b == 0 || 9 <= b <= 13 || 32 <= b <= 126 || 160 <= b <= 255
  {
  }

  /** No two zero bytes follow each other. */
  ghost predicate NoZeroPair(v: seq<Byte>) {
    forall k, m :: 0 <= k && m == k + 1 && m < |v| ==> v[k] != 0 || v[m] != 0
  }

  /** One or more strings: only text, no empty string after the first character, and an end that is a
      terminator, or a newline with a zero byte after the value in memory. */
  ghost predicate PrintableString(v: seq<Byte>, after: Byte) {
    && |v| > 0
    && (v[|v| - 1] == 0 || (v[|v| - 1] == 10 && after == 0))
    && (forall k :: 0 <= k < |v| ==> Textual(v[k]))
    && NoZeroPair(v)
  }

  function StringEnd(v: seq<Byte>, j: nat): (e: nat)
    requires j <= |v|
    ensures j <= e <= |v| && (e < |v| ==> v[e] == 0) && forall k :: j <= k < e ==> v[k] != 0
    decreases |v| - j
  {
    if j == |v| || v[j] == 0 then j else StringEnd(v, j + 1)
  }

  function Chars(b: seq<Byte>): string {
    seq(|b|, k requires 0 <= k < |b| => b[k] as char)
  }

  /** The strings of a value from byte `j` on. */
  function Pieces(v: seq<Byte>, j: nat): seq<string>
    decreases |v| - j
  {
    if j >= |v| then [] else [Chars(v[j..StringEnd(v, j)])] + Pieces(v, StringEnd(v, j) + 1)
  }

  /** The string at byte `j` with what is printed before it. */
  function Piece(v: seq<Byte>, j: nat): string
    requires j <= |v|
  {
    (if j > 0 then "\", \"" else "") + Chars(v[j..StringEnd(v, j)])
  }

  /** Text of the strings from byte `j` on, with the closing quote. */
  function StringsFrom(v: seq<Byte>, j: nat): string
    decreases |v| - j
  {
    if j >= |v| then "\"" else Piece(v, j) + StringsFrom(v, StringEnd(v, j) + 1)
  }

  lemma Associates(a: string, b: string, c: string)
    ensures a + (b + c) == a + b + c
  {
  }

  /** One turn of the string loop. */
  lemma StringsNext(text: string, v: seq<Byte>, j: nat, piece: string, e: nat)
    requires j < |v| && piece == Piece(v, j) && e == StringEnd(v, j)
    ensures text + StringsFrom(v, j) == text + piece + StringsFrom(v, e + 1)
  {
    Associates(text, piece, StringsFrom(v, e + 1));
  }

  /** Strings in quotes, with commas between them, after the first opening quote. */
  function QuotedList(strings: seq<string>, first: bool): string {
    if strings == [] then "\""
    else (if first then "" else "\", \"") + strings[0] + QuotedList(strings[1..], false)
  }

  lemma {:induction false} StringsAreQuoted(v: seq<Byte>, j: nat)
    ensures StringsFrom(v, j) == QuotedList(Pieces(v, j), j == 0)
    decreases |v| - j
  {
    if j < |v| {
      StringsAreQuoted(v, StringEnd(v, j) + 1);
      assert Pieces(v, j)[1..] == Pieces(v, StringEnd(v, j) + 1);
    }
  }

  /** `print_data`; `pointer` is the address as `%p` shows it. */
  ghost function Text(v: seq<Byte>, after: Byte, pointer: string): string {
    if v == [] then ""
    else if PrintableString(v, after) then "\"" + StringsFrom(v, 0)
    else if |v| > MAX_DUMP then "* 0x" + pointer + " [0x" + Hex(|v|, 8) + "]"
    else if |v| % 4 == 0 then "<" + CellsFrom(Words(v), 0)
    else "[" + BytesFrom(v, 0)
  }

  // ---------------------------------------------------------------- what is printed

  lemma TailSlice(a: string, b: string, i: nat, j: nat)
    requires i <= j <= |b|
    ensures (a + b)[|a| + i..|a| + j] == b[i..j]
  {
  }

  predicate AllPrinted(ws: seq<Numeral>) {
    forall j :: 0 <= j < |ws| ==> ws[j].Printed?
  }

  /** The text of the cells from number `k` on: the cell, one character, and the cells behind it. */
  lemma CellsNext(ws: seq<Numeral>, k: nat) returns (head: string, rest: string)
    requires k < |ws| && AllPrinted(ws)
    ensures |head| == 11 && head[..10] == CellText(ws[k].n) && CellsFrom(ws, k) == head + rest
    ensures rest == if k + 1 < |ws| then CellsFrom(ws, k + 1) else ""
  {
    var cell := CellText(ws[k].n);
    assert NumeralText(ws[k]) == cell;
    if k + 1 < |ws| {
      head, rest := cell + " ", CellsFrom(ws, k + 1);
    } else {
      head, rest := cell + ">", "";
      assert cell + "" == cell && head + "" == head;
    }
    assert head[..10] == cell;
  }

  /** A piece of the text behind the first 11 characters. */
  lemma LaterPiece(t: string, head: string, rest: string, i: nat)
    requires t == head + rest && |head| == 11 && i + 10 <= |rest|
    ensures t[11 + i..11 + i + 10] == rest[i..i + 10]
  {
    TailSlice(head, rest, i, i + 10);
  }

  lemma FirstPiece(t: string, head: string, rest: string)
    requires t == head + rest && |head| == 11
    ensures t[..10] == head[..10]
  {
  }

  lemma {:induction false} CellsSize(ws: seq<Numeral>, k: nat)
    requires k < |ws| && AllPrinted(ws)
    ensures |CellsFrom(ws, k)| == 11 * (|ws| - k)
    decreases |ws| - k
  {
    var head, rest := CellsNext(ws, k);
    if k + 1 < |ws| {
      CellsSize(ws, k + 1);
    }
  }

  /** Cell `j` of the text from number `k` on is at a fixed place. */
  lemma {:induction false} CellPlace(ws: seq<Numeral>, k: nat, j: nat, t: string, at: nat)
    requires k <= j < |ws| && AllPrinted(ws) && t == CellsFrom(ws, k) && at == 11 * (j - k)
    ensures at + 10 <= |t| && t[at..at + 10] == CellText(ws[j].n)
    decreases |ws| - k
  {
    var head, rest := CellsNext(ws, k);
    if j == k {
      FirstPiece(t, head, rest);
    } else {
      CellPlace(ws, k + 1, j, rest, at - 11);
      LaterPiece(t, head, rest, at - 11);
    }
  }

  lemma BytesNext(v: seq<Byte>, k: nat) returns (head: string)
    requires k < |v|
    ensures |head| == 3 && head[..2] == Hex(v[k], 2)
    ensures BytesFrom(v, k) == if k + 1 < |v| then head + BytesFrom(v, k + 1) else head
  {
    var b := Hex(v[k], 2);
    if k + 1 < |v| {
      head := b + " ";
    } else {
      head := b + "]";
      assert b + "" == b;
    }
    assert head[..2] == b;
  }

  lemma {:induction false} BytePlace(v: seq<Byte>, k: nat, j: nat)
    requires k <= j < |v|
    ensures |BytesFrom(v, k)| == 3 * (|v| - k)
    ensures BytesFrom(v, k)[3 * (j - k)..3 * (j - k) + 2] == Hex(v[j], 2)
    decreases |v| - k
  {
    var head := BytesNext(v, k);
    if k + 1 < |v| {
      var rest := BytesFrom(v, k + 1);
      BytePlace(v, k + 1, if j == k then k + 1 else j);
      if j == k {
        assert (head + rest)[..2] == head[..2];
      } else {
        TailSlice(head, rest, 3 * (j - k - 1), 3 * (j - k - 1) + 2);
      }
    }
  }

  lemma WordsPlace(ws: seq<Numeral>, j: nat, t: string)
    requires j < |ws| && AllPrinted(ws) && t == "<" + CellsFrom(ws, 0)
    ensures |t| == 1 + 11 * |ws| && t[1 + 11 * j..1 + (11 * j + 10)] == CellText(ws[j].n)
  {
    CellsSize(ws, 0);
    CellPlace(ws, 0, j, CellsFrom(ws, 0), 11 * j);
    TailSlice("<", CellsFrom(ws, 0), 11 * j, 11 * j + 10);
  }

  /** A value of whole words that is not text prints as one "0x" number of eight digits for each word. */
  lemma WordsForm(v: seq<Byte>, after: Byte, pointer: string, j: nat)
    requires |v| <= 64 && |v| % 4 == 0 && !PrintableString(v, after) && j < |v| / 4
    ensures var t := Text(v, after, pointer);
      |t| == 1 + 11 * (|v| / 4) && t[0] == '<' && t[1 + 11 * j..1 + (11 * j + 10)] == "0x" + Hex(Word(v, j), 8)
  {
    WordsPlace(Words(v), j, Text(v, after, pointer));
    assert Words(v)[j] == Printed(Word(v, j));
  }

  /** Any other value that is not text prints as two digits for each byte. */
  lemma BytesForm(v: seq<Byte>, after: Byte, pointer: string, j: nat)
    requires |v| <= 64 && |v| % 4 != 0 && !PrintableString(v, after) && j < |v|
    ensures var t := Text(v, after, pointer);
      |t| == 1 + 3 * |v| && t[0] == '[' && t[1 + 3 * j..1 + (3 * j + 2)] == Hex(v[j], 2)
  {
    BytePlace(v, 0, j);
    TailSlice("[", BytesFrom(v, 0), 3 * j, 3 * j + 2);
  }

  /** A value of more than 64 bytes that is not text is not printed: the text gives its address and, as a number
      that converts back, its length. */
  lemma LongValueForm(v: seq<Byte>, after: Byte, pointer: string)
    requires 64 < |v| < TWO_32 && !PrintableString(v, after)
    ensures var t, p := Text(v, after, pointer), 6 + |pointer|;
      && |t| == p + 11 && t[..4] == "* 0x" && t[4..4 + |pointer|] == pointer
      && t[p - 2..p] == " [" && t[p + 10] == ']'
      && StrToUl(t, p, 0) == (|v|, p + 10)
  {
    var t, p, d := Text(v, after, pointer), 6 + |pointer|, Hex(|v|, 8);
    assert t == "* 0x" + pointer + " [" + ("0x" + d) + "]";
    assert t[p..p + 10] == "0x" + d;
    CellToken(t, p, |v|, d);
  }

  // ---------------------------------------------------------------- tokens

  lemma EightDigits()
    ensures Pow16(8) == TWO_32
  {
    assert Pow16(4) == 0x1_0000;
  }

  /** A number is what its digits scan to. */
  lemma NumberIs(s: string, p: nat, base: nat, b: nat, q: nat, v: nat, e: nat)
    requires p <= |s| && Prefix(s, p, base) == (b, q) && Scan(s, q, b, 0) == (v, e) && v < TWO_64
    ensures StrToUl(s, p, base) == (v, e)
  {
  }

  /** A printed number with its prefix converts back, whatever ends it. */
  lemma NumberToken(s: string, p: nat, w: nat, width: nat)
    requires 0 < width && p + 2 + width <= |s| && !IsXDigit(At(s, p + 2 + width))
    requires s[p] == '0' && s[p + 1] == 'x' && s[p + 2..p + 2 + width] == Hex(w, width)
    requires w < Pow16(width) && w < TWO_32
    ensures StrToUl(s, p, 0) == (w, p + 2 + width)
  {
    HexChars(w, width, 0);
    assert s[p + 2] == s[p + 2..p + 2 + width][0];
    ScanHex(s, p + 2, w, width);
    ScanEnds(s, p + 2 + width, 16, w);
    NumberIs(s, p, 0, 16, p + 2, w, p + 2 + width);
  }

  /** A printed cell converts back, whatever ends it. */
  lemma CellToken(s: string, p: nat, w: nat, t: string)
    requires w < TWO_32 && p + 10 <= |s| && t == Hex(w, 8) && s[p..p + 10] == "0x" + t && !IsXDigit(At(s, p + 10))
    ensures s[p] == '0' && StrToUl(s, p, 0) == (w, p + 10)
  {
    EightDigits();
    var c := s[p..p + 10];
    assert s[p] == c[0] && s[p + 1] == c[1];
    assert s[p + 2..p + 2 + 8] == c[2..] == t;
    NumberToken(s, p, w, 8);
  }

  /** Ends a number in any notation. */
  predicate Stops(c: char) {
    !IsXDigit(c) && c != 'x'
  }

  lemma OctalConverts(s: string, p: nat, n: nat, q: nat)
    requires q == p + 1 + |Digits(n, 8)| <= |s| && s[p] == '0' && s[p + 1..q] == Digits(n, 8) && Stops(At(s, q))
    ensures StrToUl(s, p, 0) == (Wrap64(n), q)
  {
    DigitsChars(n, 8, 0);
    assert s[p + 1] == s[p + 1..q][0];
    ScanDigitsOf(s, p + 1, n, 8, q);
    ScanStops(s, q, 8, n);
  }

  lemma HexadecimalConverts(s: string, p: nat, n: nat, q: nat)
    requires q == p + 2 + |Digits(n, 16)| <= |s| && s[p] == '0' && s[p + 1] == 'x'
    requires s[p + 2..q] == Digits(n, 16) && Stops(At(s, q))
    ensures StrToUl(s, p, 0) == (Wrap64(n), q)
  {
    DigitsChars(n, 16, 0);
    assert s[p + 2] == s[p + 2..q][0];
    ScanDigitsOf(s, p + 2, n, 16, q);
    ScanStops(s, q, 16, n);
  }

  /** A number converts back from each notation, whatever ends it. */
  lemma NumeralConverts(s: string, p: nat, m: Numeral, q: nat)
    requires IsNumeral(m) && q == p + |NumeralText(m)| <= |s| && s[p..q] == NumeralText(m) && Stops(At(s, q))
    ensures '0' <= s[p] <= '9' && StrToUl(s, p, 0) == (Wrap64(m.n), q)
  {
    var t := NumeralText(m);
    assert s[p] == s[p..q][0];
    match m {
      case Decimal(n) =>
        DigitsChars(n, 10, 0);
        if n > 0 {
          DigitsConvert(s, p, n, 10, 0, q);
        } else {
          ScanStops(s, q, 8, 0);
        }
      case Octal(n) =>
        assert s[p + 1..q] == s[p..q][1..];
        OctalConverts(s, p, n, q);
      case Hexadecimal(n) =>
        assert s[p + 2..q] == s[p..q][2..] && s[p + 1] == s[p..q][1];
        HexadecimalConverts(s, p, n, q);
      case Printed(n) =>
        CellToken(s, p, n, Hex(n, 8));
    }
  }

  /** A leading zero adds nothing to a number. */
  lemma ZeroDigit(s: string, p: nat, base: nat, acc: nat)
    requires p < |s| && s[p] == '0' && base > 0 && acc == 0
    ensures Scan(s, p, base, acc) == Scan(s, p + 1, base, acc)
  {
    ScanNext(s, p, base, acc, acc);
  }

  lemma PlainPrefix(s: string, p: nat, base: nat)
    requires p < |s| && At(s, p + 1) != 'x' && base > 0
    ensures Prefix(s, p, base) == (base, if s[p] == '0' then p + 1 else p)
  {
  }

  lemma LeadingZero(s: string, p: nat, base: nat, acc: nat) returns (q: nat)
    requires p < |s| && At(s, p + 1) != 'x' && base > 0 && acc == 0
    ensures Prefix(s, p, base) == (base, q) && Scan(s, q, base, acc) == Scan(s, p, base, acc)
  {
    PlainPrefix(s, p, base);
    q := p;
    if s[p] == '0' {
      q := p + 1;
      ZeroDigit(s, p, base, acc);
    }
  }

  /** A printed byte converts back, whatever ends it. */
  lemma ByteToken(s: string, p: nat, b: Byte, t: string)
    requires p + 2 <= |s| && t == Hex(b, 2) && s[p..p + 2] == t && !IsXDigit(At(s, p + 2))
    ensures IsXDigit(s[p]) && StrToUl(s, p, 16) == (b, p + 2)
  {
    assert s[p] == t[0] && s[p + 1] == t[1];
    HexChars(b, 2, 0);
    HexChars(b, 2, 1);
    assert Pow16(2) == 256;
    ScanHex(s, p, b, 2);
    ScanEnds(s, p + 2, 16, b);
    var q := LeadingZero(s, p, 16, 0);
    NumberIs(s, p, 16, 16, q, b, p + 2);
  }

  /** Where a single space of the joined text is: in this argument, or the cut before the next one. */
  lemma AfterSpace(args: seq<string>, i: nat, q: nat, rest: string)
    requires i < |args| && q <= |args[i]| && Joined(args, i, q) == " " + rest
    requires rest != "" && rest[0] != ' '
    ensures q < |args[i]| ==>
              args[i][q] == ' ' && SkipSpaces(args[i], q) == q + 1 < |args[i]| && Joined(args, i, q + 1) == rest
    ensures q == |args[i]| ==> i + 1 < |args| && Joined(args, i + 1, 0) == rest
  {
    var s := args[i];
    var tail := if i + 1 < |args| then " " + Joined(args, i + 1, 0) else "";
    var all := s[q..] + tail;
    assert all == " " + rest && all[0] == ' ' && all[1] == rest[0] && all[1..] == rest;
    if q < |s| {
      assert s[q] == all[0];
      assert all[1..] == s[q + 1..] + tail;
      assert q + 1 < |s| ==> s[q + 1] == all[1];
      assert tail != "" ==> all[|s| - q] == ' ';
    } else {
      assert all == tail;
    }
  }

  /** First character of the joined text, as the parser sees it. */
  lemma NextChar(args: seq<string>, i: nat, q: nat)
    requires i < |args| && q <= |args[i]| && Joined(args, i, q) != ""
    ensures At(args[i], q) == Joined(args, i, q)[0] || (q == |args[i]| && Joined(args, i, q)[0] == ' ')
  {
  }

  // ---------------------------------------------------------------- round trip

  lemma NumeralHasNoSpace(m: Numeral, k: nat)
    requires k < |NumeralText(m)|
    ensures NumeralText(m)[k] != ' '
  {
    match m {
      case Decimal(n) => DigitsChars(n, 10, k);
      case Octal(n) =>
        if k >= 1 {
          DigitsChars(n, 8, k - 1);
        }
      case Hexadecimal(n) =>
        if k >= 2 {
          DigitsChars(n, 16, k - 2);
        }
      case Printed(n) =>
        if k >= 2 {
          HexChars(n, 8, k - 2);
        }
    }
  }

  lemma NumeralIsToken(m: Numeral)
    ensures forall k :: 0 <= k < |NumeralText(m)| ==> NumeralText(m)[k] != ' '
  {
    forall k | 0 <= k < |NumeralText(m)| ensures NumeralText(m)[k] != ' ' {
      NumeralHasNoSpace(m, k);
    }
  }

  /** A token of the joined text, and what the parser sees behind it. */
  lemma TokenEnds(args: seq<string>, i: nat, p: nat, t: string, q: nat, rest: string)
    requires i < |args| && p <= |args[i]| && q == p + |t| && Joined(args, i, p) == t + rest
    requires (forall k :: 0 <= k < |t| ==> t[k] != ' ') && rest != "" && Stops(rest[0])
    ensures q <= |args[i]| && args[i][p..q] == t && Joined(args, i, q) == rest && Stops(At(args[i], q))
  {
    TokenInArgument(args, i, p, t, rest);
    NextChar(args, i, q);
  }

  lemma CellStep(args: seq<string>, i: nat, p: nat, w: nat, q: nat, acc: seq<Byte>)
    requires i < |args| && p < q <= |args[i]| && args[i][p] != '>' && StrToUl(args[i], p, 0) == (w, q)
    ensures ParseCells(args, i, p, acc) == ParseCells(args, i, SkipSpaces(args[i], q), acc + Be32(w))
  {
    assert At(args[i], p) != '>';
  }

  /** One turn of the cell loop on a number. */
  lemma ReadCell(args: seq<string>, i: nat, p: nat, m: Numeral, q: nat, rest: string, acc: seq<Byte>)
    requires i < |args| && p <= |args[i]| && IsNumeral(m) && q == p + |NumeralText(m)|
    requires rest != "" && Stops(rest[0])
    requires Joined(args, i, p) == NumeralText(m) + rest
    ensures q <= |args[i]| && Joined(args, i, q) == rest
    ensures ParseCells(args, i, p, acc) == ParseCells(args, i, SkipSpaces(args[i], q), acc + Be32(Wrap64(m.n)))
  {
    NumeralIsToken(m);
    TokenEnds(args, i, p, NumeralText(m), q, rest);
    NumeralConverts(args[i], p, m, q);
    CellStep(args, i, p, Wrap64(m.n), q, acc);
  }

  lemma Separated(a: string, sep: string, c: string)
    ensures a + sep + c == a + (sep + c) && (sep == "" ==> sep + c == c)
  {
  }

  lemma CellsSplit(ws: seq<Numeral>, j: nat) returns (rest: string)
    requires j < |ws|
    ensures CellsFrom(ws, j) == NumeralText(ws[j]) + rest && rest != "" && Stops(rest[0])
    ensures rest == if j + 1 == |ws| then ">" else " " + CellsFrom(ws, j + 1)
  {
    rest := if j + 1 == |ws| then ">" else " " + CellsFrom(ws, j + 1);
    Separated(NumeralText(ws[j]), if j + 1 < |ws| then " " else "", CellsFrom(ws, j + 1));
  }

  lemma CellsStart(ws: seq<Numeral>, j: nat)
    requires j < |ws|
    ensures CellsFrom(ws, j) != "" && CellsFrom(ws, j)[0] != ' '
  {
    var rest := CellsSplit(ws, j);
    NumeralHasNoSpace(ws[j], 0);
  }

  lemma CellsEnd(args: seq<string>, i: nat, p: nat, acc: seq<Byte>)
    requires i < |args| && p <= |args[i]| && Joined(args, i, p) == ">"
    ensures SkipSpaces(args[i], p) == p && ParseCells(args, i, p, acc) == Ok(acc)
  {
    TokenInArgument(args, i, p, ">", "");
    assert args[i][p] == args[i][p..p + 1][0];
  }

  /** After a cell, a single space or a cut between arguments is passed over. */
  lemma CellSpace(args: seq<string>, i: nat, q: nat, rest: string, acc: seq<Byte>) returns (i': nat, p': nat)
    requires i < |args| && q <= |args[i]| && Joined(args, i, q) == " " + rest && rest != "" && rest[0] != ' '
    ensures i' < |args| && p' <= |args[i']| && Joined(args, i', p') == rest
    ensures ParseCells(args, i, SkipSpaces(args[i], q), acc) == ParseCells(args, i', p', acc)
  {
    AfterSpace(args, i, q, rest);
    if q < |args[i]| {
      i', p' := i, q + 1;
    } else {
      i', p' := i + 1, 0;
    }
  }

  lemma FlatNext(acc: seq<Byte>, ws: seq<Numeral>, j: nat)
    requires j < |ws|
    ensures acc + Be32(Wrap64(ws[j].n)) + Flat(ws, j + 1) == acc + Flat(ws, j)
  {
  }

  lemma {:induction false} CellsParse(args: seq<string>, i: nat, p: nat, ws: seq<Numeral>, j: nat, acc: seq<Byte>)
    requires j < |ws| && AreCells(ws) && i < |args| && p <= |args[i]|
    requires Joined(args, i, p) == CellsFrom(ws, j)
    ensures ParseCells(args, i, p, acc) == Ok(acc + Flat(ws, j))
    decreases |ws| - j
  {
    var rest := CellsSplit(ws, j);
    var q := p + |NumeralText(ws[j])|;
    ReadCell(args, i, p, ws[j], q, rest, acc);
    var acc' := acc + Be32(Wrap64(ws[j].n));
    FlatNext(acc, ws, j);
    if j + 1 == |ws| {
      CellsEnd(args, i, q, acc');
    } else {
      CellsStart(ws, j + 1);
      var i', p' := CellSpace(args, i, q, CellsFrom(ws, j + 1), acc');
      CellsParse(args, i', p', ws, j + 1, acc');
    }
  }

  lemma ByteStep(args: seq<string>, i: nat, p: nat, v: nat, q: nat, acc: seq<Byte>)
    requires i < |args| && p < q <= |args[i]| && IsXDigit(args[i][p]) && StrToUl(args[i], p, 16) == (v, q)
    ensures ParseBytes(args, i, p, acc) == ParseBytes(args, i, q, acc + [Low8(v)])
  {
    assert SkipSpaces(args[i], p) == p;
  }

  lemma Low8Is(n: nat)
    ensures Low8(n) == n % 256
  {
  }

  /** One turn of the byte loop on any hexadecimal number: its low eight bits are set. */
  lemma ReadHexNumber(args: seq<string>, i: nat, p: nat, n: nat, q: nat, acc: seq<Byte>)
    requires i < |args| && n > 0 && q == p + |Digits(n, 16)| <= |args[i]| && args[i][p..q] == Digits(n, 16)
    requires !IsXDigit(At(args[i], q))
    ensures ParseBytes(args, i, p, acc) == ParseBytes(args, i, q, acc + [Wrap64(n) % 256])
  {
    var s := args[i];
    DigitsChars(n, 16, 0);
    assert s[p] == s[p..q][0];
    DigitsConvert(s, p, n, 16, 16, q);
    ByteStep(args, i, p, Wrap64(n), q, acc);
    Low8Is(Wrap64(n));
  }

  /** One turn of the byte loop on printed text. */
  lemma ReadByte(args: seq<string>, i: nat, p: nat, b: Byte, rest: string, acc: seq<Byte>)
    requires i < |args| && p <= |args[i]| && rest != "" && !IsXDigit(rest[0])
    requires Joined(args, i, p) == Hex(b, 2) + rest
    ensures p + 2 <= |args[i]| && Joined(args, i, p + 2) == rest
    ensures ParseBytes(args, i, p, acc) == ParseBytes(args, i, p + 2, acc + [b])
  {
    HexChars(b, 2, 0);
    HexChars(b, 2, 1);
    TokenInArgument(args, i, p, Hex(b, 2), rest);
    NextChar(args, i, p + 2);
    ByteToken(args[i], p, b, Hex(b, 2));
    ByteStep(args, i, p, b, p + 2, acc);
  }

  /** A single space or a cut between arguments is passed over. */
  lemma ReadSpace(args: seq<string>, i: nat, q: nat, rest: string, acc: seq<Byte>) returns (i': nat, p': nat)
    requires i < |args| && q <= |args[i]| && Joined(args, i, q) == " " + rest
    requires rest != "" && IsXDigit(rest[0])
    ensures i' < |args| && p' <= |args[i']| && Joined(args, i', p') == rest
    ensures ParseBytes(args, i, q, acc) == ParseBytes(args, i', p', acc)
  {
    AfterSpace(args, i, q, rest);
    if q < |args[i]| {
      i', p' := i, q + 1;
      NextChar(args, i, q + 1);
    } else {
      i', p' := i + 1, 0;
    }
  }

  lemma BytesSplit(v: seq<Byte>, j: nat) returns (rest: string)
    requires j < |v|
    ensures BytesFrom(v, j) == Hex(v[j], 2) + rest && rest != "" && !IsXDigit(rest[0])
    ensures rest == if j + 1 == |v| then "]" else " " + BytesFrom(v, j + 1)
  {
    rest := if j + 1 == |v| then "]" else " " + BytesFrom(v, j + 1);
  }

  lemma BytesStart(v: seq<Byte>, j: nat)
    requires j < |v|
    ensures BytesFrom(v, j) != "" && IsXDigit(BytesFrom(v, j)[0])
  {
    var rest := BytesSplit(v, j);
    HexChars(v[j], 2, 0);
    assert BytesFrom(v, j)[0] == Hex(v[j], 2)[0];
  }

  lemma BytesEnd(args: seq<string>, i: nat, p: nat, acc: seq<Byte>)
    requires i < |args| && p <= |args[i]| && Joined(args, i, p) == "]"
    ensures ParseBytes(args, i, p, acc) == Ok(acc)
  {
    TokenInArgument(args, i, p, "]", "");
    assert args[i][p] == args[i][p..p + 1][0];
  }

  lemma SplitByte(acc: seq<Byte>, v: seq<Byte>, j: nat)
    requires j < |v|
    ensures acc + [v[j]] + v[j + 1..] == acc + v[j..]
  {
    assert v[j..] == [v[j]] + v[j + 1..];
  }

  lemma {:induction false} BytesParse(args: seq<string>, i: nat, p: nat, v: seq<Byte>, j: nat, acc: seq<Byte>)
    requires j < |v| && i < |args| && p <= |args[i]|
    requires Joined(args, i, p) == BytesFrom(v, j)
    ensures ParseBytes(args, i, p, acc) == Ok(acc + v[j..])
    decreases |v| - j
  {
    var rest := BytesSplit(v, j);
    ReadByte(args, i, p, v[j], rest, acc);
    SplitByte(acc, v, j);
    var acc' := acc + [v[j]];
    if j + 1 == |v| {
      BytesEnd(args, i, p + 2, acc');
      assert acc' + v[j + 1..] == acc';
    } else {
      BytesStart(v, j + 1);
      var i', p' := ReadSpace(args, i, p + 2, BytesFrom(v, j + 1), acc');
      BytesParse(args, i', p', v, j + 1, acc');
    }
  }

  /** Any list of cells, each in any notation, is set to the low 32 bits of its numbers, however the text is cut
      at its spaces into arguments. */
  lemma CellListParses(ws: seq<Numeral>, args: seq<string>)
    requires AreCells(ws) && |args| > 0 && Joined(args, 0, 0) == "<" + CellsFrom(ws, 0)
    ensures ParseProp(args) == Ok(Flat(ws, 0))
  {
    TokenInArgument(args, 0, 0, "<", CellsFrom(ws, 0));
    assert args[0][0] == args[0][0..1][0];
    if ws == [] {
      CellsEnd(args, 0, 1, []);
    } else {
      CellsParse(args, 0, 1, ws, 0, []);
      assert [] + Flat(ws, 0) == Flat(ws, 0);
    }
  }

  lemma PrintedCellsParse(v: seq<Byte>, args: seq<string>)
    requires |v| > 0 && |v| % 4 == 0 && |args| > 0 && Joined(args, 0, 0) == "<" + CellsFrom(Words(v), 0)
    ensures ParseProp(args) == Ok(v)
  {
    CellListParses(Words(v), args);
    WordsFlat(v, 0);
    assert v[4 * 0..] == v;
  }

  lemma PrintedBytesParse(v: seq<Byte>, args: seq<string>)
    requires |v| > 0 && |args| > 0 && Joined(args, 0, 0) == "[" + BytesFrom(v, 0)
    ensures ParseProp(args) == Ok(v)
  {
    TokenInArgument(args, 0, 0, "[", BytesFrom(v, 0));
    assert args[0][0] == args[0][0..1][0];
    BytesParse(args, 0, 1, v, 0, []);
    assert [] + v[0..] == v;
  }

  /** Every short value that is not text survives printing and setting, however the printed text is
      cut at its spaces into arguments. */
  lemma PrintedValueParses(v: seq<Byte>, after: Byte, pointer: string, args: seq<string>)
    requires 0 < |v| <= 64 && !PrintableString(v, after)
    requires |args| > 0 && Joined(args, 0, 0) == Text(v, after, pointer)
    ensures ParseProp(args) == Ok(v)
  {
    if |v| % 4 == 0 {
      PrintedCellsParse(v, args);
    } else {
      PrintedBytesParse(v, args);
    }
  }

  lemma CharsBack(b: seq<Byte>)
    ensures BytesOf(Chars(b)) == b
  {
  }

  lemma SplitAt(v: seq<Byte>, j: nat, e: nat, more: seq<Byte>)
    requires j <= e < |v|
    ensures v[j..] + more == v[j..e] + [v[e]] + (v[e + 1..] + more)
  {
    assert v[j..] == v[j..e] + [v[e]] + v[e + 1..];
  }

  lemma PiecesNext(v: seq<Byte>, j: nat, e: nat)
    requires j < |v| && e == StringEnd(v, j)
    ensures ParseStrings(Pieces(v, j)) == v[j..e] + [0] + ParseStrings(Pieces(v, e + 1))
  {
    var first := Chars(v[j..e]);
    CharsBack(v[j..e]);
    assert Pieces(v, j)[0] == first && Pieces(v, j)[1..] == Pieces(v, e + 1);
  }

  /** A terminator that the value lacks. */
  function Missing(v: seq<Byte>): seq<Byte> {
    if v == [] || v[|v| - 1] == 0 then [] else [0]
  }

  lemma LastPiece(v: seq<Byte>, j: nat, e: nat)
    requires j < |v| && e == StringEnd(v, j) && e + 1 >= |v|
    ensures v[j..e] + [0] + ParseStrings(Pieces(v, e + 1)) == v[j..] + Missing(v)
  {
    assert Pieces(v, e + 1) == [];
    if e == |v| {
      assert v[j..e] == v[j..];
    } else {
      assert v[j..] == v[j..e] + [0];
    }
  }

  /** The strings a value prints as, given as arguments, are the value and a terminator if it had none. */
  lemma {:induction false} PiecesParse(v: seq<Byte>, j: nat)
    requires j < |v|
    ensures ParseStrings(Pieces(v, j)) == v[j..] + Missing(v)
    decreases |v| - j
  {
    var e := StringEnd(v, j);
    PiecesNext(v, j, e);
    if e + 1 < |v| {
      PiecesParse(v, e + 1);
      SplitAt(v, j, e, Missing(v));
    } else {
      LastPiece(v, j, e);
    }
  }
}
