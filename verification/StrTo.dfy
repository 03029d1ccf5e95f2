/** Numbers as text: how `simple_strtoul` reads them, and the digits that are printed. */
module StrTo {
  import opened Machine

  // ---------------------------------------------------------------- digits

  function HexDigit(d: int): (c: char)
    requires 0 <= d < 16
    ensures HexVal(c) == d && ('0' <= c <= '9' || 'a' <= c <= 'f')
  {
    "0123456789abcdef"[d]
  }

  /** Value of a hexadecimal digit, or -1. */
  function HexVal(c: char): int {
    if '0' <= c <= '9' then c as int - '0' as int
    else if 'a' <= c <= 'f' then c as int - 'a' as int + 10
    else if 'A' <= c <= 'F' then c as int - 'A' as int + 10
    else -1
  }

  predicate IsXDigit(c: char) {
    HexVal(c) >= 0
  }

  /** Upper-case digits have the same values as lower-case ones, and there are no others. */
  lemma HexValIff(c: char, d: nat)
    requires d < 16
    ensures HexVal(c) == d <==> c == "0123456789abcdef"[d] || c == "0123456789ABCDEF"[d]
  {
  }

  /** Character of a C string, with its terminator. */
  function At(s: string, p: nat): char {
    if p < |s| then s[p] else '\0'
  }

  /** The product, by repeated addition. */
  function Times(n: nat, base: nat): nat {
    if n == 0 then 0 else base + Times(n - 1, base)
  }

  /** The digit loop multiplies. */
  lemma {:induction false} TimesIsProduct(n: nat, base: nat)
    ensures Times(n, base) == n * base
  {
    if n > 0 {
      TimesIsProduct(n - 1, base);
    }
  }

  lemma {:induction false} TimesSixteen(n: nat, base: nat)
    requires base <= 16
    ensures Times(n, base) <= 16 * n && (base == 16 ==> Times(n, base) == 16 * n)
  {
    if n > 0 {
      TimesSixteen(n - 1, base);
    }
  }

  /** A number with one digit more at the end. */
  function Push(number: nat, base: nat, digit: nat): nat {
    Times(number, base) + digit
  }

  /** The digit loop of `simple_strtoul`: value and position after the last digit. */
  function Scan(s: string, p: nat, base: nat, acc: nat): (r: (nat, nat))
    ensures p <= r.1 && (p <= |s| ==> r.1 <= |s|)
    decreases |s| - p
  {
    if p < |s| && 0 <= HexVal(s[p]) < base then Scan(s, p + 1, base, Push(acc, base, HexVal(s[p]))) else (acc, p)
  }

  lemma ScanNext(s: string, p: nat, base: nat, acc: nat, next: nat)
    requires p < |s| && 0 <= HexVal(s[p]) < base && next == Push(acc, base, HexVal(s[p]))
    ensures Scan(s, p, base, acc) == Scan(s, p + 1, base, next)
  {
  }

  lemma ScanEnds(s: string, p: nat, base: nat, acc: nat)
    requires p <= |s| && !IsXDigit(At(s, p))
    ensures Scan(s, p, base, acc) == (acc, p)
  {
  }

  /** Base of a number and where its digits start; a leading zero or "0x" is passed over. */
  function Prefix(s: string, p: nat, base: nat): (r: (nat, nat))
    requires p <= |s|
    ensures p <= r.1 <= |s|
  {
    if At(s, p) != '0' then (if base == 0 then 10 else base, p)
    else if At(s, p + 1) == 'x' && IsXDigit(At(s, p + 2)) then (16, p + 2)
    else (if base == 0 then 8 else base, p + 1)
  }

  /** `simple_strtoul`: value, in 64 bits, and end position. */
  function StrToUl(s: string, p: nat, base: nat): (r: (nat, nat))
    requires p <= |s|
    ensures p <= r.1 <= |s|
  {
    var (b, q) := Prefix(s, p, base);
    var (v, e) := Scan(s, q, b, 0);
    (Wrap64(v), e)
  }

  /** A number that starts with a digit is never empty. */
  lemma DigitAdvances(s: string, p: nat)
    requires p < |s| && IsXDigit(s[p])
    ensures StrToUl(s, p, 16).1 > p
  {
  }

  /** `width` hexadecimal digits, most significant first. */
  function Hex(n: nat, width: nat): (s: string)
    ensures |s| == width
  {
    if width == 0 then "" else Hex(n / 16, width - 1) + [HexDigit(n % 16)]
  }

  function Pow16(k: nat): nat {
    if k == 0 then 1 else 16 * Pow16(k - 1)
  }

  lemma LastOfSlice(s: string, p: nat, q: nat, h: string, c: char)
    requires p < q <= |s| && s[p..q] == h + [c]
    ensures s[p..q - 1] == h && s[q - 1] == c
  {
    var t := s[p..q];
    assert |h| == q - p - 1 && t[|h|] == c && t[..|h|] == h;
    assert s[p..q - 1] == t[..|h|];
  }

  /** Scanning printed digits gives the number back. */
  lemma {:induction false} ScanHex(s: string, p: nat, n: nat, width: nat)
    requires p + width <= |s| && s[p..p + width] == Hex(n, width) && n < Pow16(width)
    ensures Scan(s, p, 16, 0) == Scan(s, p + width, 16, n)
  {
    if width > 0 {
      var last := p + width - 1;
      LastOfSlice(s, p, p + width, Hex(n / 16, width - 1), HexDigit(n % 16));
      ScanHex(s, p, n / 16, width - 1);
      TimesSixteen(n / 16, 16);
      ScanNext(s, last, 16, n / 16, n);
    }
  }

  // ---------------------------------------------------------------- numbers in a base

  lemma DivSmaller(n: nat, base: nat)
    requires 2 <= base <= n
    ensures n / base < n
  {
    assert n == n / base * base + n % base;
    TimesIsProduct(n / base, base);
    TimesAtLeastTwice(n / base, base);
  }

  lemma {:induction false} TimesAtLeastTwice(n: nat, base: nat)
    requires base >= 2
    ensures Times(n, base) >= 2 * n
  {
    if n > 0 {
      TimesAtLeastTwice(n - 1, base);
    }
  }

  /** The digits of a number in a base, without leading zeros. */
  function Digits(n: nat, base: nat): (t: string)
    requires 2 <= base <= 16
    ensures t != ""
    decreases n
  {
    if n < base then [HexDigit(n)]
    else
      DivSmaller(n, base);
      Digits(n / base, base) + [HexDigit(n % base)]
  }

  /** Each is a digit of the base, and only zero starts with a zero. */
  lemma {:induction false} DigitsChars(n: nat, base: nat, k: nat)
    requires 2 <= base <= 16 && k < |Digits(n, base)|
    ensures 0 <= HexVal(Digits(n, base)[k]) < base
    ensures k == 0 && n > 0 ==> HexVal(Digits(n, base)[0]) > 0
    decreases n
  {
    if n >= base {
      DivSmaller(n, base);
      if k < |Digits(n, base)| - 1 {
        DigitsChars(n / base, base, k);
        assert n / base == 0 ==> n < base;
      }
    }
  }

  lemma PushDigit(n: nat, base: nat)
    requires base >= 2
    ensures Push(n / base, base, n % base) == n
  {
    TimesIsProduct(n / base, base);
  }

  lemma ScanLastDigit(s: string, p: nat, n: nat, base: nat, high: nat, low: nat)
    requires 2 <= base <= 16 && high == n / base && low == n % base && p < |s| && s[p] == HexDigit(low)
    ensures Scan(s, p, base, high) == Scan(s, p + 1, base, n)
  {
    PushDigit(n, base);
    ScanNext(s, p, base, high, n);
  }

  lemma DigitsLast(n: nat, base: nat)
    requires 2 <= base <= 16 && n >= base
    ensures n / base < n && Digits(n, base) == Digits(n / base, base) + [HexDigit(n % base)]
  {
    DivSmaller(n, base);
  }

  /** Scanning the digits of a number in a base gives the number, for every base. */
  lemma {:induction false} ScanDigitsOf(s: string, p: nat, n: nat, base: nat, q: nat)
    requires 2 <= base <= 16 && q == p + |Digits(n, base)| <= |s| && s[p..q] == Digits(n, base)
    ensures Scan(s, p, base, 0) == Scan(s, q, base, n)
    decreases n
  {
    if n < base {
      assert s[p] == s[p..q][0];
      ScanNext(s, p, base, 0, n);
    } else {
      DigitsLast(n, base);
      var high, low := n / base, n % base;
      LastOfSlice(s, p, q, Digits(high, base), HexDigit(low));
      ScanDigitsOf(s, p, high, base, q - 1);
      ScanLastDigit(s, q - 1, n, base, high, low);
    }
  }

  lemma ScanStops(s: string, p: nat, base: nat, acc: nat)
    requires p <= |s| && !(0 <= HexVal(At(s, p)) < base)
    ensures Scan(s, p, base, acc) == (acc, p)
  {
  }

  /** `simple_strtoul` reads the digits of a number back: in a given base, or without one in base ten. */
  lemma DigitsConvert(s: string, p: nat, n: nat, base: nat, given: nat, q: nat)
    requires 2 <= base <= 16 && n > 0 && (given == base || (given == 0 && base == 10))
    requires q == p + |Digits(n, base)| <= |s| && s[p..q] == Digits(n, base) && !(0 <= HexVal(At(s, q)) < base)
    ensures StrToUl(s, p, given) == (Wrap64(n), q)
  {
    DigitsChars(n, base, 0);
    assert s[p] == s[p..q][0];
    ScanDigitsOf(s, p, n, base, q);
    ScanStops(s, q, base, n);
  }

  /** Printed digits contain no character that ends a token. */
  lemma {:induction false} HexChars(n: nat, width: nat, k: nat)
    requires k < width
    ensures IsXDigit(Hex(n, width)[k])
  {
    if k < width - 1 {
      HexChars(n / 16, width - 1, k);
    }
  }

  // ---------------------------------------------------------------- the loops

  /** The digit loop of `simple_strtoul`. */
  method ScanDigits(s: string, cp: nat, base: nat) returns (result: nat, end: nat)
    requires cp <= |s|
    ensures (result, end) == Scan(s, cp, base, 0)
  {
    result, end := 0, cp;
    while IsXDigit(At(s, end)) && HexVal(At(s, end)) < base
      invariant cp <= end <= |s|
      invariant Scan(s, cp, base, 0) == Scan(s, end, base, result)
      decreases |s| - end
    {
      var next := result * base + HexVal(At(s, end));
      TimesIsProduct(result, base);
      ScanNext(s, end, base, result, next);
      result, end := next, end + 1;
    }
  }

  /** `simple_strtoul`. */
  method SimpleStrToUl(s: string, cp: nat, base: nat) returns (result: nat, end: nat)
    requires cp <= |s|
    ensures (result, end) == StrToUl(s, cp, base)
  {
    var b := base;
    end := cp;
    if At(s, end) == '0' {
      end := end + 1;
      if At(s, end) == 'x' && IsXDigit(At(s, end + 1)) {
        b := 16;
        end := end + 1;
      }
      if b == 0 {
        b := 8;
      }
    }
    if b == 0 {
      b := 10;
    }
    result, end := ScanDigits(s, end, b);
    result := Wrap64(result);
  }
}
