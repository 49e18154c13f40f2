/**
 * The parts of Python's string formatting the exporters use: `str(n)`
 * for a non-negative integer, `"{:03X}"` (built on plain upper-case
 * hexadecimal), `str.upper()` on ASCII text, `str.count('\n')` and
 * `sep.join(parts)`.
 */
module Text {

  // ---------------------------------------------------------------
  // Digits
  // ---------------------------------------------------------------

  /** The digit character for `d` in base 16, upper case. */
  function HexDigit(d: nat): (c: char)
    requires d < 16
  {
    if d < 10 then '0' + d as char else 'A' + (d - 10) as char
  }

  /** The value of a digit character in base 16; other characters read 0. */
  function DigitValue(c: char): (d: nat)
    ensures d < 16
  {
    if '0' <= c <= '9' then (c - '0') as nat
    else if 'A' <= c <= 'F' then (c - 'A') as nat + 10
    else 0
  }

  predicate IsHexDigit(c: char)
  {
    '0' <= c <= '9' || 'A' <= c <= 'F'
  }

  lemma HexDigitValue(d: nat)
    requires d < 16
    ensures IsHexDigit(HexDigit(d)) && DigitValue(HexDigit(d)) == d
  {
  }

  /** The number a string of digits denotes in base `b`. */
  function ValueIn(s: string, b: nat): nat
    decreases |s|
  {
    if s == [] then 0 else ValueIn(s[..|s| - 1], b) * b + DigitValue(s[|s| - 1])
  }

  // ---------------------------------------------------------------
  // `str(n)` and upper-case hexadecimal
  // ---------------------------------------------------------------

  /** `n` written in base `b` (10 or 16) without leading zeros; `"0"` for 0. */
  function Digits(n: nat, b: nat): (s: string)
    requires b == 10 || b == 16
    ensures |s| >= 1
    decreases n
  {
    if n < b then [HexDigit(n)] else Digits(n / b, b) + [HexDigit(n % b)]
  }

  /** `str(n)`. */
  function Decimal(n: nat): string
  {
    Digits(n, 10)
  }

  /** `n` in upper-case hexadecimal without padding: the digits `"{:03X}"` pads. */
  function Hex(n: nat): string
  {
    Digits(n, 16)
  }

  /** Reading the digits back gives the number: the formatting loses nothing. */
  lemma {:induction false} DigitsRoundTrip(n: nat, b: nat)
    requires b == 10 || b == 16
    ensures ValueIn(Digits(n, b), b) == n
    ensures forall c :: c in Digits(n, b) ==> IsHexDigit(c) && DigitValue(c) < b
    ensures Digits(n, b)[0] != '0' || n == 0
    decreases n
  {
    HexDigitValue(n % b);
    if n >= b {
      DigitsRoundTrip(n / b, b);
      var s := Digits(n, b);
      assert s[..|s| - 1] == Digits(n / b, b);
    } else {
      HexDigitValue(n);
    }
  }

  /** Numbers below 0x1000 take at most three hexadecimal digits. */
  lemma HexLength(n: nat)
    requires n < 0x1000
    ensures |Hex(n)| <= 3
  {
    if n >= 16 {
      var q := n / 16;
      assert Hex(n) == Digits(q, 16) + [HexDigit(n % 16)];
      if q >= 16 {
        assert q / 16 < 16;
        assert Digits(q, 16) == Digits(q / 16, 16) + [HexDigit(q % 16)];
      }
    }
  }

  // ---------------------------------------------------------------
  // `"{:03X}".format(n)`
  // ---------------------------------------------------------------

  /** Left-pads `s` with `'0'` to at least three characters. */
  function Pad3(s: string): (r: string)
    decreases 3 - |s|
  {
    if |s| >= 3 then s else Pad3(['0'] + s)
  }

  /** `"{:03X}".format(n)`: upper-case hexadecimal, at least three digits. */
  function Hex3(n: nat): string
  {
    Pad3(Hex(n))
  }

  lemma {:induction false} ValueLeadingZero(s: string, b: nat)
    ensures ValueIn(['0'] + s, b) == ValueIn(s, b)
    decreases |s|
  {
    if s != [] {
      var t := ['0'] + s;
      assert t[..|t| - 1] == ['0'] + s[..|s| - 1];
      ValueLeadingZero(s[..|s| - 1], b);
    } else {
      assert (['0'] + s)[..0] == [];
    }
  }

  lemma {:induction false} Pad3Spec(s: string, b: nat)
    ensures ValueIn(Pad3(s), b) == ValueIn(s, b)
    ensures |Pad3(s)| == if |s| >= 3 then |s| else 3
    ensures forall c :: c in Pad3(s) ==> c in s || c == '0'
    decreases 3 - |s|
  {
    if |s| < 3 {
      ValueLeadingZero(s, b);
      Pad3Spec(['0'] + s, b);
    }
  }

  /** `"{:03X}"` denotes `n`, uses only upper-case hex digits, and is three
      characters long exactly when `n <= 0xFFF`. */
  lemma Hex3Spec(n: nat)
    ensures ValueIn(Hex3(n), 16) == n
    ensures forall c :: c in Hex3(n) ==> IsHexDigit(c)
    ensures |Hex3(n)| >= 3
    ensures n < 0x1000 ==> |Hex3(n)| == 3
  {
    DigitsRoundTrip(n, 16);
    Pad3Spec(Hex(n), 16);
    if n < 0x1000 {
      HexLength(n);
    }
  }

  /** Different indexes give different `"{:03X}"` strings. */
  lemma Hex3Injective(i: nat, j: nat)
    ensures Hex3(i) == Hex3(j) ==> i == j
  {
    Hex3Spec(i);
    Hex3Spec(j);
  }

  // ---------------------------------------------------------------
  // Other string operations
  // ---------------------------------------------------------------

  predicate IsLower(c: char)
  {
    'a' <= c <= 'z'
  }

  /** `str.upper()` on ASCII letters; every other character is kept. */
  function Upper(s: string): (r: string)
    ensures |r| == |s|
    ensures forall i :: 0 <= i < |s| ==> r[i] == if IsLower(s[i]) then s[i] - 'a' + 'A' else s[i]
  {
    seq(|s|, i requires 0 <= i < |s| => if IsLower(s[i]) then s[i] - 'a' + 'A' else s[i])
  }

  /** No lower-case letter is left, and upper-casing twice changes nothing. */
  lemma UpperSpec(s: string)
    ensures forall c :: c in Upper(s) ==> !IsLower(c)
    ensures Upper(Upper(s)) == Upper(s)
  {
  }

  /** `text.count(c)`: the occurrences of the character `c`. */
  function CountChar(text: string, c: char): (n: nat)
    decreases |text|
  {
    if text == [] then 0
    else CountChar(text[..|text| - 1], c) + (if text[|text| - 1] == c then 1 else 0)
  }

  /** Counting over a concatenation adds the counts. */
  lemma {:induction false} CountCharConcat(a: string, b: string, c: char)
    ensures CountChar(a + b, c) == CountChar(a, c) + CountChar(b, c)
    decreases |b|
  {
    if b == [] {
      assert a + b == a;
    } else {
      assert (a + b)[..|a + b| - 1] == a + b[..|b| - 1];
      CountCharConcat(a, b[..|b| - 1], c);
    }
  }

  lemma {:induction false} CountCharBound(text: string, c: char)
    ensures CountChar(text, c) <= |text|
    ensures CountChar(text, c) == 0 <==> c !in text
    decreases |text|
  {
    if text != [] {
      CountCharBound(text[..|text| - 1], c);
      assert text == text[..|text| - 1] + [text[|text| - 1]];
    }
  }

  /** `sep.join(parts)`. */
  function Join(parts: seq<string>, sep: string): (r: string)
    decreases |parts|
  {
    if parts == [] then ""
    else if |parts| == 1 then parts[0]
    else Join(parts[..|parts| - 1], sep) + sep + parts[|parts| - 1]
  }

  /** The joined string is empty exactly when there are no parts, or one
      empty part (the separator being non-empty). */
  lemma JoinEmpty(parts: seq<string>, sep: string)
    requires sep != ""
    ensures Join(parts, sep) == "" <==> |parts| == 0 || parts == [""]
  {
    if |parts| > 1 {
      assert |Join(parts, sep)| >= |sep|;
    }
    if |parts| == 1 {
      assert parts == [parts[0]];
    }
  }
}
