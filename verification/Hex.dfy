/** The hexadecimal fields of the provenance map: how they are printed and how they are read back. */
module Hex {
  import opened Words

  function UpperDigit(d: int): (c: char)
    requires 0 <= d < 16
  {
    "0123456789ABCDEF"[d]
  }

  /** Upper-case hexadecimal without leading zeros; "0" for zero. */
  function UpperHex(value: nat): (s: string)
    ensures |s| > 0
  {
    if value < 16 then [UpperDigit(value)] else UpperHex(value / 16) + [UpperDigit(value % 16)]
  }

  function Hex64(value: nat): string {
    "0x" + UpperHex(value)
  }

  function ZeroPad(s: string, width: nat): string
    decreases width - |s|
  {
    if |s| >= width then s else ZeroPad("0" + s, width)
  }

  function Hex32(value: u32): string {
    "0x" + ZeroPad(UpperHex(value), 8)
  }

  /** The 32-bit pattern of a signed status. */
  function StatusBits(status: i32): u32 {
    if status < 0 then status + 0x1_0000_0000 else status
  }

  /** The signed status of a 32-bit pattern. */
  function BitsStatus(bits: u32): i32 {
    if bits >= 0x8000_0000 then bits - 0x1_0000_0000 else bits
  }

  // ---- reading ----

  /** Removes the prefix as often as it occurs at the front. */
  function TrimStart(s: string, prefix: string): string
    requires |prefix| > 0
    decreases |s|
  {
    if prefix <= s then TrimStart(s[|prefix|..], prefix) else s
  }

  function DigitValue(c: char): (d: Option<nat>)
    ensures d.Some? ==> d.value < 16
  {
    if '0' <= c <= '9' then Some(c as int - '0' as int)
    else if 'a' <= c <= 'f' then Some(c as int - 'a' as int + 10)
    else if 'A' <= c <= 'F' then Some(c as int - 'A' as int + 10)
    else None
  }

  predicate AllDigits(s: string) {
    |s| == 0 || (DigitValue(s[|s| - 1]).Some? && AllDigits(s[..|s| - 1]))
  }

  lemma {:induction false} EachIsDigit(s: string, i: nat)
    requires AllDigits(s) && i < |s|
    ensures DigitValue(s[i]).Some?
  {
    if i < |s| - 1 {
      EachIsDigit(s[..|s| - 1], i);
    }
  }

  function DigitsValue(s: string): nat
    requires AllDigits(s)
  {
    if |s| == 0 then 0 else 16 * DigitsValue(s[..|s| - 1]) + DigitValue(s[|s| - 1]).value
  }

  /** Reads an unsigned number that must not exceed `max`; one leading plus sign is let through. */
  function FromRadix16(s: string, max: nat): Option<nat> {
    var digits := if |s| > 1 && s[0] == '+' then s[1..] else s;
    if |digits| > 0 && AllDigits(digits) && DigitsValue(digits) <= max then Some(DigitsValue(digits)) else None
  }

  function Clean(s: string): string {
    TrimStart(TrimStart(s, "0x"), "0X")
  }

  function ParseUpTo(s: string, max: nat): Option<nat> {
    FromRadix16(Clean(s), max)
  }

  function ParseU64(s: string): (r: Option<nat>)
    ensures r.Some? ==> r.value <= U64_MAX
  {
    ParseUpTo(s, U64_MAX)
  }

  function ParseU32(s: string): (r: Option<nat>)
    ensures r.Some? ==> r.value <= U32_MAX
  {
    ParseUpTo(s, U32_MAX)
  }

  // ---- round trips ----

  lemma {:induction false} DigitRoundTrip(d: int)
    requires 0 <= d < 16
    ensures DigitValue(UpperDigit(d)) == Some(d)
  {
  }

  lemma {:induction false} UpperHexValue(value: nat)
    ensures AllDigits(UpperHex(value)) && DigitsValue(UpperHex(value)) == value
  {
    if value < 16 {
      DigitRoundTrip(value);
      assert UpperHex(value)[..0] == "";
    } else {
      UpperHexValue(value / 16);
      DigitRoundTrip(value % 16);
      var s := UpperHex(value);
      assert s[..|s| - 1] == UpperHex(value / 16);
    }
  }

  lemma {:induction false} LeadingZeroKeepsValue(s: string)
    requires AllDigits(s)
    ensures AllDigits("0" + s) && DigitsValue("0" + s) == DigitsValue(s)
  {
    var t := "0" + s;
    if |s| == 0 {
      assert t[..0] == "";
    } else {
      LeadingZeroKeepsValue(s[..|s| - 1]);
      assert t[..|t| - 1] == "0" + s[..|s| - 1];
    }
  }

  lemma {:induction false} PaddingKeepsValue(s: string, width: nat)
    requires AllDigits(s)
    ensures AllDigits(ZeroPad(s, width)) && DigitsValue(ZeroPad(s, width)) == DigitsValue(s)
    ensures |ZeroPad(s, width)| == Max(|s|, width)
    decreases width - |s|
  {
    if |s| < width {
      LeadingZeroKeepsValue(s);
      PaddingKeepsValue("0" + s, width);
    }
  }

  /** Digits contain no prefix to trim, so cleaning removes the printed prefix and nothing else. */
  lemma {:induction false} CleanPrefixed(digits: string)
    requires AllDigits(digits)
    ensures Clean("0x" + digits) == digits
  {
    var s := "0x" + digits;
    assert s[2..] == digits;
    if |digits| > 1 {
      EachIsDigit(digits, 1);
    }
    assert !("0x" <= digits) && !("0X" <= digits);
    assert "0x" <= s;
    assert TrimStart(s, "0x") == TrimStart(digits, "0x") == digits;
  }

  lemma {:induction false} DigitsParseIffFit(digits: string, max: nat)
    requires AllDigits(digits)
    ensures FromRadix16(digits, max)
         == if |digits| > 0 && DigitsValue(digits) <= max then Some(DigitsValue(digits)) else None
  {
    if |digits| > 0 {
      EachIsDigit(digits, 0);
    }
  }

  // ---- what the trimming of prefixes lets through ----

  datatype Prefix = Lower | Upper {
    function Text(): string {
      if Lower? then "0x" else "0X"
    }
  }

  function Spelled(word: seq<Prefix>): string {
    if |word| == 0 then "" else word[0].Text() + Spelled(word[1..])
  }

  /** No lower-case prefix behind an upper-case one. */
  ghost predicate InOrder(word: seq<Prefix>) {
    forall i, j :: 0 <= i < j < |word| ==> !(word[i].Upper? && word[j].Lower?)
  }

  function DropUppers(word: seq<Prefix>): seq<Prefix> {
    if |word| > 0 && word[0].Upper? then DropUppers(word[1..]) else word
  }

  /** A further lower-case prefix changes nothing about what is parsed. */
  lemma {:induction false} RepeatedPrefixIsTrimmed(s: string)
    ensures Clean("0x" + s) == Clean(s)
  {
    assert ("0x" + s)[2..] == s;
  }

  /** Digits, with a plus sign or without, begin with no prefix. */
  lemma {:induction false} DigitsHaveNoPrefix(sign: string, digits: string)
    requires AllDigits(digits) && (sign == "" || sign == "+")
    ensures !("0x" <= sign + digits) && !("0X" <= sign + digits)
  {
    var s := sign + digits;
    if sign == "+" {
      assert s[0] == '+';
    } else if |digits| > 1 {
      EachIsDigit(digits, 1);
      assert s[1] == digits[1];
    }
  }

  lemma {:induction false} PrefixInFront(a: string, b: string, c: string)
    ensures a + (b + c) == (a + b) + c
  {
  }

  lemma {:induction false} UppersTrimmed(word: seq<Prefix>, digits: string)
    requires AllDigits(digits)
    ensures TrimStart(Spelled(word) + digits, "0X") == Spelled(DropUppers(word)) + digits
  {
    var s := Spelled(word) + digits;
    if |word| == 0 {
      DigitsHaveNoPrefix("", digits);
      assert s == "" + digits;
    } else if word[0].Upper? {
      assert s[2..] == Spelled(word[1..]) + digits;
      UppersTrimmed(word[1..], digits);
    } else {
      assert s[1] == 'x';
    }
  }

  lemma {:induction false} InOrderIffOnlyUppers(word: seq<Prefix>)
    requires |word| > 0 && word[0].Upper?
    ensures InOrder(word) <==> |DropUppers(word)| == 0
  {
    if |DropUppers(word)| == 0 {
      forall k | 0 <= k < |word|
        ensures word[k].Upper?
      {
        OnlyUppers(word, k);
      }
    } else {
      var k := FirstLower(word);
      assert word[0].Upper? && word[k].Lower?;
    }
  }

  lemma {:induction false} OnlyUppers(word: seq<Prefix>, k: nat)
    requires |DropUppers(word)| == 0 && k < |word|
    ensures word[k].Upper?
  {
    if k > 0 {
      OnlyUppers(word[1..], k - 1);
    }
  }

  lemma {:induction false} FirstLower(word: seq<Prefix>) returns (k: nat)
    requires |DropUppers(word)| > 0
    ensures k < |word| && word[k].Lower?
  {
    if word[0].Upper? {
      k := FirstLower(word[1..]);
      k := k + 1;
    } else {
      k := 0;
    }
  }

  lemma {:induction false} InOrderBehindLower(word: seq<Prefix>)
    requires |word| > 0 && word[0].Lower?
    ensures InOrder(word) <==> InOrder(word[1..])
  {
    var rest := word[1..];
    if InOrder(word) {
      forall i, j | 0 <= i < j < |rest|
        ensures !(rest[i].Upper? && rest[j].Lower?)
      {
        assert rest[i] == word[i + 1] && rest[j] == word[j + 1];
      }
    }
    if InOrder(rest) {
      forall i, j | 0 <= i < j < |word|
        ensures !(word[i].Upper? && word[j].Lower?)
      {
        if i > 0 {
          assert word[i] == rest[i - 1] && word[j] == rest[j - 1];
        }
      }
    }
  }

  lemma {:induction false} PrefixIsNoDigit(word: seq<Prefix>, digits: string, max: nat)
    requires |word| > 0
    ensures FromRadix16(Spelled(word) + digits, max) == None
  {
    var s := Spelled(word) + digits;
    assert s[0] == '0' && (s[1] == 'x' || s[1] == 'X');
    if AllDigits(s) {
      EachIsDigit(s, 1);
    }
  }

  lemma {:induction false} CleanBehindUppers(word: seq<Prefix>, digits: string)
    requires AllDigits(digits) && (|word| == 0 || word[0].Upper?)
    ensures Clean(Spelled(word) + digits) == Spelled(DropUppers(word)) + digits
  {
    var s := Spelled(word) + digits;
    if |word| == 0 {
      DigitsHaveNoPrefix("", digits);
      assert s == "" + digits;
    } else {
      assert s[1] == 'X';
    }
    assert TrimStart(s, "0x") == s;
    UppersTrimmed(word, digits);
  }

  lemma {:induction false} UppersInFront(word: seq<Prefix>, digits: string, max: nat)
    requires AllDigits(digits) && (|word| == 0 || word[0].Upper?)
    ensures ParseUpTo(Spelled(word) + digits, max)
         == if InOrder(word) && |digits| > 0 && DigitsValue(digits) <= max then Some(DigitsValue(digits)) else None
  {
    var left := DropUppers(word);
    CleanBehindUppers(word, digits);
    if |word| > 0 {
      InOrderIffOnlyUppers(word);
    }
    if |left| > 0 {
      PrefixIsNoDigit(left, digits, max);
    } else {
      assert Spelled(left) + digits == digits;
      DigitsParseIffFit(digits, max);
    }
  }

  /**
   Digits behind any word of prefixes are read exactly when there are any, they fit and no lower-case prefix
   stands behind an upper-case one; else the field is rejected.
   */
  lemma {:induction false} PrefixedDigitsParseIffInOrder(word: seq<Prefix>, digits: string, max: nat)
    requires AllDigits(digits)
    ensures ParseUpTo(Spelled(word) + digits, max)
         == if InOrder(word) && |digits| > 0 && DigitsValue(digits) <= max then Some(DigitsValue(digits)) else None
  {
    if |word| > 0 && word[0].Lower? {
      var rest := Spelled(word[1..]) + digits;
      PrefixInFront("0x", Spelled(word[1..]), digits);
      RepeatedPrefixIsTrimmed(rest);
      InOrderBehindLower(word);
      PrefixedDigitsParseIffInOrder(word[1..], digits, max);
    } else {
      UppersInFront(word, digits, max);
    }
  }

  /** The shortest word that is rejected: an upper-case prefix shields a lower-case one. */
  lemma {:induction false} ShieldedPrefixIsRejected(digits: string)
    requires AllDigits(digits)
    ensures ParseU64("0X0x" + digits) == None && ParseU32("0X0x" + digits) == None
  {
    var word := [Upper, Lower];
    assert word[1..] == [Lower] && [Lower][1..] == [];
    assert Spelled(word) + digits == "0X0x" + digits;
    assert word[0].Upper? && word[1].Lower?;
    PrefixedDigitsParseIffInOrder(word, digits, U64_MAX);
    PrefixedDigitsParseIffInOrder(word, digits, U32_MAX);
  }

  // ---- all the texts that are read ----

  function Repeated(s: string, n: nat): string {
    if n == 0 then "" else s + Repeated(s, n - 1)
  }

  lemma {:induction false} TrimsSome(s: string, prefix: string) returns (n: nat)
    requires |prefix| > 0
    ensures s == Repeated(prefix, n) + TrimStart(s, prefix)
    decreases |s|
  {
    n := 0;
    if prefix <= s {
      var rest := s[|prefix|..];
      n := TrimsSome(rest, prefix);
      PrefixInFront(prefix, Repeated(prefix, n), TrimStart(rest, prefix));
      n := n + 1;
      assert s == prefix + rest;
    }
  }

  lemma {:induction false} TrimsAll(prefix: string, n: nat, rest: string)
    requires |prefix| > 0 && !(prefix <= rest)
    ensures TrimStart(Repeated(prefix, n) + rest, prefix) == rest
  {
    var s := Repeated(prefix, n) + rest;
    if n > 0 {
      assert s == prefix + (Repeated(prefix, n - 1) + rest);
      assert s[|prefix|..] == Repeated(prefix, n - 1) + rest;
      TrimsAll(prefix, n - 1, rest);
    } else {
      assert s == rest;
    }
  }

  /** Lower-case prefixes, then upper-case ones, perhaps a plus sign, then digits that fit. */
  ghost predicate Reads(s: string, lowers: nat, uppers: nat, sign: string, digits: string, max: nat, value: nat) {
    && s == Repeated("0x", lowers) + (Repeated("0X", uppers) + (sign + digits))
    && (sign == "" || sign == "+")
    && |digits| > 0 && AllDigits(digits) && DigitsValue(digits) == value <= max
  }

  lemma {:induction false} SignInFront(clean: string, max: nat, value: nat) returns (sign: string, digits: string)
    requires FromRadix16(clean, max) == Some(value)
    ensures clean == sign + digits && (sign == "" || sign == "+")
    ensures |digits| > 0 && AllDigits(digits) && DigitsValue(digits) == value <= max
  {
    if |clean| > 1 && clean[0] == '+' {
      sign, digits := "+", clean[1..];
    } else {
      sign, digits := "", clean;
    }
  }

  lemma {:induction false} ParsedReads(s: string, max: nat, value: nat)
    returns (lowers: nat, uppers: nat, sign: string, digits: string)
    requires ParseUpTo(s, max) == Some(value)
    ensures Reads(s, lowers, uppers, sign, digits, max, value)
  {
    lowers := TrimsSome(s, "0x");
    uppers := TrimsSome(TrimStart(s, "0x"), "0X");
    sign, digits := SignInFront(Clean(s), max, value);
  }

  /** The texts read as a value, all of them. */
  lemma {:induction false} ParsesIffReads(s: string, max: nat, value: nat)
    ensures ParseUpTo(s, max) == Some(value)
       <==> exists lowers, uppers, sign, digits :: Reads(s, lowers, uppers, sign, digits, max, value)
  {
    if ParseUpTo(s, max) == Some(value) {
      var lowers, uppers, sign, digits := ParsedReads(s, max, value);
    }
    if exists lowers, uppers, sign, digits :: Reads(s, lowers, uppers, sign, digits, max, value) {
      var lowers, uppers, sign, digits :| Reads(s, lowers, uppers, sign, digits, max, value);
      ReadsParses(s, lowers, uppers, sign, digits, max, value);
    }
  }

  lemma {:induction false} ReadsParses(s: string, lowers: nat, uppers: nat, sign: string, digits: string, max: nat,
                                       value: nat)
    requires Reads(s, lowers, uppers, sign, digits, max, value)
    ensures ParseUpTo(s, max) == Some(value)
  {
    var body := sign + digits;
    DigitsHaveNoPrefix(sign, digits);
    var rest := Repeated("0X", uppers) + body;
    assert !("0x" <= rest) by {
      if uppers > 0 {
        assert rest[1] == 'X';
      } else {
        assert rest == body;
      }
    }
    TrimsAll("0x", lowers, rest);
    TrimsAll("0X", uppers, body);
    EachIsDigit(digits, 0);
    if sign == "+" {
      assert body[1..] == digits;
    } else {
      assert body == digits;
    }
  }

  // ---- round trips of the printed fields ----

  /** Every 64-bit value survives printing and parsing. */
  lemma {:induction false} Hex64RoundTrip(value: u64)
    ensures ParseU64(Hex64(value)) == Some(value)
  {
    UpperHexValue(value);
    CleanPrefixed(UpperHex(value));
    DigitsParseIffFit(UpperHex(value), U64_MAX);
  }

  /** Every 32-bit value survives printing with padding and parsing; the text has eight digits or more. */
  lemma {:induction false} Hex32RoundTrip(value: u32)
    ensures ParseU32(Hex32(value)) == Some(value) && |Hex32(value)| >= 10
  {
    var digits := ZeroPad(UpperHex(value), 8);
    UpperHexValue(value);
    PaddingKeepsValue(UpperHex(value), 8);
    CleanPrefixed(digits);
    DigitsParseIffFit(digits, U32_MAX);
  }

  lemma {:induction false} UpperHexFits(value: nat, digits: nat)
    requires value < Pow16(digits) && digits > 0
    ensures |UpperHex(value)| <= digits
  {
    if value >= 16 {
      assert value / 16 < Pow16(digits - 1);
      UpperHexFits(value / 16, digits - 1);
    }
  }

  function Pow16(n: nat): nat {
    if n == 0 then 1 else 16 * Pow16(n - 1)
  }

  /** A signed status survives reinterpretation, printing with exactly eight digits, and parsing. */
  lemma {:induction false} StatusRoundTrip(status: i32)
    ensures ParseU32(Hex32(StatusBits(status))) == Some(StatusBits(status))
    ensures BitsStatus(StatusBits(status)) == status
    ensures |Hex32(StatusBits(status))| == 10
  {
    var bits := StatusBits(status);
    Hex32RoundTrip(bits);
    assert Pow16(8) == 0x1_0000_0000 by {
      assert Pow16(4) == 0x1_0000;
    }
    UpperHexFits(bits, 8);
    UpperHexValue(bits);
    PaddingKeepsValue(UpperHex(bits), 8);
  }
}
