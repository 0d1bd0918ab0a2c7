/** Decimal and hexadecimal numerals as mathematical functions on `nat`.
    This is the part of bn.js the relay uses: parsing a decimal string
    (`new BN(s)`) and rendering a value in base 16 (`toString(16)`). */
module Numerals {

  // ---------- decimal ----------

  predicate IsDecDigit(c: char) { '0' <= c <= '9' }

  predicate IsDecimal(s: string) {
    forall i :: 0 <= i < |s| ==> IsDecDigit(s[i])
  }

  function DecDigitValue(c: char): (d: nat)
    requires IsDecDigit(c)
    ensures d < 10
  {
    c as int - '0' as int
  }

  /** The value of a decimal digit string, most significant digit first. */
  function DecValue(s: string): nat
    requires IsDecimal(s)
    decreases |s|
  {
    if s == [] then 0 else DecValue(s[..|s| - 1]) * 10 + DecDigitValue(s[|s| - 1])
  }

  function Pow10(k: nat): (r: nat)
    ensures r >= 1
  {
    if k == 0 then 1 else 10 * Pow10(k - 1)
  }

  /** Appending digits shifts the value left by their count. */
  lemma {:induction false} DecValueAppend(s: string, t: string)
    requires IsDecimal(s) && IsDecimal(t)
    ensures IsDecimal(s + t)
    ensures DecValue(s + t) == DecValue(s) * Pow10(|t|) + DecValue(t)
    decreases |t|
  {
    assert forall i :: 0 <= i < |s + t| ==> (s + t)[i] == if i < |s| then s[i] else t[i - |s|];
    if t != [] {
      var u := t[..|t| - 1];
      var c := t[|t| - 1];
      assert (s + t)[..|s + t| - 1] == s + u;
      assert (s + t)[|s + t| - 1] == c;
      DecValueAppend(s, u);
      assert t[..|t| - 1] == u;
      ShiftStep(DecValue(s), Pow10(|u|), DecValue(u), DecDigitValue(c));
    } else {
      assert s + t == s;
    }
  }

  lemma ShiftStep(a: int, p: int, b: int, d: int)
    ensures (a * p + b) * 10 + d == a * (10 * p) + (b * 10 + d)
  {
  }

  /** A string of zero digits has value zero, whatever its length. */
  lemma {:induction false} DecValueZeros(z: string)
    requires forall i :: 0 <= i < |z| ==> z[i] == '0'
    ensures IsDecimal(z) && DecValue(z) == 0
    decreases |z|
  {
    if z != [] {
      DecValueZeros(z[..|z| - 1]);
    }
  }

  // ---------- white space ----------

  /** JavaScript's `\s`: the ECMAScript white-space characters and line
      terminators, by code point. */
  predicate IsJsWhitespace(c: char) {
    var k := c as int;
    k == 0x09 || k == 0x0A || k == 0x0B || k == 0x0C || k == 0x0D || k == 0x20 ||
    k == 0xA0 || k == 0x1680 || (0x2000 <= k <= 0x200A) || k == 0x2028 ||
    k == 0x2029 || k == 0x202F || k == 0x205F || k == 0x3000 || k == 0xFEFF
  }

  /** `s.replace(/\s+/g, '')`, which bn.js applies to a string before it
      parses it. */
  function StripWhitespace(s: string): (r: string)
    ensures forall i :: 0 <= i < |r| ==> !IsJsWhitespace(r[i])
    ensures |r| <= |s|
    decreases |s|
  {
    if s == [] then []
    else (if IsJsWhitespace(s[0]) then [] else [s[0]]) + StripWhitespace(s[1..])
  }

  /** Stripping distributes over concatenation. */
  lemma {:induction false} StripConcat(s: string, t: string)
    ensures StripWhitespace(s + t) == StripWhitespace(s) + StripWhitespace(t)
    decreases |s|
  {
    if s == [] {
      assert s + t == t;
    } else {
      assert (s + t)[0] == s[0];
      assert (s + t)[1..] == s[1..] + t;
      StripConcat(s[1..], t);
    }
  }

  /** On one character the deletion keeps it unless it is white space; with
      StripConcat this fixes the result on every string. */
  lemma StripChar(c: char)
    ensures StripWhitespace([c]) == if IsJsWhitespace(c) then [] else [c]
  {
    assert [c][1..] == [];
  }

  /** The stripped string is decimal exactly when every character that is not
      white space is a decimal digit. */
  lemma {:induction false} StripDecimalIff(s: string)
    ensures IsDecimal(StripWhitespace(s)) <==>
            forall i :: 0 <= i < |s| && !IsJsWhitespace(s[i]) ==> IsDecDigit(s[i])
    decreases |s|
  {
    if s != [] {
      StripDecimalIff(s[1..]);
      var head := if IsJsWhitespace(s[0]) then [] else [s[0]];
      var rest := StripWhitespace(s[1..]);
      assert StripWhitespace(s) == head + rest;
      if head == [] {
        assert head + rest == rest;
      } else {
        var t := head + rest;
        assert t[0] == s[0] && t[1..] == rest;
        assert IsDecimal(t) <==> IsDecDigit(s[0]) && IsDecimal(rest) by {
          assert forall i :: 1 <= i < |t| ==> t[i] == rest[i - 1];
        }
      }
      assert forall i :: 0 <= i < |s[1..]| ==> s[1..][i] == s[i + 1];
      if !(forall i :: 0 <= i < |s| && !IsJsWhitespace(s[i]) ==> IsDecDigit(s[i])) {
        var i :| 0 <= i < |s| && !IsJsWhitespace(s[i]) && !IsDecDigit(s[i]);
        if i > 0 {
          assert s[1..][i - 1] == s[i];
        }
      }
    }
  }

  /** A decimal digit string has no white space to strip. */
  lemma {:induction false} StripKeepsDecimal(s: string)
    requires IsDecimal(s)
    ensures StripWhitespace(s) == s
    decreases |s|
  {
    if s != [] {
      assert IsDecimal(s[1..]) by {
        assert forall i :: 0 <= i < |s[1..]| ==> s[1..][i] == s[i + 1];
      }
      StripKeepsDecimal(s[1..]);
      assert [s[0]] + s[1..] == s;
    }
  }

  // ---------- hexadecimal ----------

  const HexChars: string := "0123456789abcdef"

  /** bn.js renders base 16 with lower-case digits. */
  predicate IsHexDigit(c: char) { '0' <= c <= '9' || 'a' <= c <= 'f' }

  predicate IsLowerHex(s: string) {
    forall i :: 0 <= i < |s| ==> IsHexDigit(s[i])
  }

  function HexDigit(d: nat): (c: char)
    requires d < 16
    ensures IsHexDigit(c)
  {
    HexChars[d]
  }

  function HexDigitValue(c: char): (d: nat)
    requires IsHexDigit(c)
    ensures d < 16
    ensures HexDigit(d) == c
  {
    if c <= '9' then c as int - '0' as int else c as int - 'a' as int + 10
  }

  /** The value of a lower-case hex string, most significant digit first. */
  function HexValue(s: string): nat
    requires IsLowerHex(s)
    decreases |s|
  {
    if s == [] then 0 else HexValue(s[..|s| - 1]) * 16 + HexDigitValue(s[|s| - 1])
  }

  /** The shortest base-16 rendering of `n`, as `BN.toString(16)` gives it:
      "0" for zero, otherwise no leading zero digit. */
  function ToHex(n: nat): (r: string)
    ensures IsLowerHex(r) && |r| >= 1
    decreases n
  {
    if n < 16 then [HexDigit(n)] else ToHex(n / 16) + [HexDigit(n % 16)]
  }

  /** A hex string is minimal when it is "0" or does not start with '0'. */
  predicate IsMinimalHex(s: string) {
    IsLowerHex(s) && |s| >= 1 && (s == "0" || s[0] != '0')
  }

  lemma {:induction false} HexRoundTrip(n: nat)
    ensures HexValue(ToHex(n)) == n
    decreases n
  {
    if n >= 16 {
      var r := ToHex(n);
      var q := ToHex(n / 16);
      var d := HexDigit(n % 16);
      assert r == q + [d];
      assert r[..|r| - 1] == q && r[|r| - 1] == d;
      HexRoundTrip(n / 16);
      assert HexDigitValue(d) == n % 16;
      assert HexValue(r) == (n / 16) * 16 + n % 16;
    }
  }

  lemma {:induction false} ToHexIsMinimal(n: nat)
    ensures IsMinimalHex(ToHex(n))
    ensures ToHex(n) == "0" <==> n == 0
    decreases n
  {
    if n >= 16 {
      ToHexIsMinimal(n / 16);
      assert ToHex(n)[0] == ToHex(n / 16)[0];
    } else if n != 0 {
      assert ToHex(n)[0] == HexChars[n];
    }
  }

  /** A minimal hex string with a nonzero leading digit denotes a positive value. */
  lemma {:induction false} LeadingDigitPositive(s: string)
    requires IsLowerHex(s) && |s| >= 1 && s[0] != '0'
    ensures HexValue(s) > 0
    decreases |s|
  {
    if |s| > 1 {
      LeadingDigitPositive(s[..|s| - 1]);
    } else {
      assert HexDigit(HexDigitValue(s[0])) == s[0];
    }
  }

  /** ToHex is the only minimal rendering: a minimal hex string is exactly
      ToHex of its value. */
  lemma {:induction false} MinimalHexUnique(s: string)
    requires IsMinimalHex(s)
    ensures ToHex(HexValue(s)) == s
    decreases |s|
  {
    var c := s[|s| - 1];
    var v := HexDigitValue(c);
    if |s| == 1 {
      assert s == [c];
      assert HexValue(s) == v;
    } else {
      var p := s[..|s| - 1];
      assert p[0] == s[0];
      assert s != "0";
      LeadingDigitPositive(p);
      MinimalHexUnique(p);
      var n := HexValue(s);
      assert n == HexValue(p) * 16 + v;
      assert n / 16 == HexValue(p) && n % 16 == v;
      assert s == p + [c];
    }
  }

  /** A leading zero digit does not change the value. */
  lemma {:induction false} HexLeadingZero(s: string)
    requires IsLowerHex(s)
    ensures IsLowerHex("0" + s) && HexValue("0" + s) == HexValue(s)
    decreases |s|
  {
    var z := "0" + s;
    assert forall i :: 0 <= i < |z| ==> z[i] == if i == 0 then '0' else s[i - 1];
    if s != [] {
      assert z[..|z| - 1] == "0" + s[..|s| - 1];
      HexLeadingZero(s[..|s| - 1]);
    }
  }
}
