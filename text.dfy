/**
 * The JavaScript string built-ins that the downloader relies on:
 * `String.prototype.includes`, `String.prototype.split` with a one-character
 * separator, the global `parseInt` with no radix, and the conversion of an
 * integral Number (or NaN) back to a string.
 */
module Text {
  import opened Wrappers

  /** JavaScript truthiness of an optional string: present and not empty. */
  predicate Truthy(v: Option<string>)
  {
    v.Some? && v.value != ""
  }

  // ---------------------------------------------------------------------
  // includes

  /** `sub` occurs in `s` at index `i`. */
  ghost predicate OccursAt(s: string, sub: string, i: int)
  {
    0 <= i && i + |sub| <= |s| && s[i..i + |sub|] == sub
  }

  /** `s.includes(sub)`: true when `sub` occurs somewhere in `s` (always, for the empty `sub`). */
  function Contains(s: string, sub: string): (b: bool)
    ensures b <==> exists i :: OccursAt(s, sub, i)
    decreases |s|
  {
    if |sub| > |s| then
      false
    else if s[..|sub|] == sub then
      assert OccursAt(s, sub, 0);
      true
    else
      var rest := Contains(s[1..], sub);
      ShiftOccurrence(s, sub);
      rest
  }

  /** When `sub` does not start `s`, the occurrences in `s` are those in `s[1..]`, shifted by one. */
  lemma ShiftOccurrence(s: string, sub: string)
    requires |sub| <= |s| && s[..|sub|] != sub
    ensures |s| > 0
    ensures (exists i :: OccursAt(s[1..], sub, i)) <==> (exists i :: OccursAt(s, sub, i))
  {
    if exists i :: OccursAt(s[1..], sub, i) {
      var i :| OccursAt(s[1..], sub, i);
      assert s[1..][i..i + |sub|] == s[i + 1..i + 1 + |sub|];
      assert OccursAt(s, sub, i + 1);
    }
    if exists i :: OccursAt(s, sub, i) {
      var i :| OccursAt(s, sub, i);
      assert i != 0;
      assert s[i..i + |sub|] == s[1..][i - 1..i - 1 + |sub|];
      assert OccursAt(s[1..], sub, i - 1);
    }
  }

  /** A string contains each of its suffixes. */
  lemma ContainsSuffix(s: string, t: string)
    ensures Contains(s + t, t)
  {
    assert OccursAt(s + t, t, |s|);
  }

  /** A string contains whatever sits between a prefix and a suffix of it. */
  lemma ContainsMiddle(a: string, sub: string, b: string)
    ensures Contains(a + sub + b, sub)
  {
    assert (a + sub + b)[|a|..|a| + |sub|] == sub;
    assert OccursAt(a + sub + b, sub, |a|);
  }

  // ---------------------------------------------------------------------
  // split and join

  /** `s.split(sep)` for a one-character separator: never empty, even for "". */
  function Split(s: string, sep: char): (parts: seq<string>)
    ensures |parts| >= 1
    ensures forall k :: 0 <= k < |parts| ==> sep !in parts[k]
    ensures |parts| == 1 <==> sep !in s
  {
    if |s| == 0 then
      [""]
    else
      var rest := Split(s[1..], sep);
      if s[0] == sep then
        [""] + rest
      else
        [[s[0]] + rest[0]] + rest[1..]
  }

  /** `parts.join(sep)`, the inverse of `Split`. */
  function Join(parts: seq<string>, sep: char): string
    requires |parts| >= 1
  {
    if |parts| == 1 then parts[0] else parts[0] + [sep] + Join(parts[1..], sep)
  }

  /** Joining the parts of a split with the separator gives the string back. */
  lemma {:induction false} SplitJoin(s: string, sep: char)
    ensures Join(Split(s, sep), sep) == s
  {
    if |s| > 0 {
      var rest := Split(s[1..], sep);
      SplitJoin(s[1..], sep);
      if s[0] == sep {
        JoinAfterEmpty(rest, sep);
      } else {
        JoinFirstGrown(s[0], rest, sep);
      }
      assert s == [s[0]] + s[1..];
    }
  }

  /** An empty first part joins to a leading separator. */
  lemma JoinAfterEmpty(parts: seq<string>, sep: char)
    requires |parts| >= 1
    ensures Join([""] + parts, sep) == [sep] + Join(parts, sep)
  {
    assert ([""] + parts)[1..] == parts;
  }

  /** Putting a character in front of the first part puts it in front of the join. */
  lemma JoinFirstGrown(c: char, parts: seq<string>, sep: char)
    requires |parts| >= 1
    ensures Join([[c] + parts[0]] + parts[1..], sep) == [c] + Join(parts, sep)
  {
    var grown := [[c] + parts[0]] + parts[1..];
    if |parts| > 1 {
      assert grown[1..] == parts[1..];
    }
  }

  /** The last element of `s.split(sep)`: the text after the last `sep`, or all of `s`. */
  function LastSegment(s: string, sep: char): (seg: string)
    ensures sep !in seg
    ensures IsLastSegmentOf(seg, s, sep)
  {
    var parts := Split(s, sep);
    SplitLastPart(s, sep);
    parts[|parts| - 1]
  }

  /** The last part of `Split(s, sep)` is a suffix of `s`, preceded by `sep` unless it is all of `s`. */
  lemma {:induction false} SplitLastPart(s: string, sep: char)
    ensures IsLastSegmentOf(Split(s, sep)[|Split(s, sep)| - 1], s, sep)
  {
    if |s| > 0 {
      var t := s[1..];
      var rest := Split(t, sep);
      var seg := rest[|rest| - 1];
      SplitLastPart(t, sep);
      assert IsLastSegmentOf(seg, t, sep);
      if s[0] == sep {
        assert Split(s, sep) == [""] + rest;
        assert s[|s| - |seg|..] == t[|t| - |seg|..];
      } else if |rest| == 1 {
        assert Split(s, sep) == [[s[0]] + rest[0]];
        assert [s[0]] + t == s;
      } else {
        assert Split(s, sep) == [[s[0]] + rest[0]] + rest[1..];
        assert t[0..] == t;
        assert sep in t;
        assert |seg| < |t|;
        assert s[|s| - |seg|..] == t[|t| - |seg|..];
      }
    }
  }

  ghost predicate IsLastSegmentOf(seg: string, s: string, sep: char)
  {
    |seg| <= |s| && seg == s[|s| - |seg|..] && (|seg| == |s| || s[|s| - |seg| - 1] == sep)
  }

  // ---------------------------------------------------------------------
  // parseInt

  /** ECMAScript WhiteSpace and LineTerminator code points, which `parseInt` skips. */
  predicate IsJsSpace(c: char)
  {
    c == '\t' || c == '\U{B}' || c == '\U{C}' || c == ' ' || c == '\U{A0}' || c == '\U{FEFF}'
    || c == '\n' || c == '\r' || c == '\U{2028}' || c == '\U{2029}'
    || c == '\U{1680}' || ('\U{2000}' <= c <= '\U{200A}') || c == '\U{202F}' || c == '\U{205F}'
    || c == '\U{3000}'
  }

  /** `s` with its leading white space removed. */
  function TrimStart(s: string): (t: string)
    ensures |t| <= |s| && t == s[|s| - |t|..]
    ensures forall i :: 0 <= i < |s| - |t| ==> IsJsSpace(s[i])
    ensures t == [] || !IsJsSpace(t[0])
  {
    if |s| > 0 && IsJsSpace(s[0]) then TrimStart(s[1..]) else s
  }

  /** `c` is a decimal digit, or a hexadecimal one when `hex` holds. */
  predicate IsDigit(c: char, hex: bool)
  {
    ('0' <= c <= '9') || (hex && (('a' <= c <= 'f') || ('A' <= c <= 'F')))
  }

  function Radix(hex: bool): nat
  {
    if hex then 16 else 10
  }

  function DigitValue(c: char, hex: bool): (d: nat)
    requires IsDigit(c, hex)
    ensures d < Radix(hex)
  {
    if '0' <= c <= '9' then c as nat - '0' as nat
    else if 'a' <= c <= 'f' then c as nat - 'a' as nat + 10
    else c as nat - 'A' as nat + 10
  }

  /** The longest prefix of `s` made of digits. */
  function DigitPrefix(s: string, hex: bool): (z: string)
    ensures |z| <= |s| && z == s[..|z|]
    ensures forall i :: 0 <= i < |z| ==> IsDigit(z[i], hex)
    ensures |z| < |s| ==> !IsDigit(s[|z|], hex)
  {
    if |s| > 0 && IsDigit(s[0], hex) then [s[0]] + DigitPrefix(s[1..], hex) else ""
  }

  /** The number that the digit string `z` denotes. */
  function DigitsValue(z: string, hex: bool): nat
    requires forall i :: 0 <= i < |z| ==> IsDigit(z[i], hex)
  {
    if |z| == 0 then 0
    else DigitsValue(z[..|z| - 1], hex) * Radix(hex) + DigitValue(z[|z| - 1], hex)
  }

  /** `u` starts with the "0x" or "0X" prefix that selects base 16. */
  predicate HasHexPrefix(u: string)
  {
    |u| >= 2 && u[0] == '0' && (u[1] == 'x' || u[1] == 'X')
  }

  /** The unsigned part of `parseInt`: `None` when no digit follows. */
  function ParseMagnitude(u: string): Option<nat>
  {
    var hex := HasHexPrefix(u);
    var z := DigitPrefix(if hex then u[2..] else u, hex);
    if z == "" then None else Some(DigitsValue(z, hex))
  }

  /**
   * `parseInt(s)` with no radix: skip white space, take an optional sign, a
   * "0x"/"0X" prefix switches to base 16, then the longest digit prefix.
   * `None` stands for NaN (no digits at all).
   */
  function ParseInt(s: string): (r: Option<int>)
    ensures (forall i :: 0 <= i < |s| ==> IsJsSpace(s[i])) ==> r.None?
    ensures |s| >= 1 && !IsJsSpace(s[0]) && !IsDigit(s[0], false) && s[0] != '-' && s[0] != '+' ==> r.None?
    ensures |s| >= 1 && IsDigit(s[0], false) && !HasHexPrefix(s) ==> r.Some? && r.value >= 0
  {
    var t := TrimStart(s);
    if |t| > 0 && (t[0] == '-' || t[0] == '+') then Signed(t[0] == '-', ParseMagnitude(t[1..]))
    else Signed(false, ParseMagnitude(t))
  }

  /** The magnitude with its sign applied; NaN stays NaN. */
  function Signed(negative: bool, magnitude: Option<nat>): Option<int>
  {
    match magnitude
    case None => None
    case Some(m) => Some(if negative then -(m as int) else m as int)
  }

  // ---------------------------------------------------------------------
  // Number to string

  function DigitChar(d: nat): (c: char)
    requires d < 10
    ensures IsDigit(c, false) && DigitValue(c, false) == d
  {
    ('0' as nat + d) as char
  }

  /** The decimal numeral of `n`, without leading zeros. */
  function NatString(n: nat): (s: string)
    ensures |s| >= 1
    ensures forall i :: 0 <= i < |s| ==> '0' <= s[i] <= '9'
    ensures s[0] == '0' ==> s == "0"
  {
    if n < 10 then [DigitChar(n)] else NatString(n / 10) + [DigitChar(n % 10)]
  }

  /** `String(n)` for an integral Number: a minus sign, then the decimal numeral of `|n|`. */
  function IntString(n: int): string
  {
    if n < 0 then "-" + NatString(-n) else NatString(n)
  }

  /** `String(x)` where `x` is the result of `parseInt`: "NaN" for `None`. */
  function NumberString(x: Option<int>): string
  {
    match x
    case None => "NaN"
    case Some(n) => IntString(n)
  }

  lemma {:induction false} NatStringValue(n: nat)
    ensures DigitsValue(NatString(n), false) == n
  {
    if n >= 10 {
      var s := NatString(n);
      assert s[..|s| - 1] == NatString(n / 10);
      NatStringValue(n / 10);
    }
  }

  /** A string of decimal digits, not starting with "0x", is read whole as a decimal number. */
  lemma ParseDecimalMagnitude(u: string)
    requires |u| >= 1 && forall i :: 0 <= i < |u| ==> '0' <= u[i] <= '9'
    ensures ParseMagnitude(u) == Some(DigitsValue(u, false))
  {
    assert !HasHexPrefix(u);
    assert DigitPrefix(u, false) == u;
  }

  /** Without leading white space or sign, `parseInt` is the unsigned reading. */
  lemma ParseIntUnsigned(s: string)
    requires |s| >= 1 && '0' <= s[0] <= '9'
    ensures ParseInt(s) == Signed(false, ParseMagnitude(s))
  {
    assert !IsJsSpace(s[0]);
    assert TrimStart(s) == s;
  }

  /** A leading minus sign negates the unsigned reading of what follows. */
  lemma ParseIntNegative(s: string)
    requires |s| >= 2 && s[0] == '-'
    ensures ParseInt(s) == Signed(true, ParseMagnitude(s[1..]))
  {
    assert !IsJsSpace(s[0]);
    assert TrimStart(s) == s;
  }

  /** `parseInt(String(n))` gives `n` back: the numerals this model writes are read exactly. */
  lemma ParseIntString(n: int)
    ensures ParseInt(IntString(n)) == Some(n)
  {
    var m: nat := if n < 0 then -n else n;
    var digits := NatString(m);
    NatStringValue(m);
    ParseDecimalMagnitude(digits);
    if n < 0 {
      var s := "-" + digits;
      assert s[1..] == digits;
      ParseIntNegative(s);
    } else {
      ParseIntUnsigned(digits);
    }
  }

  /** `parseInt` reads the leading decimal digits and ignores whatever follows them. */
  lemma ParseIntStopsAtNonDigit(digits: string, rest: string)
    requires |digits| >= 1
    requires forall i :: 0 <= i < |digits| ==> '0' <= digits[i] <= '9'
    requires rest == [] || !('0' <= rest[0] <= '9' || rest[0] == 'x' || rest[0] == 'X')
    ensures ParseInt(digits + rest) == Some(DigitsValue(digits, false))
  {
    var s := digits + rest;
    assert s[0] == digits[0];
    assert |s| >= 2 ==> s[1] == if |digits| >= 2 then digits[1] else rest[0];
    assert !HasHexPrefix(s);
    DigitPrefixStops(digits, rest, false);
    assert ParseMagnitude(s) == Some(DigitsValue(digits, false));
    ParseIntUnsigned(s);
  }

  lemma {:induction false} DigitPrefixStops(digits: string, rest: string, hex: bool)
    requires forall i :: 0 <= i < |digits| ==> IsDigit(digits[i], hex)
    requires rest == [] || !IsDigit(rest[0], hex)
    ensures DigitPrefix(digits + rest, hex) == digits
  {
    if digits != [] {
      assert (digits + rest)[1..] == digits[1..] + rest;
      DigitPrefixStops(digits[1..], rest, hex);
    } else {
      assert digits + rest == rest;
    }
  }
}
