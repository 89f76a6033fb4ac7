/** The few JavaScript string operations the viewer relies on: `toLowerCase` on ASCII letters,
    `endsWith`, `includes`, `String(n)` on natural numbers, `replace('#', '')` and
    `parseInt(s, 16)`. */
module Text {
  import opened Types

  function LowerChar(c: char): char {
    if 'A' <= c <= 'Z' then (c as int + 32) as char else c
  }

  function UpperChar(c: char): char {
    if 'a' <= c <= 'z' then (c as int - 32) as char else c
  }

  /** `s.toLowerCase()` restricted to ASCII letters. */
  function ToLower(s: string): (r: string)
    ensures |r| == |s|
    ensures forall i :: 0 <= i < |s| ==> r[i] == LowerChar(s[i])
  {
    if s == [] then [] else [LowerChar(s[0])] + ToLower(s[1..])
  }

  predicate EndsWith(s: string, suffix: string) {
    |suffix| <= |s| && s[|s| - |suffix|..] == suffix
  }

  predicate OccursAt(s: string, sub: string, i: int) {
    0 <= i && i + |sub| <= |s| && s[i..i + |sub|] == sub
  }

  /** `s.includes(sub)`. */
  predicate Contains(s: string, sub: string) {
    exists i | 0 <= i <= |s| - |sub| :: OccursAt(s, sub, i)
  }

  /** `s.replace('#', '')`: a string pattern replaces only its first occurrence. */
  function RemoveFirstHash(s: string): (r: string)
    ensures '#' in s ==> |r| == |s| - 1
    ensures '#' !in s ==> r == s
    ensures |s| > 0 && s[0] == '#' ==> r == s[1..]
  {
    if s == [] then []
    else if s[0] == '#' then s[1..]
    else [s[0]] + RemoveFirstHash(s[1..])
  }

  /** Only the first `#` goes: when it is at `k`, the result is the text around it. */
  lemma {:induction false} RemoveFirstHashAt(s: string, k: nat)
    requires k < |s| && s[k] == '#' && '#' !in s[..k]
    ensures RemoveFirstHash(s) == s[..k] + s[k + 1..]
    decreases k
  {
    if k == 0 {
      assert s[..0] + s[1..] == s[1..];
    } else {
      assert s[0] in s[..k];
      var t := s[1..];
      assert t[..k - 1] == s[1..k];
      assert '#' !in t[..k - 1];
      RemoveFirstHashAt(t, k - 1);
      assert s[..k] == [s[0]] + t[..k - 1];
      assert s[k + 1..] == t[k..];
    }
  }

  function DecimalDigit(d: nat): char
    requires d < 10
  {
    "0123456789"[d]
  }

  /** `String(n)` for a natural number: its decimal digits, most significant first. */
  function NatToString(n: nat): (r: string)
    ensures |r| >= 1
    ensures forall i :: 0 <= i < |r| ==> '0' <= r[i] <= '9'
    decreases n
  {
    if n < 10 then [DecimalDigit(n)] else NatToString(n / 10) + [DecimalDigit(n % 10)]
  }

  /** Distinct numbers print differently, so unnamed entries never collide with one another. */
  lemma {:induction false} NatToStringInjective(a: nat, b: nat)
    requires NatToString(a) == NatToString(b)
    ensures a == b
    decreases a
  {
    var sa, sb := NatToString(a), NatToString(b);
    assert sa[|sa| - 1] == sb[|sb| - 1];
    assert DecimalDigit(a % 10) == DecimalDigit(b % 10);
    assert a % 10 == b % 10;
    if a >= 10 && b >= 10 {
      assert NatToString(a / 10) == sa[..|sa| - 1];
      assert NatToString(b / 10) == sb[..|sb| - 1];
      NatToStringInjective(a / 10, b / 10);
    }
  }

  /** The value of a hexadecimal digit of either case. */
  function HexDigitValue(c: char): (r: Option<nat>)
    ensures r.Some? ==> r.value < 16
  {
    if '0' <= c <= '9' then Some(c as int - '0' as int)
    else if 'a' <= c <= 'f' then Some(c as int - 'a' as int + 10)
    else if 'A' <= c <= 'F' then Some(c as int - 'A' as int + 10)
    else None
  }

  predicate IsHexDigit(c: char) {
    HexDigitValue(c).Some?
  }

  predicate AllHexDigits(s: string) {
    forall i :: 0 <= i < |s| ==> IsHexDigit(s[i])
  }

  /** The number the hexadecimal digits `s` denote. */
  function HexValue(s: string): (r: nat)
    requires AllHexDigits(s)
    decreases |s|
  {
    if s == [] then 0
    else HexValue(s[..|s| - 1]) * 16 + HexDigitValue(s[|s| - 1]).value
  }

  function Pow16(n: nat): (r: nat)
    ensures r >= 1
  {
    if n == 0 then 1 else 16 * Pow16(n - 1)
  }

  lemma {:induction false} HexValueBound(s: string)
    requires AllHexDigits(s)
    ensures HexValue(s) < Pow16(|s|)
    decreases |s|
  {
    if s != [] {
      var p := s[..|s| - 1];
      HexValueBound(p);
      assert HexValue(s) == HexValue(p) * 16 + HexDigitValue(s[|s| - 1]).value;
      assert HexValue(p) * 16 <= (Pow16(|p|) - 1) * 16;
    }
  }

  /** Length of the longest prefix of `s` made of hexadecimal digits. */
  function HexPrefixLength(s: string): (n: nat)
    ensures n <= |s|
    ensures AllHexDigits(s[..n])
    ensures n < |s| ==> !IsHexDigit(s[n])
  {
    if s == [] || !IsHexDigit(s[0]) then 0
    else
      var k := HexPrefixLength(s[1..]);
      assert s[..k + 1] == [s[0]] + s[1..][..k];
      k + 1
  }

  /** The white-space and line-terminator characters `parseInt` skips before the number. */
  predicate IsJsWhiteSpace(c: char) {
    c == '\t' || c == '\n' || c == '\U{000B}' || c == '\U{000C}' || c == '\r' || c == ' '
    || c == '\U{00A0}' || c == '\U{1680}' || ('\U{2000}' <= c <= '\U{200A}')
    || c == '\U{2028}' || c == '\U{2029}' || c == '\U{202F}' || c == '\U{205F}'
    || c == '\U{3000}' || c == '\U{FEFF}'
  }

  function TrimStart(s: string): (r: string)
    ensures |r| <= |s|
    ensures r == [] || !IsJsWhiteSpace(r[0])
  {
    if s != [] && IsJsWhiteSpace(s[0]) then TrimStart(s[1..]) else s
  }

  /** Only leading characters are removed: what remains is a suffix of the input. */
  lemma {:induction false} TrimStartSuffix(s: string)
    ensures TrimStart(s) == s[|s| - |TrimStart(s)|..]
    decreases |s|
  {
    if s != [] && IsJsWhiteSpace(s[0]) {
      TrimStartSuffix(s[1..]);
    }
  }

  /** `parseInt(s, 16)`: skip leading white space, read an optional sign and an optional
      `0x`/`0X` prefix, then the longest run of hexadecimal digits. `None` stands for `NaN`,
      which is the result when that run is empty. */
  function ParseIntHex(s: string): (r: Option<int>)
    ensures r.Some? <==>
      var t := TrimStart(s);
      var u := if |t| > 0 && (t[0] == '-' || t[0] == '+') then t[1..] else t;
      var v := if |u| >= 2 && u[0] == '0' && (u[1] == 'x' || u[1] == 'X') then u[2..] else u;
      |v| > 0 && IsHexDigit(v[0])
  {
    ReadSigned(TrimStart(s))
  }

  /** An optional sign, then the unsigned number. */
  function ReadSigned(t: string): Option<int> {
    if |t| > 0 && t[0] == '-' then
      var m := ReadUnsigned(t[1..]);
      if m.None? then None else Some(-(m.value as int))
    else if |t| > 0 && t[0] == '+' then ReadUnsigned(t[1..])
    else ReadUnsigned(t)
  }

  /** An optional `0x`/`0X` prefix, then the digits. */
  function ReadUnsigned(u: string): Option<nat> {
    LeadingHexValue(SkipHexPrefix(u))
  }

  function SkipHexPrefix(u: string): string {
    if |u| >= 2 && u[0] == '0' && (u[1] == 'x' || u[1] == 'X') then u[2..] else u
  }

  /** The value of the longest run of hexadecimal digits at the start of `v`, `None` when
      there is none. */
  function LeadingHexValue(v: string): (r: Option<nat>)
    ensures r.Some? <==> |v| > 0 && IsHexDigit(v[0])
  {
    var n := HexPrefixLength(v);
    if n == 0 then None else Some(HexValue(v[..n]))
  }

  /** The number `parseInt` yields is the value of the longest run of hexadecimal digits:
      digits `d` followed by anything that does not continue them read as `HexValue(d)`. */
  lemma ParseIntHexValue(d: string, rest: string)
    requires d != [] && AllHexDigits(d)
    requires rest == [] || !IsHexDigit(rest[0])
    requires !(d == "0" && |rest| > 0 && (rest[0] == 'x' || rest[0] == 'X'))
    ensures ParseIntHex(d + rest) == Some(HexValue(d))
  {
    var t := d + rest;
    ReadUnsignedDigits(d, rest);
    assert TrimStart(t) == t by {
      assert t[0] == d[0];
      HexDigitIsNoSpace(t[0]);
    }
    assert ReadSigned(t) == ReadUnsigned(t) by {
      assert t[0] == d[0];
      HexDigitIsNoSpace(t[0]);
    }
  }

  /** A `-` before a number that starts with neither white space nor a sign negates it, and
      leaves `NaN` as it is. */
  lemma ParseIntHexNegative(t: string)
    requires t == [] || (!IsJsWhiteSpace(t[0]) && t[0] != '-' && t[0] != '+')
    ensures ParseIntHex(t).None? ==> ParseIntHex("-" + t).None?
    ensures ParseIntHex(t).Some? ==> ParseIntHex("-" + t) == Some(-ParseIntHex(t).value)
  {
    UnsignedStart(t);
    MinusStart(t);
  }

  /** Without white space or a sign in front, only the prefix and the digits are read. */
  lemma UnsignedStart(t: string)
    requires t == [] || (!IsJsWhiteSpace(t[0]) && t[0] != '-' && t[0] != '+')
    ensures ParseIntHex(t) == ReadUnsigned(t)
  {
    assert TrimStart(t) == t;
  }

  /** A `-` is read as the sign of what follows it. */
  lemma MinusStart(t: string)
    ensures var m := ReadUnsigned(t); ParseIntHex("-" + t) == if m.None? then None else Some(-(m.value as int))
  {
    var p := "-" + t;
    assert TrimStart(p) == p by { assert p[0] == '-'; }
    assert p[0] == '-' && p[1..] == t;
  }

  /** A `0x` prefix is skipped once. */
  lemma ParseIntHexPrefixed(d: string, rest: string)
    requires d != [] && AllHexDigits(d)
    requires rest == [] || !IsHexDigit(rest[0])
    ensures ParseIntHex("0x" + (d + rest)) == Some(HexValue(d))
  {
    var t := d + rest;
    var q := "0x" + t;
    assert LeadingHexValue(t) == Some(HexValue(d)) by { HexPrefixOf(d, rest); }
    assert TrimStart(q) == q by { assert q[0] == '0'; }
    assert SkipHexPrefix(q) == t by { assert q[0] == '0' && q[1] == 'x' && q[2..] == t; }
    assert ReadSigned(q) == ReadUnsigned(q) by { assert q[0] == '0'; }
  }

  /** Digits not followed by another digit, and not a lone `0` before an `x`, read as their
      value. */
  lemma ReadUnsignedDigits(d: string, rest: string)
    requires d != [] && AllHexDigits(d)
    requires rest == [] || !IsHexDigit(rest[0])
    requires !(d == "0" && |rest| > 0 && (rest[0] == 'x' || rest[0] == 'X'))
    ensures ReadUnsigned(d + rest) == Some(HexValue(d))
  {
    NoHexPrefix(d, rest);
    assert SkipHexPrefix(d + rest) == d + rest;
    HexPrefixOf(d, rest);
  }

  lemma HexDigitIsNoSpace(c: char)
    requires IsHexDigit(c)
    ensures !IsJsWhiteSpace(c) && c != '-' && c != '+'
  {
    assert '0' <= c <= '9' || 'a' <= c <= 'f' || 'A' <= c <= 'F';
  }

  /** Digits followed by a non-digit do not start with a `0x` prefix, except `0` then `x`. */
  lemma NoHexPrefix(d: string, rest: string)
    requires d != [] && AllHexDigits(d)
    requires !(d == "0" && |rest| > 0 && (rest[0] == 'x' || rest[0] == 'X'))
    ensures var t := d + rest; !(|t| >= 2 && t[0] == '0' && (t[1] == 'x' || t[1] == 'X'))
  {
    var t := d + rest;
    if |d| >= 2 {
      assert t[1] == d[1] && IsHexDigit(d[1]);
    } else if |t| >= 2 && t[0] == '0' {
      assert d == "0";
      assert t[1] == rest[0];
    }
  }

  /** The digit run of `d + rest` is exactly `d`. */
  lemma {:induction false} HexPrefixOf(d: string, rest: string)
    requires AllHexDigits(d)
    requires rest == [] || !IsHexDigit(rest[0])
    ensures HexPrefixLength(d + rest) == |d|
    ensures (d + rest)[..|d|] == d
    ensures d != [] ==> LeadingHexValue(d + rest) == Some(HexValue(d))
    decreases |d|
  {
    var t := d + rest;
    if d == [] {
      assert t == rest;
    } else {
      assert t[0] == d[0];
      assert t[1..] == d[1..] + rest;
      HexPrefixOf(d[1..], rest);
    }
  }

  /** `#` and one hexadecimal digit read as that digit's value. */
  lemma OneDigitColor(c: char)
    requires IsHexDigit(c)
    ensures HexColorValue(['#', c]) == Some(HexDigitValue(c).value)
  {
    assert RemoveFirstHash(['#', c]) == [c] && [c] + [] == [c];
    assert HexValue([c]) == HexDigitValue(c).value by { assert [c][..0] == []; }
    ParseIntHexValue([c], []);
  }

  /** The secondary colours of the adapter test, `#a`, `#b` and `#c`, read as 10, 11 and 12. */
  lemma ShortColorExamples()
    ensures HexColorValue("#a") == Some(10)
    ensures HexColorValue("#b") == Some(11)
    ensures HexColorValue("#c") == Some(12)
  {
    OneDigitColor('a');
    OneDigitColor('b');
    OneDigitColor('c');
  }

  /** `parseInt(s.replace('#', ''), 16)`: how the adapter reads a colour string. */
  function HexColorValue(s: string): Option<int> {
    ParseIntHex(RemoveFirstHash(s))
  }

  /** `/^#([0-9A-F]{3}){1,2}$/i`: `#` followed by three or six hexadecimal digits. */
  predicate IsHexColor(s: string) {
    (|s| == 4 || |s| == 7) && s[0] == '#' && AllHexDigits(s[1..])
  }

  /** Every string the colour validator accepts is read by the adapter as exactly the number
      its digits denote, below 16^3 or 16^6. */
  lemma HexColorParsesItsDigits(s: string)
    requires IsHexColor(s)
    ensures HexColorValue(s) == Some(HexValue(s[1..]))
    ensures HexValue(s[1..]) < Pow16(|s| - 1)
  {
    var d := s[1..];
    assert RemoveFirstHash(s) == d;
    assert TrimStart(d) == d by { assert !IsJsWhiteSpace(d[0]); }
    assert !(d[0] == '-' || d[0] == '+');
    assert !(|d| >= 2 && d[0] == '0' && (d[1] == 'x' || d[1] == 'X')) by {
      assert IsHexDigit(d[1]);
    }
    assert HexPrefixLength(d) == |d|;
    assert d[..|d|] == d;
    HexValueBound(d);
  }

  /** `c.toUpperCase() + rest`: the first letter capitalised. */
  function Capitalize(s: string): (r: string)
    ensures |r| == |s|
    ensures s != [] ==> r[0] == UpperChar(s[0]) && r[1..] == s[1..]
  {
    if s == [] then [] else [UpperChar(s[0])] + s[1..]
  }

  /** `String(n)` for an integer. */
  function IntToString(n: int): (r: string)
    ensures r != []
  {
    if n < 0 then "-" + NatToString(-n) else NatToString(n)
  }

  /** The order of the default `Array.prototype.sort`: lexicographic on characters. */
  predicate StrLess(a: string, b: string)
    decreases |a|
  {
    if a == [] then b != []
    else if b == [] then false
    else if a[0] != b[0] then a[0] < b[0]
    else StrLess(a[1..], b[1..])
  }

  lemma {:induction false} StrLessIrreflexive(a: string)
    ensures !StrLess(a, a)
    decreases |a|
  {
    if a != [] { StrLessIrreflexive(a[1..]); }
  }

  lemma {:induction false} StrLessTransitive(a: string, b: string, c: string)
    requires StrLess(a, b) && StrLess(b, c)
    ensures StrLess(a, c)
    decreases |a|
  {
    if a != [] && b != [] && c != [] && a[0] == b[0] && b[0] == c[0] {
      StrLessTransitive(a[1..], b[1..], c[1..]);
    }
  }

  lemma {:induction false} StrLessTotal(a: string, b: string)
    requires a != b
    ensures StrLess(a, b) || StrLess(b, a)
    decreases |a|
  {
    if a != [] && b != [] && a[0] == b[0] {
      assert a == [a[0]] + a[1..] && b == [b[0]] + b[1..];
      StrLessTotal(a[1..], b[1..]);
    }
  }

  /** Sorted without repetitions. */
  predicate StrictlySorted(s: seq<string>) {
    forall i, j :: 0 <= i < j < |s| ==> StrLess(s[i], s[j])
  }

  lemma {:induction false} HasLeast(S: set<string>)
    requires S != {}
    ensures exists m :: m in S && forall y :: y in S ==> !StrLess(y, m)
    decreases |S|
  {
    var x :| x in S;
    if S == {x} {
      StrLessIrreflexive(x);
    } else {
      var rest := S - {x};
      HasLeast(rest);
      var m :| m in rest && forall y :: y in rest ==> !StrLess(y, m);
      if StrLess(x, m) {
        forall y | y in S ensures !StrLess(y, x) {
          if y == x { StrLessIrreflexive(x); }
          else if StrLess(y, x) { StrLessTransitive(y, x, m); }
        }
      } else {
        assert forall y :: y in S ==> !StrLess(y, m);
      }
    }
  }

  /** `Array.from(set).sort()`: the elements of `S` in increasing order. */
  method SortStrings(S: set<string>) returns (r: seq<string>)
    ensures StrictlySorted(r)
    ensures forall x :: x in r <==> x in S
  {
    r := [];
    var rest := S;
    while rest != {}
      invariant rest <= S
      invariant forall x :: x in S <==> x in r || x in rest
      invariant StrictlySorted(r)
      invariant forall a, b :: a in r && b in rest ==> StrLess(a, b)
      decreases |rest|
    {
      HasLeast(rest);
      var m :| m in rest && forall y :: y in rest ==> !StrLess(y, m);
      forall b | b in rest - {m} ensures StrLess(m, b) {
        StrLessTotal(m, b);
      }
      r := r + [m];
      rest := rest - {m};
    }
  }
}
