/**
 * The string primitives of JavaScript that the app calls: `String.prototype.trim`,
 * `parseInt(v, 10)`, `String(n)` on integers and `padStart(2, "0")`.
 * Strings are sequences of Unicode scalar values.
 */
module Text {
  import opened Wrappers

  /** ECMAScript WhiteSpace and LineTerminator: what `trim` and `parseInt` skip. */
  predicate IsJsSpace(c: char) {
    c == ' ' || c == '\t' || c == '\n' || c == '\r' || c == '\U{000B}' || c == '\U{000C}'
    || c == '\U{00A0}' || c == '\U{1680}' || ('\U{2000}' <= c <= '\U{200A}')
    || c == '\U{2028}' || c == '\U{2029}' || c == '\U{202F}' || c == '\U{205F}'
    || c == '\U{3000}' || c == '\U{FEFF}'
  }

  /** Nothing but whitespace. */
  predicate AllSpace(s: string) {
    forall i :: 0 <= i < |s| ==> IsJsSpace(s[i])
  }

  /** Drops leading whitespace. */
  function TrimStart(s: string): (r: string)
    ensures |r| <= |s|
    ensures forall i :: 0 <= i < |s| - |r| ==> IsJsSpace(s[i])
    ensures r == [] || (!IsJsSpace(r[0]) && r[0] == s[|s| - |r|])
  {
    if |s| > 0 && IsJsSpace(s[0]) then TrimStart(s[1..]) else s
  }

  /** Drops trailing whitespace. */
  function TrimEnd(s: string): (r: string)
    ensures |r| <= |s|
    ensures forall i :: |r| <= i < |s| ==> IsJsSpace(s[i])
    ensures r == [] || (!IsJsSpace(r[|r| - 1]) && r[0] == s[0] && r[|r| - 1] == s[|r| - 1])
  {
    if |s| > 0 && IsJsSpace(s[|s| - 1]) then TrimEnd(s[..|s| - 1]) else s
  }

  /** `s.trim()`: the text between the leading and the trailing whitespace. */
  function Trim(s: string): (r: string)
    ensures exists i, j :: 0 <= i <= j <= |s| && r == s[i..j] && AllSpace(s[..i]) && AllSpace(s[j..])
    ensures r == [] <==> AllSpace(s)
    ensures r != [] ==> !IsJsSpace(r[0]) && !IsJsSpace(r[|r| - 1])
  {
    TrimBlankIff(s);
    TrimEnds(s);
    TrimIsSlice(s);
    TrimEnd(TrimStart(s))
  }

  /** Trimming keeps the slice of `s` between its leading and its trailing whitespace. */
  lemma TrimIsSlice(s: string)
    ensures SliceBetweenSpace(s, |s| - |TrimStart(s)|, TrimEnd(TrimStart(s)))
  {
    var t := TrimStart(s);
    assert AfterSpace(s, t) by { TrimStartIsSuffix(s); }
    assert BeforeSpace(t, TrimEnd(t)) by { TrimEndIsPrefix(t); }
    TrimmedSlice(s, t, TrimEnd(t));
  }

  /** `r` is the slice of `s` at `i`, with only whitespace before and after it. */
  predicate SliceBetweenSpace(s: string, i: int, r: string) {
    0 <= i <= i + |r| <= |s| && r == s[i..i + |r|] && AllSpace(s[..i]) && AllSpace(s[i + |r|..])
  }

  /** `t` is what is left of `s` after a run of leading whitespace. */
  predicate AfterSpace(s: string, t: string) {
    |t| <= |s| && t == s[|s| - |t|..] && forall k :: 0 <= k < |s| - |t| ==> IsJsSpace(s[k])
  }

  /** `r` is what is left of `t` before a run of trailing whitespace. */
  predicate BeforeSpace(t: string, r: string) {
    |r| <= |t| && r == t[..|r|] && forall k :: |r| <= k < |t| ==> IsJsSpace(t[k])
  }

  /**
   * A suffix `t` of `s` after whitespace, cut down to a prefix `r` before
   * whitespace, is the slice of `s` between the two runs of whitespace.
   */
  lemma TrimmedSlice(s: string, t: string, r: string)
    requires AfterSpace(s, t) && BeforeSpace(t, r)
    ensures SliceBetweenSpace(s, |s| - |t|, r)
  {
    var i := |s| - |t|;
    var j := i + |r|;
    forall m | 0 <= m < |s| - j
      ensures IsJsSpace(s[j..][m])
    {
      assert s[j..][m] == t[|r| + m];
    }
  }

  /** What `TrimStart` keeps is a suffix of its input. */
  lemma {:induction false} TrimStartIsSuffix(s: string)
    ensures AfterSpace(s, TrimStart(s))
  {
    if |s| > 0 && IsJsSpace(s[0]) {
      TrimStartIsSuffix(s[1..]);
      assert s[1..][|s| - 1 - |TrimStart(s)|..] == s[|s| - |TrimStart(s)|..];
    }
  }

  /** What `TrimEnd` keeps is a prefix of its input. */
  lemma {:induction false} TrimEndIsPrefix(s: string)
    ensures BeforeSpace(s, TrimEnd(s))
  {
    if |s| > 0 && IsJsSpace(s[|s| - 1]) {
      TrimEndIsPrefix(s[..|s| - 1]);
    }
  }

  lemma TrimBlankIff(s: string)
    ensures TrimEnd(TrimStart(s)) == [] <==> AllSpace(s)
  {
    var t := TrimStart(s);
    TrimStartBlank(s);
    TrimEndBlank(t);
  }

  lemma TrimEnds(s: string)
    ensures var r := TrimEnd(TrimStart(s));
      r != [] ==> !IsJsSpace(r[0]) && !IsJsSpace(r[|r| - 1])
  {
    var t := TrimStart(s);
    var r := TrimEnd(t);
    if r != [] {
      // the first character survives `TrimEnd`, and `TrimStart` left it non-blank
      assert r[0] == t[0] && !IsJsSpace(t[0]);
    }
  }

  lemma TrimStartBlank(s: string)
    ensures TrimStart(s) == [] <==> AllSpace(s)
  {
    var r := TrimStart(s);
    if r != [] {
      // what is kept starts at a non-blank character of `s`
      assert !IsJsSpace(s[|s| - |r|]);
    }
  }

  lemma TrimEndBlank(s: string)
    ensures TrimEnd(s) == [] <==> AllSpace(s)
  {
    var r := TrimEnd(s);
    if r != [] {
      // what is kept ends at a non-blank character of `s`
      assert !IsJsSpace(s[|r| - 1]);
    }
  }

  lemma {:induction false} TrimIdempotent(s: string)
    ensures Trim(Trim(s)) == Trim(s)
  {
    var r := Trim(s);
    if r != [] {
      assert TrimStart(r) == r;
      assert TrimEnd(r) == r;
    }
  }

  predicate IsDigit(c: char) {
    '0' <= c <= '9'
  }

  predicate AllDigits(s: string) {
    forall i :: 0 <= i < |s| ==> IsDigit(s[i])
  }

  function DigitChar(d: nat): (c: char)
    requires d < 10
    ensures IsDigit(c)
  {
    ('0' as int + d) as char
  }

  /** The value of a decimal numeral, most significant digit first. */
  function DigitsValue(s: string): nat
    requires AllDigits(s)
  {
    if s == [] then 0 else DigitsValue(s[..|s| - 1]) * 10 + ((s[|s| - 1] as int) - ('0' as int))
  }

  /** `String(n)` for `n >= 0`: the shortest decimal numeral of `n`. */
  function NatToString(n: nat): (r: string)
    ensures |r| >= 1 && AllDigits(r) && DigitsValue(r) == n
    ensures r[0] == '0' ==> n == 0
    ensures n < 10 <==> |r| == 1
    ensures n < 100 ==> |r| <= 2
  {
    if n < 10 then [DigitChar(n)]
    else
      var r := NatToString(n / 10) + [DigitChar(n % 10)];
      assert r[..|r| - 1] == NatToString(n / 10);
      r
  }

  /** `String(n)` for any integer. */
  function IntToString(n: int): (r: string)
    ensures |r| >= 1
  {
    if n < 0 then "-" + NatToString(-n) else NatToString(n)
  }

  /** The number of decimal digits `s` starts with. */
  function LeadingDigits(s: string): (n: nat)
    ensures n <= |s| && AllDigits(s[..n])
    ensures n == |s| || !IsDigit(s[n])
  {
    if |s| > 0 && IsDigit(s[0]) then
      var n := 1 + LeadingDigits(s[1..]);
      assert s[..n] == [s[0]] + s[1..][..n - 1];
      n
    else 0
  }

  /**
   * `parseInt(s, 10)`: skip leading whitespace, read an optional sign and the
   * longest run of decimal digits after it; `None` stands for `NaN` (no digit).
   */
  function ParseInt(s: string): (r: Option<int>)
    ensures s != [] && AllDigits(s) ==> r == Some(DigitsValue(s))
    ensures s != [] && !IsJsSpace(s[0]) && !IsDigit(s[0]) && s[0] != '-' && s[0] != '+' ==> r == None
    ensures AllSpace(s) ==> r == None
  {
    PlainNumeral(s);
    TrimStartBlank(s);
    var t := TrimStart(s);
    var body := if |t| > 0 && (t[0] == '-' || t[0] == '+') then t[1..] else t;
    var n := LeadingDigits(body);
    var magnitude: int := if n == 0 then 0 else DigitsValue(body[..n]);
    if n == 0 then None
    else if t[0] == '-' then Some(-magnitude)
    else Some(magnitude)
  }

  /** `parseInt` reads back what `String` writes. */
  lemma ParseIntOfString(n: int)
    ensures ParseInt(IntToString(n)) == Some(n)
  {
    var s := IntToString(n);
    var digits := NatToString(if n < 0 then -n else n);
    assert !IsJsSpace(s[0]);
    assert TrimStart(s) == s;
    assert s[0] == '-' || IsDigit(s[0]);
    var body := if n < 0 then s[1..] else s;
    assert body == digits;
    AllDigitsLeading(digits);
    assert digits[..|digits|] == digits;
  }

  /** Text with no leading whitespace is its own `TrimStart`; a numeral is all leading digits. */
  /** Leading whitespace is skipped: `parseInt(" 30")` reads as `parseInt("30")`. */
  lemma ParseIntSkipsSpace(w: string, s: string)
    requires AllSpace(w)
    ensures ParseInt(w + s) == ParseInt(s)
  {
    TrimStartPastSpace(w, s);
  }

  lemma {:induction false} TrimStartPastSpace(w: string, s: string)
    requires AllSpace(w)
    ensures TrimStart(w + s) == TrimStart(s)
    decreases |w|
  {
    if w == [] {
      assert w + s == s;
    } else {
      assert (w + s)[0] == w[0] && IsJsSpace(w[0]);
      assert (w + s)[1..] == w[1..] + s;
      TrimStartPastSpace(w[1..], s);
    }
  }

  /** Reading stops at the first non-digit: `parseInt("30 min")` is 30. */
  lemma ParseIntStopsAtText(a: string, rest: string)
    requires a != [] && AllDigits(a) && (rest == [] || !IsDigit(rest[0]))
    ensures ParseInt(a + rest) == Some(DigitsValue(a))
  {
    var t := a + rest;
    assert t[0] == a[0] && t[..|a|] == a;
    LeadingDigitsOfJoin(a, rest);
    ParseIntOfDigitStart(t, |a|);
  }

  /** Text starting with a digit reads as its run of leading digits. */
  lemma ParseIntOfDigitStart(t: string, n: nat)
    requires t != [] && IsDigit(t[0]) && LeadingDigits(t) == n
    ensures ParseInt(t) == Some(DigitsValue(t[..n]))
  {
    assert !IsJsSpace(t[0]);
    PlainNumeral(t);
  }

  lemma {:induction false} LeadingDigitsOfJoin(a: string, rest: string)
    requires AllDigits(a) && (rest == [] || !IsDigit(rest[0]))
    ensures LeadingDigits(a + rest) == |a|
    decreases |a|
  {
    if a == [] {
      assert a + rest == rest;
    } else {
      assert (a + rest)[0] == a[0] && (a + rest)[1..] == a[1..] + rest;
      LeadingDigitsOfJoin(a[1..], rest);
    }
  }

  lemma PlainNumeral(s: string)
    ensures s != [] && !IsJsSpace(s[0]) ==> TrimStart(s) == s
    ensures s != [] && AllDigits(s) ==> TrimStart(s) == s && LeadingDigits(s) == |s| && s[..|s|] == s
  {
    if s != [] && AllDigits(s) {
      assert IsDigit(s[0]) && !IsJsSpace(s[0]);
      AllDigitsLeading(s);
    }
  }

  lemma AllDigitsLeading(s: string)
    requires AllDigits(s)
    ensures LeadingDigits(s) == |s|
  {
  }

  /** `s.padStart(2, "0")`. */
  function Pad2(s: string): (r: string)
    ensures |r| == if |s| >= 2 then |s| else 2
    ensures r[|r| - |s|..] == s
    ensures forall i :: 0 <= i < |r| - |s| ==> r[i] == '0'
  {
    if |s| >= 2 then s else if |s| == 1 then "0" + s else "00"
  }

  /** Leading zeros do not change the value of a numeral. */
  lemma {:induction false} LeadingZero(s: string)
    requires AllDigits(s)
    ensures AllDigits("0" + s) && DigitsValue("0" + s) == DigitsValue(s)
  {
    var z := "0" + s;
    if s != [] {
      assert z[..|z| - 1] == "0" + s[..|s| - 1];
      LeadingZero(s[..|s| - 1]);
    }
  }

  /** Padding a numeral keeps its value. */
  lemma PaddedValue(s: string)
    requires AllDigits(s)
    ensures AllDigits(Pad2(s)) && DigitsValue(Pad2(s)) == DigitsValue(s)
  {
    if |s| == 1 {
      LeadingZero(s);
    } else if |s| == 0 {
      LeadingZero("0");
      LeadingZero("");
    }
  }

  /** The first index of `c` in `s`, or -1 (`indexOf`). */
  function IndexOf(s: string, c: char): (r: int)
    ensures -1 <= r < |s|
    ensures r >= 0 ==> s[r] == c && forall j :: 0 <= j < r ==> s[j] != c
    ensures r == -1 ==> forall j :: 0 <= j < |s| ==> s[j] != c
  {
    if s == [] then -1
    else if s[0] == c then 0
    else
      var k := IndexOf(s[1..], c);
      if k == -1 then -1 else k + 1
  }
}
