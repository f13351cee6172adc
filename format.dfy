/**
 * The app's text renderings: the date key that groups sessions by local day,
 * the `mm:ss` clock, the human-readable duration of a log row and the HTML
 * escaping of notes. Each comes with a decoder, and each states the round
 * trip through it: the text determines the value it was made from.
 */
module Format {
  import opened Wrappers
  import opened Text
  import opened JsMath

  /** `dateKey(d)`: `YYYY-MM-DD` from the local year, month (1-12) and day of a date. */
  function DateKey(year: int, month: nat, day: nat): (k: string)
    ensures month < 100 && day < 100 ==> ParseDateKey(k) == Some((year, month, day))
  {
    var y, mm, dd := IntToString(year), Pad2(NatToString(month)), Pad2(NatToString(day));
    PaddedValue(NatToString(month));
    PaddedValue(NatToString(day));
    ParseIntOfString(year);
    if month < 100 && day < 100 then
      ParseJoinedKey(y, mm, dd, year);
      y + "-" + mm + "-" + dd
    else y + "-" + mm + "-" + dd
  }

  /** Reads a date key back: the year is everything before the last two `-DD` groups. */
  function ParseDateKey(k: string): Option<(int, nat, nat)> {
    if |k| < 7 || k[|k| - 3] != '-' || k[|k| - 6] != '-' then None
    else
      var mm, dd := k[|k| - 5..|k| - 3], k[|k| - 2..];
      if !AllDigits(mm) || !AllDigits(dd) then None
      else
        match ParseInt(k[..|k| - 6])
        case None => None
        case Some(y) => Some((y, DigitsValue(mm), DigitsValue(dd)))
  }

  /** `ParseDateKey` on any `y-mm-dd` whose parts read back. */
  lemma ParseJoinedKey(y: string, m: string, d: string, year: int)
    requires |m| == 2 && |d| == 2 && AllDigits(m) && AllDigits(d)
    requires ParseInt(y) == Some(year)
    ensures ParseDateKey(y + "-" + m + "-" + d) == Some((year, DigitsValue(m), DigitsValue(d)))
  {
    SplitKey(y, m, d);
  }

  /** Where the parts of `a-bb-cc` sit. */
  lemma SplitKey(a: string, b: string, c: string)
    requires |b| == 2 && |c| == 2
    ensures var k := a + "-" + b + "-" + c;
      |k| == |a| + 6 && k[|k| - 3] == '-' && k[|k| - 6] == '-'
      && k[|k| - 5..|k| - 3] == b && k[|k| - 2..] == c && k[..|k| - 6] == a
  {
    var k := a + "-" + b + "-" + c;
    assert k[..|a| + 3] == a + "-" + b;
  }

  /** Two calendar dates share a key only if they are the same date. */
  lemma DateKeyInjective(y1: int, m1: nat, d1: nat, y2: int, m2: nat, d2: nat)
    requires m1 < 100 && d1 < 100 && m2 < 100 && d2 < 100
    requires DateKey(y1, m1, d1) == DateKey(y2, m2, d2)
    ensures y1 == y2 && m1 == m2 && d1 == d2
  {
    assert ParseDateKey(DateKey(y1, m1, d1)) == Some((y1, m1, d1));
    assert ParseDateKey(DateKey(y2, m2, d2)) == Some((y2, m2, d2));
  }

  /**
   * `fmtTime(mins, secs)`: both numbers padded to two digits, joined by a
   * colon; below 100 each part is exactly two characters.
   */
  function FmtTime(mins: int, secs: int): (t: string)
    ensures mins >= 0 && secs >= 0 ==> ParseClock(t) == Some((mins, secs))
    ensures 0 <= mins < 100 && 0 <= secs < 100 ==> |t| == 5 && t[2] == ':'
  {
    var a, b := Pad2(IntToString(mins)), Pad2(IntToString(secs));
    if mins >= 0 && secs >= 0 then
      PaddedValue(NatToString(mins));
      PaddedValue(NatToString(secs));
      ParseJoinedClock(a, b);
      a + ":" + b
    else a + ":" + b
  }

  /**
   * `renderTimer`'s text for a countdown value: whole minutes, then the
   * remaining seconds. The clock shows exactly the remaining seconds:
   * `mm * 60 + ss == secondsLeft` with `ss < 60`.
   */
  function TimerText(secondsLeft: int): (t: string)
    ensures secondsLeft >= 0 ==>
      var p := ParseClock(t);
      p.Some? && p.value.0 * 60 + p.value.1 == secondsLeft && p.value.1 < 60
  {
    FmtTime(secondsLeft / 60, JsRem(secondsLeft, 60))
  }

  /** Reads `mm:ss` back into minutes and seconds. */
  function ParseClock(t: string): Option<(nat, nat)> {
    var k := IndexOf(t, ':');
    if k < 0 then None
    else
      var a, b := t[..k], t[k + 1..];
      if a == [] || b == [] || !AllDigits(a) || !AllDigits(b) then None
      else Some((DigitsValue(a), DigitsValue(b)))
  }

  /** The first `c` of `a + [c] + b` is the one after `a` when `a` holds none. */
  lemma IndexOfJoin(a: string, c: char, b: string)
    requires forall i :: 0 <= i < |a| ==> a[i] != c
    ensures IndexOf(a + [c] + b, c) == |a|
  {
    var s := a + [c] + b;
    assert s[|a|] == c;
  }

  /** `ParseClock` on any `a:b` of two numerals. */
  lemma ParseJoinedClock(a: string, b: string)
    requires a != [] && b != [] && AllDigits(a) && AllDigits(b)
    ensures ParseClock(a + ":" + b) == Some((DigitsValue(a), DigitsValue(b)))
  {
    IndexOfJoin(a, ':', b);
    var t := a + ":" + b;
    assert t[..|a|] == a && t[|a| + 1..] == b;
  }

  /**
   * `humanDuration(sec)`: the duration rounded to whole minutes, as `Nm` below
   * an hour and `Hh Mm` from an hour on, with `M` below 60.
   */
  function HumanDuration(sec: int): (t: string)
    ensures RoundDiv(sec, 60) >= 0 ==> ParseHuman(t) == Some(RoundDiv(sec, 60))
    ensures 0 <= RoundDiv(sec, 60) < 60 ==> 'h' !in t && ParseHumanParts(t) == None
    ensures RoundDiv(sec, 60) >= 60 ==>
      ParseHumanParts(t) == Some((RoundDiv(sec, 60) / 60, RoundDiv(sec, 60) % 60))
  {
    var m := RoundDiv(sec, 60);
    if m < 0 then IntToString(m) + "m"
    else if m < 60 then
      ParseMinutes(NatToString(m));
      IntToString(m) + "m"
    else
      ParseHoursMinutes(NatToString(m / 60), NatToString(m % 60));
      NatToString(m / 60) + "h " + NatToString(m % 60) + "m"
  }

  /** Reads a human duration back into whole minutes. */
  function ParseHuman(t: string): Option<int> {
    if |t| < 2 || t[|t| - 1] != 'm' then None else ParseHumanBody(t[..|t| - 1])
  }

  /** Reads the `Hh Mm` form back into its hours and minutes; `None` for any other text. */
  function ParseHumanParts(t: string): Option<(nat, nat)> {
    if |t| < 2 || t[|t| - 1] != 'm' then None
    else
      var body := t[..|t| - 1];
      var k := IndexOf(body, 'h');
      if k < 0 then None else ParseHoursAt(body, k)
  }

  /** The part before the final `m`: either `N` or `H` `h ` `M`. */
  function ParseHumanBody(body: string): Option<int> {
    var k := IndexOf(body, 'h');
    if k < 0 then
      if body != [] && AllDigits(body) then Some(DigitsValue(body)) else None
    else
      match ParseHoursAt(body, k)
      case Some((h, m)) => Some(h * 60 + m)
      case None => None
  }

  /** The hours before the `h` at `k` and the minutes after its space. */
  function ParseHoursAt(body: string, k: nat): Option<(nat, nat)>
    requires k < |body|
  {
    if k == 0 || k + 2 >= |body| || body[k + 1] != ' ' then None
    else if !AllDigits(body[..k]) || !AllDigits(body[k + 2..]) then None
    else Some((DigitsValue(body[..k]), DigitsValue(body[k + 2..])))
  }

  /** `ParseHuman` on any `Nm`, which has no hours part. */
  lemma ParseMinutes(a: string)
    requires a != [] && AllDigits(a)
    ensures ParseHuman(a + "m") == Some(DigitsValue(a))
    ensures 'h' !in a + "m" && ParseHumanParts(a + "m") == None
  {
    var t := a + "m";
    assert t[..|t| - 1] == a;
    assert IndexOf(a, 'h') == -1;
    forall i | 0 <= i < |t|
      ensures t[i] != 'h'
    {
      if i < |a| {
        assert IsDigit(a[i]);
      }
    }
  }

  /** `ParseHuman` and `ParseHumanParts` on any `Hh Mm`. */
  lemma ParseHoursMinutes(a: string, b: string)
    requires a != [] && b != [] && AllDigits(a) && AllDigits(b)
    ensures ParseHuman(a + "h " + b + "m") == Some(DigitsValue(a) * 60 + DigitsValue(b))
    ensures ParseHumanParts(a + "h " + b + "m") == Some((DigitsValue(a), DigitsValue(b)))
  {
    var t := a + "h " + b + "m";
    var body := a + ['h'] + (" " + b);
    HoursForm(a, b);
    assert ParseHumanParts(t) == ParseHoursAt(body, |a|);
    assert ParseHuman(t) == ParseHumanBody(body);
  }

  /** `Hh Mm` without its final `m` has its first `h` right after the hours. */
  lemma HoursForm(a: string, b: string)
    requires a != [] && b != [] && AllDigits(a) && AllDigits(b)
    ensures var t := a + "h " + b + "m";
      var body := a + ['h'] + (" " + b);
      |t| >= 2 && t[|t| - 1] == 'm' && t[..|t| - 1] == body && IndexOf(body, 'h') == |a|
      && ParseHoursAt(body, |a|) == Some((DigitsValue(a), DigitsValue(b)))
  {
    var t := a + "h " + b + "m";
    var body := a + ['h'] + (" " + b);
    assert t[..|t| - 1] == body;
    IndexOfJoin(a, 'h', " " + b);
    HoursAt(a, b);
  }

  lemma HoursAt(a: string, b: string)
    requires a != [] && b != [] && AllDigits(a) && AllDigits(b)
    ensures ParseHoursAt(a + ['h'] + (" " + b), |a|) == Some((DigitsValue(a), DigitsValue(b)))
  {
    var body := a + ['h'] + (" " + b);
    HoursAtSlices(a, b);
    HoursAtParts(body, |a|, a, b);
  }

  lemma HoursAtSlices(a: string, b: string)
    ensures var body := a + ['h'] + (" " + b);
      |a| + 2 <= |body| && body[|a| + 1] == ' ' && body[..|a|] == a && body[|a| + 2..] == b
  {
  }

  lemma HoursAtParts(body: string, k: nat, a: string, b: string)
    requires 0 < k && k + 2 < |body| && body[k + 1] == ' ' && body[..k] == a && body[k + 2..] == b
    requires AllDigits(a) && AllDigits(b)
    ensures ParseHoursAt(body, k) == Some((DigitsValue(a), DigitsValue(b)))
  {
  }

  /** The replacement `escapeHTML` makes for one character. */
  function EscapeChar(c: char): string {
    if c == '&' then "&amp;"
    else if c == '<' then "&lt;"
    else if c == '>' then "&gt;"
    else if c == '"' then "&quot;"
    else if c == '\'' then "&#039;"
    else [c]
  }

  /** The characters that may not appear in escaped text. */
  predicate IsMarkup(c: char) {
    c == '<' || c == '>' || c == '"' || c == '\''
  }

  /** `escapeHTML(s)`: each of `& < > " '` replaced by its entity, everything else kept. */
  function EscapeHTML(s: string): (r: string)
    ensures forall i :: 0 <= i < |r| ==> !IsMarkup(r[i])
  {
    if s == [] then [] else EscapeChar(s[0]) + EscapeHTML(s[1..])
  }

  /** Decodes the five entities `escapeHTML` produces. */
  function UnescapeHTML(t: string): string {
    if t == [] then []
    else if |t| >= 5 && t[..5] == "&amp;" then "&" + UnescapeHTML(t[5..])
    else if |t| >= 4 && t[..4] == "&lt;" then "<" + UnescapeHTML(t[4..])
    else if |t| >= 4 && t[..4] == "&gt;" then ">" + UnescapeHTML(t[4..])
    else if |t| >= 6 && t[..6] == "&quot;" then "\"" + UnescapeHTML(t[6..])
    else if |t| >= 6 && t[..6] == "&#039;" then "'" + UnescapeHTML(t[6..])
    else [t[0]] + UnescapeHTML(t[1..])
  }

  lemma UnescapeStep(c: char, rest: string)
    ensures UnescapeHTML(EscapeChar(c) + rest) == [c] + UnescapeHTML(rest)
  {
    if c == '&' {
      UnescapeAmp(rest);
    } else if c == '<' {
      UnescapeLt(rest);
    } else if c == '>' {
      UnescapeGt(rest);
    } else if c == '"' {
      UnescapeQuot(rest);
    } else if c == '\'' {
      UnescapeApos(rest);
    } else {
      UnescapePlain(c, rest);
    }
  }

  lemma UnescapeAmp(rest: string)
    ensures UnescapeHTML("&amp;" + rest) == "&" + UnescapeHTML(rest)
  {
    Prefix("&amp;", rest);
  }

  lemma UnescapeLt(rest: string)
    ensures UnescapeHTML("&lt;" + rest) == "<" + UnescapeHTML(rest)
  {
    Prefix("&lt;", rest);
    NotPrefix("&lt;" + rest, "&amp;", 1);
  }

  lemma UnescapeGt(rest: string)
    ensures UnescapeHTML("&gt;" + rest) == ">" + UnescapeHTML(rest)
  {
    var t := "&gt;" + rest;
    Prefix("&gt;", rest);
    NotPrefix(t, "&amp;", 1);
    NotPrefix(t, "&lt;", 1);
  }

  lemma UnescapeQuot(rest: string)
    ensures UnescapeHTML("&quot;" + rest) == "\"" + UnescapeHTML(rest)
  {
    var t := "&quot;" + rest;
    Prefix("&quot;", rest);
    NotPrefix(t, "&amp;", 1);
    NotPrefix(t, "&lt;", 1);
    NotPrefix(t, "&gt;", 1);
  }

  lemma UnescapeApos(rest: string)
    ensures UnescapeHTML("&#039;" + rest) == "'" + UnescapeHTML(rest)
  {
    var t := "&#039;" + rest;
    Prefix("&#039;", rest);
    NotPrefix(t, "&amp;", 1);
    NotPrefix(t, "&lt;", 1);
    NotPrefix(t, "&gt;", 1);
    NotPrefix(t, "&quot;", 1);
  }

  /** `t` does not start with `e` when they differ at some position. */
  lemma NotPrefix(t: string, e: string, i: nat)
    requires i < |e| && i < |t| && t[i] != e[i]
    ensures !(|t| >= |e| && t[..|e|] == e)
  {
    assert |t| >= |e| ==> t[..|e|][i] == t[i];
  }

  /** `e + rest` starts with `e`, and what follows it is `rest`. */
  lemma Prefix(e: string, rest: string)
    ensures var t := e + rest; |t| >= |e| && t[..|e|] == e && t[|e|..] == rest
  {
  }

  /** A character other than `&` decodes to itself. */
  lemma UnescapePlain(c: char, rest: string)
    requires c != '&'
    ensures UnescapeHTML([c] + rest) == [c] + UnescapeHTML(rest)
  {
    var t := [c] + rest;
    NotPrefix(t, "&amp;", 0);
    NotPrefix(t, "&lt;", 0);
    NotPrefix(t, "&gt;", 0);
    NotPrefix(t, "&quot;", 0);
    NotPrefix(t, "&#039;", 0);
    assert t[0] == c && t[1..] == rest;
  }

  /** Escaping loses nothing: the note shown is the note written. */
  lemma {:induction false} EscapeRoundTrip(s: string)
    ensures UnescapeHTML(EscapeHTML(s)) == s
  {
    if s != [] {
      UnescapeStep(s[0], EscapeHTML(s[1..]));
      EscapeRoundTrip(s[1..]);
    }
  }
}
