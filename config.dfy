/**
 * Session types, the settings record, the settings form's clamping, and the
 * rotation rule that decides which break follows a focus interval.
 */
module Config {
  import opened Wrappers
  import opened Text
  import opened JsMath

  /** `'focus' | 'shortBreak' | 'longBreak'`. */
  datatype SessionType = Focus | ShortBreak | LongBreak

  /** The settings record: three lengths in minutes, the long-break cadence, and two toggles. */
  datatype Settings = Settings(
    focusLen: int,
    shortBreakLen: int,
    longBreakLen: int,
    longBreakEvery: int,
    soundEnabled: bool,
    autoNext: bool)

  /** `DEFAULTS`. */
  const Defaults := Settings(25, 5, 15, 4, true, false)

  /**
   * What the timer needs of its settings: positive lengths and a positive
   * cadence. Settings read from storage are merged over the defaults without
   * clamping, so this is assumed of them; the settings form guarantees it.
   */
  predicate ValidSettings(s: Settings) {
    s.focusLen >= 1 && s.shortBreakLen >= 1 && s.longBreakLen >= 1 && s.longBreakEvery >= 1
  }

  /** The ranges the settings form clamps each number to. */
  predicate WithinFormRanges(s: Settings) {
    1 <= s.focusLen <= 180 && 1 <= s.shortBreakLen <= 60 && 1 <= s.longBreakLen <= 90
    && 1 <= s.longBreakEvery <= 12
  }

  /**
   * `clampInt(v, min, max, fallback)`: the fallback when `v` does not parse
   * as an integer, otherwise the parsed value clamped into `[min, max]`.
   */
  function ClampInt(v: string, lo: int, hi: int, fallback: int): (r: int)
    ensures ParseInt(v).None? ==> r == fallback
    ensures ParseInt(v).Some? ==> r <= hi && (lo <= hi ==> lo <= r)
    ensures ParseInt(v).Some? && lo <= ParseInt(v).value <= hi ==> r == ParseInt(v).value
    ensures ParseInt(v).Some? && lo <= hi && ParseInt(v).value < lo ==> r == lo
    ensures ParseInt(v).Some? && ParseInt(v).value > hi ==> r == hi
  {
    match ParseInt(v)
    case None => fallback
    case Some(n) => Min(hi, Max(lo, n))
  }

  /** The form's clamping cases: non-numeric text falls back to the default... */
  lemma ClampNonNumeric()
    ensures ClampInt("abc", 1, 180, Defaults.focusLen) == 25
  {
    assert ParseInt("abc") == None;
  }

  /** ... a value above the range is lowered to its top... */
  lemma ClampTooLarge()
    ensures ClampInt("500", 1, 180, Defaults.focusLen) == 180
  {
    assert "500"[..2] == "50" && "50"[..1] == "5" && "5"[..0] == "";
    assert AllDigits("500") && DigitsValue("500") == 500;
  }

  /** ... and a value below the range is raised to its bottom. */
  lemma ClampTooSmall()
    ensures ClampInt("0", 1, 180, Defaults.focusLen) == 1
  {
    assert AllDigits("0") && DigitsValue("0") == 0;
  }

  /** What the settings dialog holds when Save is clicked: four text fields and two checkboxes. */
  datatype SettingsForm = SettingsForm(
    focusLen: string,
    shortBreakLen: string,
    longBreakLen: string,
    longBreakEvery: string,
    soundEnabled: bool,
    autoNext: bool)

  /** The settings the Save button produces: every number clamped to its range, or its default. */
  function SettingsFromForm(f: SettingsForm): (r: Settings)
    ensures WithinFormRanges(r) && ValidSettings(r)
    ensures r.focusLen == ClampInt(f.focusLen, 1, 180, Defaults.focusLen)
    ensures r.shortBreakLen == ClampInt(f.shortBreakLen, 1, 60, Defaults.shortBreakLen)
    ensures r.longBreakLen == ClampInt(f.longBreakLen, 1, 90, Defaults.longBreakLen)
    ensures r.longBreakEvery == ClampInt(f.longBreakEvery, 1, 12, Defaults.longBreakEvery)
    ensures r.soundEnabled == f.soundEnabled && r.autoNext == f.autoNext
  {
    Settings(
      ClampInt(f.focusLen, 1, 180, Defaults.focusLen),
      ClampInt(f.shortBreakLen, 1, 60, Defaults.shortBreakLen),
      ClampInt(f.longBreakLen, 1, 90, Defaults.longBreakLen),
      ClampInt(f.longBreakEvery, 1, 12, Defaults.longBreakEvery),
      f.soundEnabled,
      f.autoNext)
  }

  /** `typeLenMin(t)`: the configured length of an interval type, in minutes. */
  function TypeLenMin(t: SessionType, s: Settings): (r: int)
    ensures ValidSettings(s) ==> r >= 1
    ensures WithinFormRanges(s) ==> r <= 180
  {
    match t
    case Focus => s.focusLen
    case ShortBreak => s.shortBreakLen
    case LongBreak => s.longBreakLen
  }

  /**
   * `nextTypeAfterFocus()`, given the completed-focus count after the increment:
   * a long break when the count is a multiple of the cadence. A zero cadence
   * makes the remainder `NaN`, which never equals 0.
   */
  function NextTypeAfterFocus(count: nat, every: int): (r: SessionType)
    ensures r != Focus
    ensures every >= 1 ==> (r == LongBreak <==> count % every == 0)
  {
    if every != 0 && JsRem(count, every) == 0 then LongBreak else ShortBreak
  }

  /** How many of the first `n` completed focus intervals were followed by a long break. */
  function LongBreaksWithin(n: nat, every: int): nat {
    if n == 0 then 0
    else LongBreaksWithin(n - 1, every) + (if NextTypeAfterFocus(n, every) == LongBreak then 1 else 0)
  }

  /** Exactly every `every`-th completed focus interval is followed by a long break. */
  lemma {:induction false} LongBreakEveryNth(n: nat, every: int)
    requires every >= 1
    ensures LongBreaksWithin(n, every) == n / every
  {
    if n > 0 {
      LongBreakEveryNth(n - 1, every);
      var q, r := (n - 1) / every, (n - 1) % every;
      if r + 1 == every {
        DivModUnique(n, every, q + 1, 0);
      } else {
        DivModUnique(n, every, q, r + 1);
      }
    }
  }

  /** The rotation repeats with period `every`. */
  lemma RotationPeriodic(count: nat, every: int)
    requires every >= 1
    ensures NextTypeAfterFocus(count + every, every) == NextTypeAfterFocus(count, every)
  {
    DivModUnique(count + every, every, count / every + 1, count % every);
  }

  /** What `renderSessionMeta` shows during focus: the ordinal within the cycle and how many remain. */
  datatype FocusMeta = FocusMeta(ordinal: int, toLong: int)

  function SessionMeta(count: nat, every: int): (m: FocusMeta)
    requires every >= 1
    ensures 1 <= m.toLong <= every && 1 <= m.ordinal <= every && m.ordinal + m.toLong == every + 1
  {
    FocusMeta(count % every + 1, every - count % every)
  }

  /**
   * The meta line counts down truthfully: after `toLong` more completed focus
   * intervals (and not before) a long break is due.
   */
  lemma SessionMetaCountsDown(count: nat, every: int)
    requires every >= 1
    ensures var m := SessionMeta(count, every);
      NextTypeAfterFocus(count + m.toLong, every) == LongBreak
      && forall k: nat :: count < k < count + m.toLong ==> NextTypeAfterFocus(k, every) == ShortBreak
  {
    var q, r := count / every, count % every;
    DivModUnique(count + (every - r), every, q + 1, 0);
    forall k: nat | count < k < count + (every - r)
      ensures NextTypeAfterFocus(k, every) == ShortBreak
    {
      DivModUnique(k, every, q, r + (k - count));
    }
  }
}
