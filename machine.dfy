/**
 * The session timer as a state machine over values: the app's module-level
 * timer variables and its session log form one `State`, and every timer
 * function and event handler is a function from the old state to the new one.
 * The class in module `App` performs the same updates in place and is proved
 * against these functions; the properties of the timer are proved here.
 *
 * Time and identifiers come in as parameters: `now` is `Date.now()` (ms) at
 * the moment of the event, `id` the identifier a completion would give its
 * log entry.
 */
module Machine {
  import opened Config
  import opened SessionLog
  import opened JsMath

  /**
   * The timer variables and the log. `timerOn` says whether a countdown
   * interval is installed (`timerId !== null`). `sessionStartTs == 0` stands
   * for `null` and `lastLoggedId == ""` for `null`: the source only tests
   * them for truthiness, under which `null` and `0` (resp. `""`) agree.
   */
  datatype State = State(
    settings: Settings,
    currentType: SessionType,
    secondsLeft: int,
    running: bool,
    timerOn: bool,
    sessionStartTs: int,
    completedFocusCount: nat,
    lastLoggedId: string,
    logs: seq<Entry>)

  /**
   * The timer invariant: usable settings, an interval installed exactly while
   * running, and a running countdown never at zero.
   */
  predicate Valid(s: State) {
    ValidSettings(s.settings) && s.timerOn == s.running && (s.running ==> s.secondsLeft >= 1)
  }

  /** The state at page load: focus, full length, paused, with the stored settings and log. */
  function Init(settings: Settings, stored: seq<Entry>): (s: State)
    ensures ValidSettings(settings) ==> Valid(s)
    ensures s.settings == settings && s.logs == stored
    ensures s.currentType == Focus && !s.running && s.secondsLeft == TypeLenMin(Focus, settings) * 60
    ensures s.sessionStartTs == 0 && s.completedFocusCount == 0 && s.lastLoggedId == ""
  {
    State(settings, Focus, settings.focusLen * 60, false, false, 0, 0, "", stored)
  }

  /** `setType(t)`: load a full interval of type `t`, stopped, with no start time. */
  function SetType(s: State, t: SessionType): (r: State)
    ensures ValidSettings(s.settings) ==> Valid(r)
  {
    s.(currentType := t, secondsLeft := TypeLenMin(t, s.settings) * 60,
       sessionStartTs := 0, running := false, timerOn := false)
  }

  /**
   * `startTimer()`: nothing while running; otherwise keep the start time if
   * there is one (else take `now`), run, install the countdown and tick once.
   * The source installs the interval after the immediate tick, see
   * `StartTimerAsWritten`; here it is installed before it.
   */
  function StartTimer(s: State, now: int, id: string): (r: State)
    requires Valid(s)
    ensures Valid(r) && r.settings == s.settings && s.logs <= r.logs
    ensures s.running ==> r == s
    ensures !s.running ==> r.secondsLeft >= 0
    ensures !s.running ==> (|r.logs| == |s.logs| + 1 <==> s.secondsLeft <= 1)
    ensures !s.running && s.secondsLeft >= 2 ==> r.logs == s.logs && r.lastLoggedId == s.lastLoggedId
    decreases if s.secondsLeft <= 1 then 2 else 0, 1
  {
    if s.running then s
    else
      var ts := if s.sessionStartTs == 0 then now else s.sessionStartTs;
      Tick(s.(sessionStartTs := ts, running := true, timerOn := true), now, id)
  }

  /** `pauseTimer()`: nothing unless running; otherwise stop and remove the interval. */
  function PauseTimer(s: State): (r: State)
    ensures Valid(s) ==> Valid(r)
  {
    if !s.running then s else s.(running := false, timerOn := false)
  }

  /** `resetTimer()`: stop, reload the full length of the current type, forget the start time. */
  function ResetTimer(s: State): (r: State)
    ensures ValidSettings(s.settings) ==> Valid(r)
  {
    s.(running := false, timerOn := false,
       secondsLeft := TypeLenMin(s.currentType, s.settings) * 60, sessionStartTs := 0)
  }

  /**
   * `tick()`: count down one second, not below zero; on reaching zero stop,
   * remove the interval and complete the session.
   */
  function Tick(s: State, now: int, id: string): (r: State)
    requires ValidSettings(s.settings)
    ensures r.settings == s.settings && r.secondsLeft >= 0
    ensures r.running ==> r.secondsLeft >= 1
    ensures s.timerOn == s.running ==> r.timerOn == r.running
    ensures s.logs <= r.logs && (|r.logs| == |s.logs| + 1 <==> s.secondsLeft <= 1)
    ensures s.secondsLeft >= 2 ==> r.logs == s.logs && r.lastLoggedId == s.lastLoggedId
    decreases if s.secondsLeft <= 1 then 1 else 0, 0
  {
    var left := Max(0, s.secondsLeft - 1);
    if left == 0 then OnSessionComplete(s.(secondsLeft := 0, running := false, timerOn := false), now, id)
    else s.(secondsLeft := left)
  }

  /** `plannedSec`: the configured length of the current type, in seconds. */
  function PlannedSec(s: State): (r: int)
    ensures ValidSettings(s.settings) ==> r >= 60
  {
    TypeLenMin(s.currentType, s.settings) * 60
  }

  /**
   * The entry `onSessionComplete` logs: the elapsed time since the start
   * (rounded to seconds) when there is a start time, the planned length
   * otherwise, clamped into `[1, 3 * plannedSec]`.
   */
  function LoggedEntry(s: State, now: int, id: string): (e: Entry)
    requires ValidSettings(s.settings)
    ensures e.id == id && e.kind == s.currentType && e.end == now && e.note == ""
    ensures 1 <= e.durationSec <= 3 * PlannedSec(s)
    ensures s.sessionStartTs != 0 ==> e.start == s.sessionStartTs
    ensures s.sessionStartTs != 0 && 1 <= RoundDiv(now - s.sessionStartTs, 1000) <= 3 * PlannedSec(s)
      ==> e.durationSec == RoundDiv(now - s.sessionStartTs, 1000)
    ensures s.sessionStartTs != 0 && RoundDiv(now - s.sessionStartTs, 1000) > 3 * PlannedSec(s)
      ==> e.durationSec == 3 * PlannedSec(s)
    ensures s.sessionStartTs != 0 && RoundDiv(now - s.sessionStartTs, 1000) < 1 ==> e.durationSec == 1
    ensures s.sessionStartTs == 0 ==> e.start == now - PlannedSec(s) * 1000 && e.durationSec == PlannedSec(s)
  {
    var planned := PlannedSec(s);
    var started := s.sessionStartTs != 0;
    var actual := if started then Max(1, RoundDiv(now - s.sessionStartTs, 1000)) else planned;
    Entry(id, s.currentType, if started then s.sessionStartTs else now - planned * 1000, now,
          Min(Max(actual, 1), planned * 3), "")
  }

  /**
   * `onSessionComplete()`: log the entry, count a completed focus interval,
   * load the next type (the rotation rule after focus, focus after a break)
   * and, with auto-advance on, start it.
   */
  function OnSessionComplete(s: State, now: int, id: string): (r: State)
    requires Valid(s)
    ensures Valid(r) && r.settings == s.settings && r.secondsLeft >= 0
    ensures r.logs == s.logs + [LoggedEntry(s, now, id)]
    decreases 0, 2
  {
    var count := if s.currentType == Focus then s.completedFocusCount + 1 else s.completedFocusCount;
    var next := if s.currentType == Focus then NextTypeAfterFocus(count, s.settings.longBreakEvery) else Focus;
    var logged := s.(logs := s.logs + [LoggedEntry(s, now, id)], lastLoggedId := id, completedFocusCount := count);
    var prepared := SetType(logged, next);
    if s.settings.autoNext then StartTimer(prepared, now, id) else prepared
  }

  /**
   * The type selector's change handler: while running, the switch needs the
   * user's confirmation; declined, nothing changes.
   */
  function SelectType(s: State, t: SessionType, confirmed: bool): (r: State)
    ensures Valid(s) ==> Valid(r)
    ensures s.running && !confirmed ==> r == s
    ensures !s.running || confirmed ==> r == SetType(s, t)
    ensures !s.running || confirmed ==>
      r.currentType == t && !r.running && r.secondsLeft == TypeLenMin(t, s.settings) * 60
      && r.sessionStartTs == 0 && r.logs == s.logs
  {
    if s.running && !confirmed then s else SetType(s, t)
  }

  /**
   * A preset chip: focus with `mins` minutes left, stopped. Unlike `setType`
   * it keeps the start time, and the minutes are not recorded anywhere else.
   */
  function ApplyPreset(s: State, mins: int): (r: State)
    ensures Valid(s) ==> Valid(r)
    ensures r.currentType == Focus && !r.running && r.secondsLeft == mins * 60
    ensures r.sessionStartTs == s.sessionStartTs && r.logs == s.logs && r.settings == s.settings
    ensures r.completedFocusCount == s.completedFocusCount && r.lastLoggedId == s.lastLoggedId
  {
    s.(currentType := Focus, secondsLeft := mins * 60, running := false, timerOn := false)
  }

  /**
   * The settings dialog's Save: the clamped settings replace the old ones and
   * the countdown is reloaded at the new length of the current type, without
   * stopping it.
   */
  function SaveSettings(s: State, form: SettingsForm): (r: State)
    ensures Valid(s) ==> Valid(r)
    ensures r.settings == SettingsFromForm(form) && WithinFormRanges(r.settings)
    ensures r.secondsLeft == TypeLenMin(s.currentType, r.settings) * 60
    ensures r == s.(settings := r.settings, secondsLeft := r.secondsLeft)
  {
    var next := SettingsFromForm(form);
    s.(settings := next, secondsLeft := TypeLenMin(s.currentType, next) * 60)
  }

  /** The note form's submit handler. */
  function SubmitNote(s: State, text: string): (r: State)
    ensures r == s.(logs := AttachNote(s.logs, s.lastLoggedId, text))
    ensures SameIds(s.logs, r.logs) && r.lastLoggedId == s.lastLoggedId
  {
    s.(logs := AttachNote(s.logs, s.lastLoggedId, text))
  }

  /** The Clear button: nothing on an empty log or without confirmation; otherwise empty the log and forget the last id. */
  function ClearLogs(s: State, confirmed: bool): (r: State)
    ensures s.logs != [] && confirmed ==> r.logs == [] && r.lastLoggedId == "" && r.(logs := s.logs, lastLoggedId := s.lastLoggedId) == s
    ensures s.logs == [] || !confirmed ==> r == s
  {
    if s.logs == [] || !confirmed then s else s.(logs := [], lastLoggedId := "")
  }

  /** The events that reach the timer. */
  datatype Event =
    | StartClicked(now: int, id: string)
    | PauseClicked
    | ResetClicked
    | IntervalFired(now: int, id: string)
    | TypeSelected(t: SessionType, confirmed: bool)
    | PresetClicked(mins: int)
    | SettingsSaved(form: SettingsForm)
    | NoteSubmitted(text: string)
    | ClearClicked(confirmed: bool)

  /** One event's effect. The countdown interval fires only while it is installed. */
  function Step(s: State, e: Event): (r: State)
    requires Valid(s)
    ensures Valid(r)
  {
    match e
    case StartClicked(now, id) => StartTimer(s, now, id)
    case PauseClicked => PauseTimer(s)
    case ResetClicked => ResetTimer(s)
    case IntervalFired(now, id) => if s.timerOn then Tick(s, now, id) else s
    case TypeSelected(t, confirmed) => SelectType(s, t, confirmed)
    case PresetClicked(mins) => ApplyPreset(s, mins)
    case SettingsSaved(form) => SaveSettings(s, form)
    case NoteSubmitted(text) => SubmitNote(s, text)
    case ClearClicked(confirmed) => ClearLogs(s, confirmed)
  }

  // ---------- Properties of the timer ----------

  /** `setType` is unconditional: the last call alone decides the state; `resetTimer` is `setType` of the current type. */
  lemma SetTypeLastWins(s: State, t: SessionType, u: SessionType)
    ensures SetType(SetType(s, u), t) == SetType(s, t)
    ensures ResetTimer(SetType(s, t)) == SetType(s, t)
    ensures ResetTimer(s) == SetType(s, s.currentType)
  {
  }

  /** A loaded interval: the full length of its type, no start time, stopped. */
  predicate Loaded(s: State, t: SessionType) {
    s.currentType == t && s.secondsLeft == TypeLenMin(t, s.settings) * 60
    && s.sessionStartTs == 0 && !s.running && !s.timerOn
  }

  /** `setType(t)` loads `t`; `resetTimer()` reloads the current type; neither touches the log or the counters. */
  lemma SetTypeAndResetLoad(s: State, t: SessionType)
    ensures Loaded(SetType(s, t), t) && Loaded(ResetTimer(s), s.currentType)
    ensures SetType(s, t).logs == s.logs && SetType(s, t).completedFocusCount == s.completedFocusCount
    ensures ResetTimer(s).logs == s.logs && ResetTimer(s).lastLoggedId == s.lastLoggedId
  {
  }

  /** Pausing keeps the remaining time and the start time, is a no-op when stopped, and is idempotent. */
  lemma PauseKeepsProgress(s: State)
    requires Valid(s)
    ensures var r := PauseTimer(s);
      !r.running && !r.timerOn && r.secondsLeft == s.secondsLeft && r.sessionStartTs == s.sessionStartTs
      && (!s.running ==> r == s) && PauseTimer(r) == r
  {
  }

  /**
   * Pause then start resumes exactly where the countdown was: the original
   * start time is kept, and the only change is the immediate tick.
   */
  lemma PauseThenStartResumes(s: State, now: int, id: string)
    requires Valid(s) && s.running && s.sessionStartTs != 0
    ensures StartTimer(PauseTimer(s), now, id) == Tick(s, now, id)
  {
    assert PauseTimer(s).(sessionStartTs := s.sessionStartTs, running := true, timerOn := true) == s;
  }

  /** Starting an interval that does not end on the immediate tick: run from `now` (or the kept start), one second gone. */
  lemma StartFromNonFinal(s: State, now: int, id: string)
    requires Valid(s) && !s.running && s.secondsLeft >= 2
    ensures StartTimer(s, now, id) == s.(sessionStartTs := if s.sessionStartTs == 0 then now else s.sessionStartTs,
                                         running := true, timerOn := true, secondsLeft := s.secondsLeft - 1)
  {
  }

  /**
   * What a completion does: one entry appended, `lastLoggedId` set to it, the
   * focus count advanced after a focus interval, the next type by the rotation
   * rule (focus after any break), loaded with its full length, and running
   * exactly when auto-advance is on (then already one second in, started at `now`).
   */
  lemma CompletionEffects(s: State, now: int, id: string)
    requires Valid(s)
    ensures var r := OnSessionComplete(s, now, id);
      var count := s.completedFocusCount + (if s.currentType == Focus then 1 else 0);
      r.logs == s.logs + [LoggedEntry(s, now, id)] && r.lastLoggedId == id
      && r.completedFocusCount == count
      && r.currentType == (if s.currentType == Focus then NextTypeAfterFocus(count, s.settings.longBreakEvery) else Focus)
      && r.running == s.settings.autoNext
      && (!s.settings.autoNext ==> Loaded(r, r.currentType))
      && (s.settings.autoNext ==>
            r.secondsLeft == TypeLenMin(r.currentType, r.settings) * 60 - 1 && r.sessionStartTs == now)
  {
    var count := s.completedFocusCount + (if s.currentType == Focus then 1 else 0);
    var next := if s.currentType == Focus then NextTypeAfterFocus(count, s.settings.longBreakEvery) else Focus;
    var prepared := SetType(s.(logs := s.logs + [LoggedEntry(s, now, id)], lastLoggedId := id, completedFocusCount := count), next);
    if s.settings.autoNext {
      StartFromNonFinal(prepared, now, id);
    }
  }

  /**
   * The rotation: after a focus interval a long break iff the new focus count
   * is a multiple of `longBreakEvery`, a short break otherwise; after a break, focus.
   */
  lemma RotationAfterCompletion(s: State, now: int, id: string)
    requires Valid(s)
    ensures var r := OnSessionComplete(s, now, id);
      (s.currentType == Focus ==>
         r.completedFocusCount == s.completedFocusCount + 1 && r.currentType != Focus
         && (r.currentType == LongBreak <==> r.completedFocusCount % s.settings.longBreakEvery == 0))
      && (s.currentType != Focus ==> r.currentType == Focus && r.completedFocusCount == s.completedFocusCount)
  {
    CompletionEffects(s, now, id);
  }

  /**
   * Start leaves the timer running unless its immediate tick completes the
   * interval with auto-advance off; then the next interval is loaded, stopped.
   */
  lemma StartRunningIff(s: State, now: int, id: string)
    requires Valid(s)
    ensures var r := StartTimer(s, now, id);
      (r.running <==> s.running || s.secondsLeft >= 2 || s.settings.autoNext)
      && (!r.running ==> Loaded(r, r.currentType))
  {
    if !s.running && s.secondsLeft <= 1 {
      var t := s.(sessionStartTs := if s.sessionStartTs == 0 then now else s.sessionStartTs, running := true, timerOn := true);
      CompletionEffects(t.(secondsLeft := 0, running := false, timerOn := false), now, id);
    }
  }

  /**
   * A second start right after the first changes nothing exactly when the
   * first left the timer running. When the first start's immediate tick ends
   * the interval (at 00:01 with auto-advance off), the second start begins the
   * next interval.
   */
  lemma StartTwiceIff(s: State, now: int, id: string, now2: int, id2: string)
    requires Valid(s)
    ensures var r := StartTimer(s, now, id);
      StartTimer(r, now2, id2) == r <==> r.running
  {
    var r := StartTimer(s, now, id);
    StartRunningIff(s, now, id);
    if !r.running {
      assert PlannedSec(r) >= 60;
      StartFromNonFinal(r, now2, id2);
    }
  }

  /** A tick stops the timer exactly when it reaches zero, unless auto-advance starts the next interval. */
  lemma TickStopsIff(s: State, now: int, id: string)
    requires Valid(s) && s.running
    ensures var r := Tick(s, now, id);
      (r.running <==> s.secondsLeft >= 2 || s.settings.autoNext)
      && (|r.logs| == |s.logs| + 1 <==> s.secondsLeft == 1)
  {
    if s.secondsLeft == 1 {
      CompletionEffects(s.(secondsLeft := 0, running := false, timerOn := false), now, id);
    }
  }

  /** `n` interval ticks in a row; only the tick that completes the interval uses `now` and `id`. */
  function Ticks(s: State, n: nat, now: int, id: string): (r: State)
    requires ValidSettings(s.settings)
    ensures r.settings == s.settings
  {
    if n == 0 then s else Tick(Ticks(s, n - 1, now, id), now, id)
  }

  /** Before zero, ticks only count down. */
  lemma {:induction false} TicksCountDown(s: State, k: nat, now: int, id: string)
    requires Valid(s) && s.running && k < s.secondsLeft
    ensures Ticks(s, k, now, id) == s.(secondsLeft := s.secondsLeft - k)
  {
    if k > 0 {
      TicksCountDown(s, k - 1, now, id);
    }
  }

  /** A running countdown completes after exactly `secondsLeft` ticks. */
  lemma CountdownCompletes(s: State, now: int, id: string)
    requires Valid(s) && s.running
    ensures Ticks(s, s.secondsLeft, now, id)
         == OnSessionComplete(s.(secondsLeft := 0, running := false, timerOn := false), now, id)
  {
    TicksCountDown(s, s.secondsLeft - 1, now, id);
  }

  /**
   * After one focus interval from `s0`: exactly one entry appended, a focus
   * entry with id `id` lasting at most three times the focus length, the
   * focus count advanced, and the break the rotation picks loaded and stopped.
   */
  predicate FocusRunLogged(s0: State, r: State, id: string) {
    |r.logs| == |s0.logs| + 1 && r.logs[..|s0.logs|] == s0.logs
    && r.logs[|s0.logs|].kind == Focus && r.logs[|s0.logs|].id == id
    && 1 <= r.logs[|s0.logs|].durationSec <= 3 * s0.settings.focusLen * 60
    && r.completedFocusCount == s0.completedFocusCount + 1
    && r.currentType == NextTypeAfterFocus(s0.completedFocusCount + 1, s0.settings.longBreakEvery)
    && Loaded(r, r.currentType)
  }

  /**
   * A fresh focus interval of `L` minutes, started at `t0` and then ticked
   * `L * 60 - 1` times (the start's own tick is the first), logs exactly one
   * focus entry of at most three times its length and, with auto-advance off,
   * leaves the break the rotation picks loaded and stopped.
   */
  lemma FocusIntervalRunsToCompletion(s0: State, t0: int, id0: string, now: int, id: string)
    requires ValidSettings(s0.settings) && !s0.settings.autoNext
    ensures FocusRunLogged(s0, Ticks(StartTimer(SetType(s0, Focus), t0, id0), s0.settings.focusLen * 60 - 1, now, id), id)
  {
    var s := SetType(s0, Focus);
    StartFromNonFinal(s, t0, id0);
    var started := StartTimer(s, t0, id0);
    CountdownCompletes(started, now, id);
    assert started.(secondsLeft := 0, running := false, timerOn := false) == s.(sessionStartTs := t0, secondsLeft := 0);
    FocusCompletionLogged(s0, t0, now, id);
  }

  /** The completion at the end of a focus interval loaded from `s0` and started at `t0`. */
  lemma FocusCompletionLogged(s0: State, t0: int, now: int, id: string)
    requires ValidSettings(s0.settings) && !s0.settings.autoNext
    ensures FocusRunLogged(s0, OnSessionComplete(SetType(s0, Focus).(sessionStartTs := t0, secondsLeft := 0), now, id), id)
  {
    var done := SetType(s0, Focus).(sessionStartTs := t0, secondsLeft := 0);
    CompletionEffects(done, now, id);
    assert PlannedSec(done) == s0.settings.focusLen * 60;
  }


  // ---------- The note goes to the latest completion ----------

  /** Every id the log holds differs from `id`; the empty id stands for a missing one. */
  predicate FreshId(logs: seq<Entry>, id: string) {
    id == "" || !HasId(logs, id)
  }

  /** The note form targets the last entry of the log. */
  predicate NoteOnLatest(s: State) {
    s.logs != [] ==> NoteTarget(s.logs, s.lastLoggedId) == |s.logs| - 1
  }

  /** Appending an entry with a fresh id and pointing `lastLoggedId` at it makes it the note target. */
  lemma NoteTargetAfterAppend(logs: seq<Entry>, e: Entry)
    requires FreshId(logs, e.id)
    ensures NoteTarget(logs + [e], e.id) == |logs|
  {
    var all := logs + [e];
    if e.id != "" {
      assert all[|logs|].id == e.id;
    }
  }

  /** An event's fresh id, where it carries one. */
  predicate FreshFor(s: State, e: Event) {
    match e
    case StartClicked(_, id) => FreshId(s.logs, id)
    case IntervalFired(_, id) => FreshId(s.logs, id)
    case _ => true
  }

  /** Whatever happens, the log either stays as it is or gains one entry with id `id` that `lastLoggedId` names. */
  predicate LogsOrAppends(s: State, r: State, id: string) {
    (r.logs == s.logs && r.lastLoggedId == s.lastLoggedId)
    || (|r.logs| == |s.logs| + 1 && r.logs == s.logs + [r.logs[|s.logs|]]
        && r.logs[|s.logs|].id == id && r.lastLoggedId == id)
  }

  lemma TickLogsOrAppends(s: State, now: int, id: string)
    requires ValidSettings(s.settings)
    ensures LogsOrAppends(s, Tick(s, now, id), id)
  {
    if s.secondsLeft <= 1 {
      var done := s.(secondsLeft := 0, running := false, timerOn := false);
      CompletionEffects(done, now, id);
      assert Tick(s, now, id).logs == s.logs + [LoggedEntry(done, now, id)];
    }
  }

  lemma StartLogsOrAppends(s: State, now: int, id: string)
    requires Valid(s)
    ensures LogsOrAppends(s, StartTimer(s, now, id), id)
  {
    if !s.running {
      var t := s.(sessionStartTs := if s.sessionStartTs == 0 then now else s.sessionStartTs, running := true, timerOn := true);
      TickLogsOrAppends(t, now, id);
    }
  }

  /**
   * After every event the note form still targets the latest entry, given
   * fresh ids for new entries. So after two completions a note goes to the
   * second, whatever non-logging events come in between.
   */
  lemma StepKeepsNoteOnLatest(s: State, e: Event)
    requires Valid(s) && NoteOnLatest(s) && FreshFor(s, e)
    ensures NoteOnLatest(Step(s, e))
  {
    var r := Step(s, e);
    match e {
      case StartClicked(now, id) =>
        StartLogsOrAppends(s, now, id);
        if r.logs != s.logs {
          NoteTargetAfterAppend(s.logs, r.logs[|s.logs|]);
        }
      case IntervalFired(now, id) =>
        if s.timerOn {
          TickLogsOrAppends(s, now, id);
          if r.logs != s.logs {
            NoteTargetAfterAppend(s.logs, r.logs[|s.logs|]);
          }
        }
      case NoteSubmitted(text) =>
        if s.logs != [] {
          SameIdsSameTarget(s.logs, r.logs, s.lastLoggedId);
        }
      case _ =>
    }
  }

  // ---------- Presets, saved settings, cleared log ----------

  /**
   * A preset's completion is still measured against the configured focus
   * length: its logged duration is capped at three times `focusLen`, whatever
   * the preset's minutes, and its start time is the one kept from before.
   */
  lemma PresetLogsAgainstSettings(s: State, mins: int, now: int, id: string)
    requires ValidSettings(s.settings)
    ensures var e := LoggedEntry(ApplyPreset(s, mins), now, id);
      e.kind == Focus && 1 <= e.durationSec <= 3 * s.settings.focusLen * 60
      && (s.sessionStartTs != 0 ==> e.start == s.sessionStartTs)
  {
  }

  // ---------- The start-time interval, as the source installs it ----------

  /** A state together with the number of countdown intervals left firing. */
  datatype Started = Started(state: State, liveIntervals: nat)

  /**
   * `startTimer` as written: the immediate tick runs first and the interval is
   * installed after it, whatever the tick did. If that tick completed the
   * interval, the completion (and an auto-advance start inside it) has already
   * finished, so the new interval is one too many.
   */
  function StartTimerAsWritten(s: State, now: int, id: string): (r: Started)
    requires Valid(s)
    ensures !s.running && s.secondsLeft >= 2 ==> r == Started(StartTimer(s, now, id), 1)
  {
    if s.running then Started(s, 1)
    else
      var ts := if s.sessionStartTs == 0 then now else s.sessionStartTs;
      var ticked := Tick(s.(sessionStartTs := ts, running := true, timerOn := false), now, id);
      Started(ticked.(timerOn := true), (if ticked.timerOn then 1 else 0) + 1)
  }

  /**
   * Pressing Start at 00:01: the countdown interval keeps firing while the
   * timer shows stopped (auto-advance off), or two intervals drive the next
   * interval at double speed (auto-advance on).
   */
  lemma StartAtLastSecondLeavesStrayInterval(s: State, now: int, id: string)
    requires Valid(s) && !s.running && s.secondsLeft == 1
    ensures var w := StartTimerAsWritten(s, now, id);
      (!s.settings.autoNext ==> !w.state.running && w.liveIntervals == 1)
      && (s.settings.autoNext ==> w.state.running && w.liveIntervals == 2)
  {
    var t := s.(sessionStartTs := if s.sessionStartTs == 0 then now else s.sessionStartTs, running := true, timerOn := false);
    CompletionEffects(t.(secondsLeft := 0, running := false, timerOn := false), now, id);
  }

  /**
   * The source's start and the model's differ only in the interval: the
   * timer state is the same, and the source leaves one interval more than the
   * one the running timer needs exactly when the start's own tick completes
   * the interval.
   */
  lemma StrayIntervalIff(s: State, now: int, id: string)
    requires Valid(s)
    ensures var w, r := StartTimerAsWritten(s, now, id), StartTimer(s, now, id);
      w.state == r.(timerOn := true)
      && w.liveIntervals == (if r.running then 1 else 0) + (if !s.running && s.secondsLeft <= 1 then 1 else 0)
  {
    if !s.running && s.secondsLeft <= 1 {
      var t := s.(sessionStartTs := if s.sessionStartTs == 0 then now else s.sessionStartTs, running := true, timerOn := false);
      CompletionEffects(t.(secondsLeft := 0, running := false, timerOn := false), now, id);
    }
  }
}
