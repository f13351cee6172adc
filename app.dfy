/**
 * The timer as the page runs it: one object whose fields are the app's
 * module-level timer variables and its log, and whose methods are the timer
 * functions and event handlers, updating those fields in place. Each method
 * is proved to perform exactly the transition the function of the same name
 * in `Machine` describes, so every property proved there holds of it.
 */
module App {
  import opened Config
  import opened SessionLog
  import opened JsMath
  import Machine

  class CalmClock {
    var settings: Settings
    var currentType: SessionType
    var secondsLeft: int
    var running: bool
    /** Whether a countdown interval is installed (`timerId !== null`). */
    var timerOn: bool
    /** 0 stands for `null`: no start time recorded. */
    var sessionStartTs: int
    var completedFocusCount: nat
    /** "" stands for `null`: no entry to attach a note to by id. */
    var lastLoggedId: string
    var logs: seq<Entry>

    /** The fields as one value of the state machine. */
    function Snapshot(): Machine.State
      reads this
    {
      Machine.State(settings, currentType, secondsLeft, running, timerOn,
                    sessionStartTs, completedFocusCount, lastLoggedId, logs)
    }

    predicate Valid()
      reads this
    {
      Machine.Valid(Snapshot())
    }

    /** Page load: the stored settings and log, focus loaded at full length, stopped. */
    constructor (stored: Settings, storedLogs: seq<Entry>)
      requires ValidSettings(stored)
      ensures Snapshot() == Machine.Init(stored, storedLogs) && Valid()
    {
      settings := stored;
      currentType := Focus;
      secondsLeft := stored.focusLen * 60;
      running := false;
      timerOn := false;
      sessionStartTs := 0;
      completedFocusCount := 0;
      lastLoggedId := "";
      logs := storedLogs;
    }

    method SetType(t: SessionType)
      modifies this
      ensures Snapshot() == Machine.SetType(old(Snapshot()), t)
    {
      currentType := t;
      secondsLeft := TypeLenMin(t, settings) * 60;
      sessionStartTs := 0;
      running := false;
      timerOn := false;
    }

    /** The interval is installed before the immediate tick; see `Machine.StartTimerAsWritten`. */
    method StartTimer(now: int, id: string)
      requires Valid()
      modifies this
      ensures Snapshot() == Machine.StartTimer(old(Snapshot()), now, id)
      decreases if secondsLeft <= 1 then 2 else 0, 1
    {
      if running {
        return;
      }
      if sessionStartTs == 0 {
        sessionStartTs := now;
      }
      running := true;
      timerOn := true;
      Tick(now, id);
    }

    method PauseTimer()
      modifies this
      ensures Snapshot() == Machine.PauseTimer(old(Snapshot()))
    {
      if !running {
        return;
      }
      running := false;
      timerOn := false;
    }

    method ResetTimer()
      modifies this
      ensures Snapshot() == Machine.ResetTimer(old(Snapshot()))
    {
      running := false;
      timerOn := false;
      secondsLeft := TypeLenMin(currentType, settings) * 60;
      sessionStartTs := 0;
    }

    method Tick(now: int, id: string)
      requires ValidSettings(settings)
      modifies this
      ensures Snapshot() == Machine.Tick(old(Snapshot()), now, id)
      decreases if secondsLeft <= 1 then 1 else 0, 0
    {
      secondsLeft := Max(0, secondsLeft - 1);
      if secondsLeft == 0 {
        timerOn := false;
        running := false;
        OnSessionComplete(now, id);
      }
    }

    method OnSessionComplete(now: int, id: string)
      requires Valid()
      modifies this
      ensures Snapshot() == Machine.OnSessionComplete(old(Snapshot()), now, id)
      decreases 0, 2
    {
      var entry := Machine.LoggedEntry(Snapshot(), now, id);
      logs := logs + [entry];
      lastLoggedId := id;
      if currentType == Focus {
        completedFocusCount := completedFocusCount + 1;
      }
      var next := if currentType == Focus then NextTypeAfterFocus(completedFocusCount, settings.longBreakEvery) else Focus;
      SetType(next);
      if settings.autoNext {
        StartTimer(now, id);
      }
    }

    /** The type selector; `confirmed` is the user's answer, asked only while running. */
    method SelectType(t: SessionType, confirmed: bool)
      modifies this
      ensures Snapshot() == Machine.SelectType(old(Snapshot()), t, confirmed)
    {
      if running && !confirmed {
        return;
      }
      SetType(t);
    }

    /** A preset chip. */
    method ApplyPreset(mins: int)
      modifies this
      ensures Snapshot() == Machine.ApplyPreset(old(Snapshot()), mins)
    {
      currentType := Focus;
      secondsLeft := mins * 60;
      running := false;
      timerOn := false;
    }

    /** The settings dialog's Save button. */
    method SaveSettings(form: SettingsForm)
      modifies this
      ensures Snapshot() == Machine.SaveSettings(old(Snapshot()), form)
    {
      settings := SettingsFromForm(form);
      secondsLeft := TypeLenMin(currentType, settings) * 60;
    }

    /** The note form: writes the trimmed text into the target entry, in place. */
    method SubmitNote(text: string)
      modifies this
      ensures Snapshot() == Machine.SubmitNote(old(Snapshot()), text)
    {
      var txt := Text.Trim(text);
      if txt == [] || logs == [] {
        return;
      }
      WriteNote(NoteTarget(logs, lastLoggedId), txt);
      AttachNoteInPlace(old(logs), lastLoggedId, text);
    }

    /** `logs[idx].note = txt`. */
    method WriteNote(idx: int, txt: string)
      requires 0 <= idx < |logs|
      modifies this
      ensures logs == old(logs)[idx := old(logs)[idx].(note := txt)]
      ensures Snapshot() == old(Snapshot()).(logs := logs)
    {
      logs := logs[idx := logs[idx].(note := txt)];
    }

    /** The Clear button; `confirmed` is the user's answer. */
    method ClearLogs(confirmed: bool)
      modifies this
      ensures Snapshot() == Machine.ClearLogs(old(Snapshot()), confirmed)
    {
      if logs == [] || !confirmed {
        return;
      }
      logs := [];
      lastLoggedId := "";
    }
  }
}
