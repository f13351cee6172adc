/**
 * The session log: the entries written on completion, and the note form,
 * which writes into the most recently completed entry.
 */
module SessionLog {
  import opened Config
  import opened Text

  /** A completed interval as the log stores it (the source's `type` field is `kind` here). */
  datatype Entry = Entry(
    id: string,
    kind: SessionType,
    start: int,
    end: int,
    durationSec: int,
    note: string)

  predicate HasId(logs: seq<Entry>, id: string) {
    exists j :: 0 <= j < |logs| && logs[j].id == id
  }

  /** `logs.findIndex(l => l.id === id)`: the first entry carrying `id`, or -1. */
  function FindIndex(logs: seq<Entry>, id: string): (r: int)
    ensures -1 <= r < |logs|
    ensures r >= 0 ==> logs[r].id == id && forall j :: 0 <= j < r ==> logs[j].id != id
    ensures r == -1 <==> !HasId(logs, id)
  {
    if logs == [] then -1
    else if logs[0].id == id then 0
    else
      var k := FindIndex(logs[1..], id);
      assert forall j :: 0 < j < |logs| ==> logs[j] == logs[1..][j - 1];
      if k == -1 then -1 else k + 1
  }

  /**
   * The index the note form writes to: the first entry carrying `lastLoggedId`
   * when that is set (non-empty) and present, otherwise the last entry.
   */
  function NoteTarget(logs: seq<Entry>, lastLoggedId: string): (idx: int)
    requires logs != []
    ensures 0 <= idx < |logs|
    ensures lastLoggedId != "" && HasId(logs, lastLoggedId) ==>
      logs[idx].id == lastLoggedId && forall j :: 0 <= j < idx ==> logs[j].id != lastLoggedId
    ensures !(lastLoggedId != "" && HasId(logs, lastLoggedId)) ==> idx == |logs| - 1
  {
    var idx := if lastLoggedId != "" then FindIndex(logs, lastLoggedId) else -1;
    if idx == -1 then |logs| - 1 else idx
  }

  /**
   * The note form's submit handler on the log: the trimmed text replaces the
   * note of the target entry; blank text or an empty log changes nothing.
   */
  function AttachNote(logs: seq<Entry>, lastLoggedId: string, text: string): (r: seq<Entry>)
    ensures |r| == |logs|
    ensures Trim(text) == [] || logs == [] ==> r == logs
    ensures Trim(text) != [] && logs != [] ==>
      var i := NoteTarget(logs, lastLoggedId);
      r[i] == logs[i].(note := Trim(text))
      && forall j :: 0 <= j < |logs| && j != i ==> r[j] == logs[j]
  {
    var txt := Trim(text);
    if txt == [] || logs == [] then logs
    else
      var i := NoteTarget(logs, lastLoggedId);
      logs[i := logs[i].(note := txt)]
  }

  /** The note form edits one entry of the log in place. */
  lemma AttachNoteInPlace(logs: seq<Entry>, lastLoggedId: string, text: string)
    requires Trim(text) != [] && logs != []
    ensures var i := NoteTarget(logs, lastLoggedId);
      AttachNote(logs, lastLoggedId, text) == logs[i := logs[i].(note := Trim(text))]
  {
  }

  /** Two logs whose entries carry the same ids, position by position. */
  predicate SameIds(a: seq<Entry>, b: seq<Entry>) {
    |a| == |b| && forall j :: 0 <= j < |a| ==> a[j].id == b[j].id
  }

  /** The note target depends on the ids alone. */
  lemma SameIdsSameTarget(a: seq<Entry>, b: seq<Entry>, lastLoggedId: string)
    requires a != [] && SameIds(a, b)
    ensures NoteTarget(a, lastLoggedId) == NoteTarget(b, lastLoggedId)
  {
    if lastLoggedId != "" && HasId(a, lastLoggedId) {
      var j :| 0 <= j < |a| && a[j].id == lastLoggedId;
      assert b[j].id == lastLoggedId;
      var ia, ib := NoteTarget(a, lastLoggedId), NoteTarget(b, lastLoggedId);
      assert a[ib].id == lastLoggedId;
      assert b[ia].id == lastLoggedId;
    }
  }

  /** A later note replaces an earlier one in the same entry; notes are not frozen after the first. */
  lemma NoteOverwrites(logs: seq<Entry>, lastLoggedId: string, first: string, second: string)
    requires Trim(second) != []
    ensures AttachNote(AttachNote(logs, lastLoggedId, first), lastLoggedId, second)
         == AttachNote(logs, lastLoggedId, second)
  {
    var once := AttachNote(logs, lastLoggedId, first);
    if logs != [] {
      assert SameIds(logs, once);
      SameIdsSameTarget(logs, once, lastLoggedId);
    }
  }
}
