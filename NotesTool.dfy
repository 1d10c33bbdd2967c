/**
 * The notes tool of renderer/src/tools/Notes.tsx: the filtered and sorted list, the pin toggle,
 * the merge of an edit into the selected note, and the list and selection after a delete. The
 * component's list and selected id are the fields of NotesToolState; the confirmation dialog's
 * answer and the IPC outcome are parameters.
 */
module NotesTool {
  import opened Js
  import opened Sorting

  /** A note as the component holds it: the id may be undefined and `pinned` is a number or a
      boolean. */
  datatype RNote = RNote(id: Option<int>, title: string, content: string, pinned: NumOrBool)

  /** The fields an edit may carry: `Partial<Note>` as the component builds it. */
  datatype NotePatch = NotePatch(title: Option<string>, content: Option<string>, pinned: Option<NumOrBool>)

  /** `{ ...selected, ...partial }`: the fields the patch carries win. */
  function Merge(n: RNote, p: NotePatch): (r: RNote)
    ensures r.id == n.id
    ensures r.title == (if p.title.Some? then p.title.value else n.title)
    ensures r.content == (if p.content.Some? then p.content.value else n.content)
    ensures r.pinned == (if p.pinned.Some? then p.pinned.value else n.pinned)
  {
    n.(title := if p.title.Some? then p.title.value else n.title,
       content := if p.content.Some? then p.content.value else n.content,
       pinned := if p.pinned.Some? then p.pinned.value else n.pinned)
  }

  /** A patch that carries nothing leaves the note as it was. */
  lemma MergeEmpty(n: RNote)
    ensures Merge(n, NotePatch(None, None, None)) == n
  {
  }

  /** `notes.find(n => n.id === id)`: a note with that id, undefined when there is none. */
  function FindNote(notes: seq<RNote>, id: Option<int>): (r: Option<RNote>)
    ensures r.Some? ==> r.value in notes && r.value.id == id
    ensures r.None? ==> forall i :: 0 <= i < |notes| ==> notes[i].id != id
  {
    if notes == [] then None
    else if notes[0].id == id then Some(notes[0])
    else FindNote(notes[1..], id)
  }

  /** The note found is the first one with that id. */
  lemma {:induction false} FindNoteIsFirst(notes: seq<RNote>, id: Option<int>, k: int)
    requires 0 <= k < |notes| && notes[k].id == id
    requires forall j :: 0 <= j < k ==> notes[j].id != id
    ensures FindNote(notes, id) == Some(notes[k])
  {
    if k > 0 {
      FindNoteIsFirst(notes[1..], id, k - 1);
    }
  }

  /** `prev.map(n => n.id === updated.id ? updated : n)`: every note with the updated note's id
      is replaced by it; the others stay where and as they were. */
  function ReplaceNote(notes: seq<RNote>, updated: RNote): (r: seq<RNote>)
    ensures |r| == |notes|
    ensures forall i :: 0 <= i < |r| && notes[i].id == updated.id ==> r[i] == updated
    ensures forall i :: 0 <= i < |r| && notes[i].id != updated.id ==> r[i] == notes[i]
  {
    if notes == [] then []
    else [if notes[0].id == updated.id then updated else notes[0]] + ReplaceNote(notes[1..], updated)
  }

  /** After the replacement, looking the id up finds the updated note. */
  lemma {:induction false} ReplaceThenFind(notes: seq<RNote>, updated: RNote)
    requires FindNote(notes, updated.id).Some?
    ensures FindNote(ReplaceNote(notes, updated), updated.id) == Some(updated)
  {
    var r := ReplaceNote(notes, updated);
    if notes[0].id == updated.id {
      assert r[0] == updated;
    } else {
      assert r[0] == notes[0];
      assert r[1..] == ReplaceNote(notes[1..], updated);
      ReplaceThenFind(notes[1..], updated);
    }
  }

  /** The pin toggle: pinned `1` or `true` becomes 0, anything else 1. */
  function TogglePin(p: NumOrBool): (r: NumOrBool)
    ensures r == Num(0) || r == Num(1)
    ensures r == Num(0) <==> p == Num(1) || p == Bool(true)
  {
    if p == Num(1) || p == Bool(true) then Num(0) else Num(1)
  }

  /** On the values the store writes, 0 and 1, toggling twice gives the value back; on every
      value but a number other than 0 and 1, toggling flips whether the note counts as pinned. */
  lemma TogglePinTwice(p: NumOrBool)
    ensures p == Num(0) || p == Num(1) ==> TogglePin(TogglePin(p)) == p
    ensures (p.Num? ==> p.n == 0 || p.n == 1) ==> (Truthy(TogglePin(p)) <==> !Truthy(p))
  {
  }

  /** `String.prototype.includes` of the lower-cased query in the lower-cased title or content. */
  function Matches(query: string): RNote -> bool {
    (n: RNote) => Includes(ToLower(n.title), query) || Includes(ToLower(n.content), query)
  }

  /** The search ignores case: a note matches exactly when its upper-cased copy does. */
  lemma MatchesIgnoresCase(query: string, n: RNote)
    ensures Matches(query)(n) == Matches(query)(n.(title := ToUpper(n.title), content := ToUpper(n.content)))
  {
    LowerOfUpper(n.title);
    LowerOfUpper(n.content);
  }

  /** The filter "über" is already trimmed. */
  lemma UmlautTrimmed()
    ensures Trim("über") == "über"
  {
    var f := "über";
    assert !IsSpace(f[0]) && !IsSpace(f[|f| - 1]);
    TrimOfTrimmed(f);
  }

  /** The filter "über" is already lower-case. */
  lemma UmlautLower()
    ensures ToLower("über") == "über"
  {
    var f := "über";
    var q := ToLower(f);
    forall i | 0 <= i < |f| ensures q[i] == f[i] {}
  }

  /** Lower-cased, "Übersicht" starts with "über". */
  lemma UmlautTitle()
    ensures ToLower("Übersicht")[..4] == "über"
  {
    var title := ToLower("Übersicht");
    forall i | 0 <= i < 4 ensures title[i] == "über"[i] {}
  }

  /** The filter "über" finds a note titled "Übersicht", as toLowerCase maps Ü to ü. */
  lemma UmlautFilterMatches()
    ensures Matches(ToLower(Trim("über")))(RNote(None, "Übersicht", "", Undefined))
  {
    UmlautTrimmed();
    UmlautLower();
    UmlautTitle();
    var title := ToLower("Übersicht");
    assert Includes(title, "über");
  }

  /** The comparator of filteredNotes: pinned notes first, then by descending id, an undefined
      id counting as 0. */
  function NoteOrder(n: RNote): Rank {
    Rank(if Truthy(n.pinned) then 0 else 1, -OrDefault(n.id, 0))
  }

  /** The notes filteredNotes keeps before sorting: all of them for a blank filter, otherwise
      those matching the trimmed, lower-cased filter. */
  function MatchingNotes(notes: seq<RNote>, filter: string): (m: seq<RNote>)
    ensures IsBlank(filter) ==> m == notes
    ensures !IsBlank(filter) ==> m == Filter(notes, Matches(ToLower(Trim(filter))))
  {
    TrimEmptyIffBlank(filter);
    var query := ToLower(Trim(filter));
    if query == "" then notes else Filter(notes, Matches(query))
  }

  /** Two lists that are permutations of each other hold the same notes. */
  lemma SameNotes(a: seq<RNote>, b: seq<RNote>)
    requires multiset(a) == multiset(b)
    ensures forall n :: n in a <==> n in b
  {
    forall n ensures n in a <==> n in b {
      assert n in a <==> n in multiset(a);
      assert n in b <==> n in multiset(b);
    }
  }

  /** A list sorted by NoteOrder has its pinned notes first and, within each part, descending
      ids. */
  lemma NoteOrderMeaning(r: seq<RNote>)
    requires SortedBy(r, NoteOrder)
    ensures forall i, j :: 0 <= i < j < |r| && Truthy(r[j].pinned) ==> Truthy(r[i].pinned)
    ensures forall i, j :: 0 <= i < j < |r| && (Truthy(r[i].pinned) <==> Truthy(r[j].pinned)) ==>
              OrDefault(r[i].id, 0) >= OrDefault(r[j].id, 0)
  {
    assert forall i, j :: 0 <= i < j < |r| ==> Le(NoteOrder(r[i]), NoteOrder(r[j]));
  }

  /** filteredNotes: the query is the trimmed, lower-cased filter; a blank filter keeps every
      note, another keeps exactly the matching notes, each as often as in the list; the result is
      sorted pinned first, then by descending id. */
  function FilteredNotes(notes: seq<RNote>, filter: string): (r: seq<RNote>)
    ensures IsBlank(filter) ==> multiset(r) == multiset(notes)
    ensures !IsBlank(filter) ==> multiset(r) == multiset(Filter(notes, Matches(ToLower(Trim(filter)))))
    ensures forall n :: n in r <==> n in notes && (IsBlank(filter) || Matches(ToLower(Trim(filter)))(n))
    ensures forall i, j :: 0 <= i < j < |r| && Truthy(r[j].pinned) ==> Truthy(r[i].pinned)
    ensures forall i, j :: 0 <= i < j < |r| && (Truthy(r[i].pinned) <==> Truthy(r[j].pinned)) ==>
              OrDefault(r[i].id, 0) >= OrDefault(r[j].id, 0)
  {
    var base := MatchingNotes(notes, filter);
    var r := SortBy(base, NoteOrder);
    SameNotes(r, base);
    NoteOrderMeaning(r);
    r
  }

  /** handleDelete asks for confirmation only when the title or the content is not blank. */
  function NeedsConfirm(n: RNote): (r: bool)
    ensures r <==> !IsBlank(n.title) || !IsBlank(n.content)
  {
    TrimEmptyIffBlank(n.title);
    TrimEmptyIffBlank(n.content);
    Trim(n.content) != "" || Trim(n.title) != ""
  }

  /** handleDelete's filter predicate: keep the notes with another id. */
  function OtherNote(id: Option<int>): RNote -> bool {
    (n: RNote) => n.id != id
  }

  /** `remaining[0]?.id`: the id of the first note left, undefined when none is. */
  function FirstId(notes: seq<RNote>): Option<int> {
    if notes == [] then None else notes[0].id
  }

  class NotesToolState {
    var notes: seq<RNote>
    var selectedId: Option<int>

    constructor ()
      ensures notes == [] && selectedId.None?
    {
      notes := [];
      selectedId := None;
    }

    /** `selected`: the first note with the selected id. */
    function Selected(): (r: Option<RNote>)
      reads this
      ensures r.Some? ==> r.value in notes && r.value.id == selectedId
      ensures r.None? ==> forall i :: 0 <= i < |notes| ==> notes[i].id != selectedId
    {
      FindNote(notes, selectedId)
    }

    /** updateNote: without a selected note nothing happens; otherwise the merged note replaces
        every note with its id, and `notes/update` is sent only when that id is truthy. The
        merged note stays the selected one. */
    method UpdateNote(patch: NotePatch) returns (sent: Option<RNote>)
      modifies this
      ensures selectedId == old(selectedId)
      ensures old(Selected()).None? ==> notes == old(notes) && sent.None?
      ensures old(Selected()).Some? ==>
                var updated := Merge(old(Selected()).value, patch);
                notes == ReplaceNote(old(notes), updated) && Selected() == Some(updated)
                && (sent.Some? <==> updated.id.Some? && updated.id.value != 0)
                && (sent.Some? ==> sent.value == updated)
    {
      var current := Selected();
      if current.None? {
        return None;
      }
      var updated := Merge(current.value, patch);
      ReplaceThenFind(notes, updated);
      notes := ReplaceNote(notes, updated);
      if updated.id.None? || updated.id.value == 0 {
        return None;
      }
      return Some(updated);
    }

    /** handleTogglePin: the selected note's pin is toggled through updateNote, which sends
        `notes/update` only for a truthy id. */
    method HandleTogglePin() returns (sent: Option<RNote>)
      modifies this
      ensures selectedId == old(selectedId)
      ensures old(Selected()).None? ==> notes == old(notes) && sent.None?
      ensures old(Selected()).Some? ==>
                var updated := old(Selected()).value.(pinned := TogglePin(old(Selected()).value.pinned));
                notes == ReplaceNote(old(notes), updated) && Selected() == Some(updated)
                && (sent.Some? <==> updated.id.Some? && updated.id.value != 0)
                && (sent.Some? ==> sent.value == updated)
    {
      var current := Selected();
      if current.None? {
        return None;
      }
      sent := UpdateNote(NotePatch(None, None, Some(TogglePin(current.value.pinned))));
    }

    /** handleDelete: nothing happens without a selected note with a truthy id, or when a note
        with a non-blank title or content is not confirmed, or when `notes/delete` fails.
        Otherwise every note with that id leaves the list and the selection moves to the first
        note left. Returns the id sent to `notes/delete`. */
    method HandleDelete(confirmed: bool, deleteSucceeded: bool) returns (deleted: Option<int>)
      modifies this
      ensures var sel := old(Selected());
              deleted.Some? <==>
                sel.Some? && sel.value.id.Some? && sel.value.id.value != 0
                && (NeedsConfirm(sel.value) ==> confirmed) && deleteSucceeded
      ensures deleted.None? ==> notes == old(notes) && selectedId == old(selectedId)
      ensures deleted.Some? ==>
                deleted == old(selectedId)
                && notes == Filter(old(notes), OtherNote(deleted))
                && (forall n :: n in notes <==> n in old(notes) && n.id != deleted)
                && selectedId == FirstId(notes)
    {
      var sel := Selected();
      if sel.None? || sel.value.id.None? || sel.value.id.value == 0 {
        return None;
      }
      if NeedsConfirm(sel.value) && !confirmed {
        return None;
      }
      if !deleteSucceeded {
        return None;
      }
      var id := sel.value.id;
      notes := Filter(notes, OtherNote(id));
      selectedId := FirstId(notes);
      return id;
    }
  }
}
