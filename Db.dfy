/**
 * The store of electron/db.js: five repositories over SQLite tables, modelled as in-memory
 * tables (id -> row). An `integer primary key` column gets SQLite's rowid rule: one more than
 * the largest id in the table, or 1 in an empty table. Timestamps (`created_at`,
 * `updated_at`) are the instant `now` handed in by the caller; persistence to disk is not part
 * of this model.
 */
module Db {
  import opened Js
  import Sorting

  // ---------------------------------------------------------------------------
  // Row ids

  /** The id SQLite gives the next inserted row: max(id) + 1, or 1 in an empty table. */
  method NextRowId(ids: set<int>) returns (id: int)
    ensures id !in ids
    ensures forall k :: k in ids ==> k < id
    ensures ids == {} ==> id == 1
    ensures ids != {} ==> id - 1 in ids
  {
    var max: Option<int> := None;
    var todo := ids;
    while true
      invariant todo <= ids
      invariant max.Some? ==> max.value in ids
      invariant forall k :: k in ids && k !in todo ==> max.Some? && k <= max.value
      invariant max.None? ==> todo == ids
      decreases |todo|
    {
      if k :| k in todo {
        if max.None? || max.value < k {
          max := Some(k);
        }
        todo := todo - {k};
      } else {
        break;
      }
    }
    id := if max.Some? then max.value + 1 else 1;
  }

  /** The `all` helper: steps through every row of a table and pushes it, once each. */
  method Scan<R(==)>(table: map<int, R>) returns (rows: seq<R>)
    requires forall a, b :: a in table && b in table && a != b ==> table[a] != table[b]
    ensures |rows| == |table.Keys|
    ensures forall k :: k in table ==> table[k] in rows
    ensures forall i :: 0 <= i < |rows| ==> exists k :: k in table && table[k] == rows[i]
    ensures forall i, j :: 0 <= i < j < |rows| ==> rows[i] != rows[j]
  {
    rows := [];
    var todo := table.Keys;
    while true
      invariant todo <= table.Keys
      invariant |rows| + |todo| == |table.Keys|
      invariant forall k :: k in table && k !in todo ==> table[k] in rows
      invariant forall i :: 0 <= i < |rows| ==> exists k :: k in table && k !in todo && table[k] == rows[i]
      invariant forall i, j :: 0 <= i < j < |rows| ==> rows[i] != rows[j]
      decreases |todo|
    {
      if k :| k in todo {
        forall i | 0 <= i < |rows|
          ensures rows[i] != table[k]
        {
          var k' :| k' in table && k' !in todo && table[k'] == rows[i];
          assert k' != k;
        }
        rows := rows + [table[k]];
        todo := todo - {k};
      } else {
        forall k ensures k !in todo {}
        assert todo == {};
        break;
      }
    }
  }

  // ---------------------------------------------------------------------------
  // settingsRepo: key/value pairs with upsert

  class SettingsRepo {
    var table: map<string, string>

    constructor ()
      ensures table == map[]
    {
      table := map[];
    }

    /** The stored value for key; None is `null` for an absent key. */
    function Get(key: string): (r: Option<string>)
      reads this
      ensures r.Some? <==> key in table
      ensures r.Some? ==> r.value == table[key]
    {
      if key in table then Some(table[key]) else None
    }

    /** Inserts the pair, or overwrites the value of an existing key; reports true. */
    method Set(key: string, value: string) returns (ok: bool)
      modifies this
      ensures ok
      ensures Get(key) == Some(value)
      ensures forall k :: k != key ==> Get(k) == old(Get(k))
      ensures table == old(table)[key := value]
    {
      table := table[key := value];
      ok := true;
    }
  }

  // ---------------------------------------------------------------------------
  // windowRepo: the single row of windows_state

  datatype WindowState = WindowState(posX: Option<int>, posY: Option<int>, width: Option<int>,
                                     height: Option<int>, overlayMode: string)

  class WindowRepo {
    var rows: map<int, WindowState>

    /** The table never holds a row other than id 1. */
    ghost predicate Valid()
      reads this
    {
      rows.Keys <= {1}
    }

    constructor ()
      ensures Valid() && rows == map[]
    {
      rows := map[];
    }

    function Get(): (r: Option<WindowState>)
      reads this
      ensures r.Some? <==> 1 in rows
      ensures r.Some? ==> r.value == rows[1]
    {
      if 1 in rows then Some(rows[1]) else None
    }

    /** Inserts row 1 or overwrites all of its columns; reports true. */
    method Set(s: WindowState) returns (ok: bool)
      requires Valid()
      modifies this
      ensures Valid() && ok
      ensures rows == map[1 := s]
      ensures Get() == Some(s)
    {
      rows := rows[1 := s];
      ok := true;
    }
  }

  // ---------------------------------------------------------------------------
  // notesRepo

  datatype Note = Note(id: int, title: string, content: string, pinned: int,
                       posX: Option<int>, posY: Option<int>, width: Option<int>,
                       height: Option<int>, updatedAt: int)

  /** What a caller hands to create and update: any field may be missing. */
  datatype NoteInput = NoteInput(id: Option<int>, title: Option<string>, content: Option<string>,
                                 pinned: NumOrBool, posX: Option<int>, posY: Option<int>,
                                 width: Option<int>, height: Option<int>)

  /** The row `create` inserts: the given values, with '' for a missing title or content, pinned
      as 0/1, and position 50/50 and size 200x160 for a missing or zero value (`||`). */
  function NewNote(id: int, n: NoteInput, now: int): (r: Note)
    ensures r.id == id && r.updatedAt == now
    ensures n.title.Some? ==> r.title == n.title.value
    ensures n.title.None? ==> r.title == ""
    ensures n.content.Some? ==> r.content == n.content.value
    ensures n.content.None? ==> r.content == ""
    ensures r.pinned == 0 || r.pinned == 1
    ensures r.pinned == 1 <==> Truthy(n.pinned)
    ensures r.posX.Some? && r.posY.Some? && r.width.Some? && r.height.Some?
    ensures n.posX.Some? && n.posX.value != 0 ==> r.posX == n.posX
    ensures n.posX.None? || n.posX.value == 0 ==> r.posX == Some(50)
    ensures n.posY.Some? && n.posY.value != 0 ==> r.posY == n.posY
    ensures n.posY.None? || n.posY.value == 0 ==> r.posY == Some(50)
    ensures n.width.Some? && n.width.value != 0 ==> r.width == n.width
    ensures n.width.None? || n.width.value == 0 ==> r.width == Some(200)
    ensures n.height.Some? && n.height.value != 0 ==> r.height == n.height
    ensures n.height.None? || n.height.value == 0 ==> r.height == Some(160)
  {
    Note(id, OrEmpty(n.title), OrEmpty(n.content), if Truthy(n.pinned) then 1 else 0,
         Some(OrDefault(n.posX, 50)), Some(OrDefault(n.posY, 50)),
         Some(OrDefault(n.width, 200)), Some(OrDefault(n.height, 160)), now)
  }

  /** The row `update` writes over row `id`: title, content and pinned as in create, but the
      position and size exactly as given (a missing one becomes NULL). */
  function UpdatedNote(id: int, n: NoteInput, now: int): (r: Note)
    ensures r.id == id && r.updatedAt == now
    ensures r.title == NewNote(id, n, now).title && r.content == NewNote(id, n, now).content
    ensures r.pinned == NewNote(id, n, now).pinned
    ensures r.pinned == 1 <==> Truthy(n.pinned)
    ensures r.posX == n.posX && r.posY == n.posY && r.width == n.width && r.height == n.height
  {
    Note(id, OrEmpty(n.title), OrEmpty(n.content), if Truthy(n.pinned) then 1 else 0,
         n.posX, n.posY, n.width, n.height, now)
  }

  /** `order by updated_at desc`. */
  function NoteRecency(n: Note): Sorting.Rank {
    Sorting.Rank(-n.updatedAt, 0)
  }

  class NotesRepo {
    var rows: map<int, Note>

    /** Every row is stored under its own id. */
    ghost predicate Valid()
      reads this
    {
      forall id :: id in rows ==> rows[id].id == id
    }

    constructor ()
      ensures Valid() && rows == map[]
    {
      rows := map[];
    }

    /** Every note, most recently updated first. */
    method List() returns (r: seq<Note>)
      requires Valid()
      ensures |r| == |rows.Keys|
      ensures forall id :: id in rows ==> rows[id] in r
      ensures forall i :: 0 <= i < |r| ==> r[i] in rows.Values
      ensures Sorting.SortedBy(r, NoteRecency)
    {
      var all := Scan(rows);
      r := Sorting.SortBy(all, NoteRecency);
      forall i | 0 <= i < |r|
        ensures r[i] in all
      {
        assert r[i] in multiset(all);
      }
      forall x | x in all
        ensures x in r
      {
        assert x in multiset(r);
      }
    }

    /** Inserts a note with the create defaults under a fresh id and returns the new row. */
    method Create(n: NoteInput, now: int) returns (created: Note)
      requires Valid()
      modifies this
      ensures Valid()
      ensures created.id !in old(rows)
      ensures forall k :: k in old(rows) ==> k < created.id
      ensures created == NewNote(created.id, n, now)
      ensures rows == old(rows)[created.id := created]
    {
      var id := NextRowId(rows.Keys);
      created := NewNote(id, n, now);
      rows := rows[id := created];
    }

    /** Rewrites the row whose id the input carries and returns it; an input without an id or
        with an unknown one changes nothing and gives null. */
    method Update(n: NoteInput, now: int) returns (r: Option<Note>)
      requires Valid()
      modifies this
      ensures Valid()
      ensures n.id.Some? && n.id.value in old(rows) ==>
                r == Some(UpdatedNote(n.id.value, n, now)) && rows == old(rows)[n.id.value := r.value]
      ensures !(n.id.Some? && n.id.value in old(rows)) ==> r.None? && rows == old(rows)
    {
      if n.id.Some? && n.id.value in rows {
        var row := UpdatedNote(n.id.value, n, now);
        rows := rows[n.id.value := row];
        r := Some(row);
      } else {
        r := None;
      }
    }

    /** Deletes row id, if there is one, and reports true. */
    method Remove(id: int) returns (ok: bool)
      requires Valid()
      modifies this
      ensures Valid() && ok
      ensures rows == old(rows) - {id}
    {
      rows := rows - {id};
      ok := true;
    }
  }

  // ---------------------------------------------------------------------------
  // timersRepo, with the columns db.js reads and writes

  datatype TimerRow = TimerRow(id: int, labelText: string, durationMs: int, elapsedMs: int,
                               state: string, updatedAt: int)

  datatype TimerInput = TimerInput(id: Option<int>, labelText: Option<string>, durationMs: Option<int>,
                                   elapsedMs: Option<int>, state: Option<string>)

  /** `t.state || 'idle'`: a missing or empty state is 'idle'. */
  function StateOrIdle(s: Option<string>): (r: string)
    ensures r != ""
    ensures s.Some? && s.value != "" ==> r == s.value
    ensures s.None? || s.value == "" ==> r == "idle"
  {
    if s.Some? && s.value != "" then s.value else "idle"
  }

  /** The row create and update write: the given values, with label '', durations 0 and state
      'idle' for a missing (or, for the state, empty) value; a 0 duration is 0 either way. */
  function TimerRowOf(id: int, t: TimerInput, now: int): (r: TimerRow)
    ensures r.id == id && r.updatedAt == now
    ensures t.labelText.Some? ==> r.labelText == t.labelText.value
    ensures t.labelText.None? ==> r.labelText == ""
    ensures t.durationMs.Some? ==> r.durationMs == t.durationMs.value
    ensures t.durationMs.None? ==> r.durationMs == 0
    ensures t.elapsedMs.Some? ==> r.elapsedMs == t.elapsedMs.value
    ensures t.elapsedMs.None? ==> r.elapsedMs == 0
    ensures r.state == StateOrIdle(t.state)
  {
    TimerRow(id, OrEmpty(t.labelText), OrDefault(t.durationMs, 0), OrDefault(t.elapsedMs, 0),
             StateOrIdle(t.state), now)
  }

  function TimerRecency(t: TimerRow): Sorting.Rank {
    Sorting.Rank(-t.updatedAt, 0)
  }

  class TimersRepo {
    var rows: map<int, TimerRow>

    ghost predicate Valid()
      reads this
    {
      forall id :: id in rows ==> rows[id].id == id
    }

    constructor ()
      ensures Valid() && rows == map[]
    {
      rows := map[];
    }

    /** Every timer row, most recently updated first. */
    method List() returns (r: seq<TimerRow>)
      requires Valid()
      ensures |r| == |rows.Keys|
      ensures forall id :: id in rows ==> rows[id] in r
      ensures forall i :: 0 <= i < |r| ==> r[i] in rows.Values
      ensures Sorting.SortedBy(r, TimerRecency)
    {
      var all := Scan(rows);
      r := Sorting.SortBy(all, TimerRecency);
      forall i | 0 <= i < |r|
        ensures r[i] in all
      {
        assert r[i] in multiset(all);
      }
      forall x | x in all
        ensures x in r
      {
        assert x in multiset(r);
      }
    }

    method Create(t: TimerInput, now: int) returns (created: TimerRow)
      requires Valid()
      modifies this
      ensures Valid()
      ensures created.id !in old(rows)
      ensures created == TimerRowOf(created.id, t, now)
      ensures rows == old(rows)[created.id := created]
    {
      var id := NextRowId(rows.Keys);
      created := TimerRowOf(id, t, now);
      rows := rows[id := created];
    }

    method Update(t: TimerInput, now: int) returns (r: Option<TimerRow>)
      requires Valid()
      modifies this
      ensures Valid()
      ensures t.id.Some? && t.id.value in old(rows) ==>
                r == Some(TimerRowOf(t.id.value, t, now)) && rows == old(rows)[t.id.value := r.value]
      ensures !(t.id.Some? && t.id.value in old(rows)) ==> r.None? && rows == old(rows)
    {
      if t.id.Some? && t.id.value in rows {
        var row := TimerRowOf(t.id.value, t, now);
        rows := rows[t.id.value := row];
        r := Some(row);
      } else {
        r := None;
      }
    }
  }

  // ---------------------------------------------------------------------------
  // remindersRepo

  datatype ReminderStatus = Scheduled | Fired | Canceled

  datatype Reminder = Reminder(id: int, message: string, fireAt: int, status: ReminderStatus,
                               createdAt: int)

  /** What reminder/create receives; whatever status it carries is ignored. */
  datatype ReminderInput = ReminderInput(message: Option<string>, fireAt: int,
                                         status: Option<ReminderStatus>)

  /** `order by fire_at asc`. */
  function FireOrder(r: Reminder): Sorting.Rank {
    Sorting.Rank(r.fireAt, 0)
  }

  /** The rows with the given ids set to status s; the other rows as they were. */
  function WithStatus(rows: map<int, Reminder>, ids: set<int>, s: ReminderStatus): (r: map<int, Reminder>)
    ensures r.Keys == rows.Keys
    ensures forall id :: id in rows && id in ids ==> r[id] == rows[id].(status := s)
    ensures forall id :: id in rows && id !in ids ==> r[id] == rows[id]
  {
    map id | id in rows :: if id in ids then rows[id].(status := s) else rows[id]
  }

  class RemindersRepo {
    var rows: map<int, Reminder>

    ghost predicate Valid()
      reads this
    {
      forall id :: id in rows ==> rows[id].id == id
    }

    constructor ()
      ensures Valid() && rows == map[]
    {
      rows := map[];
    }

    /** Every reminder, earliest fire time first. */
    method List() returns (r: seq<Reminder>)
      requires Valid()
      ensures |r| == |rows.Keys|
      ensures forall id :: id in rows ==> rows[id] in r
      ensures forall i :: 0 <= i < |r| ==> r[i] in rows.Values
      ensures Sorting.SortedBy(r, FireOrder)
    {
      var all := Scan(rows);
      r := Sorting.SortBy(all, FireOrder);
      forall i | 0 <= i < |r|
        ensures r[i] in all
      {
        assert r[i] in multiset(all);
      }
      forall x | x in all
        ensures x in r
      {
        assert x in multiset(r);
      }
    }

    /** Inserts the reminder with status scheduled, whatever the input says, and returns it. */
    method Create(input: ReminderInput, now: int) returns (created: Reminder)
      requires Valid()
      modifies this
      ensures Valid()
      ensures created.id !in old(rows)
      ensures created == Reminder(created.id, OrEmpty(input.message), input.fireAt, Scheduled, now)
      ensures rows == old(rows)[created.id := created]
    {
      var id := NextRowId(rows.Keys);
      created := Reminder(id, OrEmpty(input.message), input.fireAt, Scheduled, now);
      rows := rows[id := created];
    }

    /** Sets row id to canceled whatever its status was; an unknown id changes nothing. */
    method Cancel(id: int) returns (ok: bool)
      requires Valid()
      modifies this
      ensures Valid() && ok
      ensures rows == WithStatus(old(rows), {id}, Canceled)
    {
      rows := WithStatus(rows, {id}, Canceled);
      ok := true;
    }

    /** Sets row id to fired; an unknown id changes nothing. */
    method MarkFired(id: int)
      requires Valid()
      modifies this
      ensures Valid()
      ensures rows == WithStatus(old(rows), {id}, Fired)
    {
      rows := WithStatus(rows, {id}, Fired);
    }

    // The three operations below are called by electron/scheduler.js and electron/main.js but
    // are not defined by electron/db.js; they are the store those callers assume.

    /** Every reminder once, in no particular order. */
    method GetAll() returns (r: seq<Reminder>)
      requires Valid()
      ensures |r| == |rows.Keys|
      ensures forall id :: id in rows ==> rows[id] in r
      ensures forall i :: 0 <= i < |r| ==> r[i].id in rows && rows[r[i].id] == r[i]
      ensures forall i, j :: 0 <= i < j < |r| ==> r[i].id != r[j].id
    {
      r := Scan(rows);
      forall i | 0 <= i < |r|
        ensures r[i].id in rows && rows[r[i].id] == r[i]
      {
        var k :| k in rows && rows[k] == r[i];
      }
    }

    /** Writes row under id, if id exists; an unknown id changes nothing. */
    method Update(id: int, row: Reminder)
      requires Valid()
      modifies this
      ensures Valid()
      ensures id in old(rows) ==> rows == old(rows)[id := row.(id := id)]
      ensures id !in old(rows) ==> rows == old(rows)
    {
      if id in rows {
        rows := rows[id := row.(id := id)];
      }
    }

    /** Deletes row id, if there is one. */
    method Remove(id: int) returns (ok: bool)
      requires Valid()
      modifies this
      ensures Valid() && ok
      ensures rows == old(rows) - {id}
    {
      rows := rows - {id};
      ok := true;
    }
  }

  /** Status only moves away from scheduled: a row that is fired or canceled before a cancel or
      a fired write is fired or canceled after it. */
  lemma StatusLeavesScheduledOnly(rows: map<int, Reminder>, id: int, s: ReminderStatus, k: int)
    requires s != Scheduled && k in rows && rows[k].status != Scheduled
    ensures WithStatus(rows, {id}, s)[k].status != Scheduled
  {
  }
}
