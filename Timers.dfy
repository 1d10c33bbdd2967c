/**
 * The timer engine of electron/main.js.
 *
 * main.js works with timer records of its own shape (name, total seconds, target instant,
 * status) and keeps `activeTimers`, a map from timer id to the handle of a one-shot timeout.
 * The store it calls is modelled as the table those calls assume (TimerTable); electron/db.js
 * stores timers under other field names and defines no `remove`. The event loop's live
 * timeouts are the map `timeouts` from handle to what the timeout will do; the event loop runs a
 * due one through OnTimerTimeout. Notifications and the `timer/fired` messages are appended to
 * `events`, one entry per finished timer.
 */
module Timers {
  import opened Js
  import Db

  /** The statuses main.js writes: 'running', 'done' and 'cancelled'. */
  datatype TimerStatus = Running | Done | Cancelled

  /** The message `timer/create` throws for a bad duration. */
  const InvalidDuration: string := "invalid duration"

  /** A timer record as main.js reads and writes it. Nothing in the program sets `targetAt`;
      None stands for a missing target, for which `targetAt - now` is NaN. */
  datatype Timer = Timer(id: int, name: string, totalSeconds: int, targetAt: Option<int>, status: TimerStatus)

  /** A finished timer: the notification text and the record sent with `timer/fired`. */
  datatype Event = TimerFired(timer: Timer, title: string, body: string)

  /** The outcome of an IPC handler that may throw. */
  datatype Outcome<T> = Returned(value: T) | Thrown(message: string)

  /** The notification for a finished timer; an empty name is falsy and gets the generic text. */
  function FiredEvent(finished: Timer): Event {
    if finished.name != "" then
      TimerFired(finished, "Timer: " + finished.name, "Dein Timer \"" + finished.name + "\" ist abgelaufen.")
    else
      TimerFired(finished, "Timer abgelaufen", "Dein Timer ist fertig.")
  }

  /** The table after `update(t)`: the row with t's id is replaced, an unknown id is ignored. */
  function Stored(rows: map<int, Timer>, t: Timer): map<int, Timer> {
    if t.id in rows then rows[t.id := t] else rows
  }

  // ---------------------------------------------------------------------------
  // The timers table as main.js uses it

  class TimerTable {
    var rows: map<int, Timer>

    /** Rows are keyed by their id, and row ids are positive. */
    ghost predicate Valid()
      reads this
    {
      forall id :: id in rows ==> rows[id].id == id && id >= 1
    }

    constructor ()
      ensures Valid() && rows == map[]
    {
      rows := map[];
    }

    /** `create`: stores a new row under a fresh id; no target is set. */
    method Create(name: string, totalSeconds: int, status: TimerStatus) returns (created: Timer)
      requires Valid()
      modifies this
      ensures Valid()
      ensures created.id !in old(rows) && created.id >= 1
      ensures created == Timer(created.id, name, totalSeconds, None, status)
      ensures rows == old(rows)[created.id := created]
    {
      var id := Db.NextRowId(rows.Keys);
      created := Timer(id, name, totalSeconds, None, status);
      rows := rows[id := created];
    }

    /** `list`: every row once, each under its own id. */
    method List() returns (r: seq<Timer>)
      requires Valid()
      ensures |r| == |rows.Keys|
      ensures forall id :: id in rows ==> rows[id] in r
      ensures forall i :: 0 <= i < |r| ==> r[i].id in rows && rows[r[i].id] == r[i]
      ensures forall i, j :: 0 <= i < j < |r| ==> r[i].id != r[j].id
    {
      r := Db.Scan(rows);
      forall i | 0 <= i < |r|
        ensures r[i].id in rows && rows[r[i].id] == r[i]
      {
        var k :| k in rows && rows[k] == r[i];
      }
    }

    /** `update`: replaces the row with t's id, if there is one. */
    method Update(t: Timer)
      requires Valid()
      modifies this
      ensures Valid()
      ensures rows == Stored(old(rows), t)
    {
      if t.id in rows {
        rows := rows[t.id := t];
      }
    }

    /** `remove`: deletes the row with that id, if there is one. */
    method Remove(id: int)
      requires Valid()
      modifies this
      ensures Valid()
      ensures rows == old(rows) - {id}
    {
      rows := rows - {id};
    }
  }

  // ---------------------------------------------------------------------------
  // scheduleTimer's decisions

  /** scheduleTimer returns at once: no timer, a status other than running, or a falsy id. */
  predicate Ignored(timer: Option<Timer>) {
    timer.None? || timer.value.status != Running || timer.value.id == 0
  }

  /** `targetAt - now`, None when it is NaN. */
  function Delay(t: Timer, now: int): (d: Option<int>)
    ensures d.Some? <==> t.targetAt.Some?
    ensures d.Some? ==> t.targetAt.value == now + d.value
  {
    if t.targetAt.Some? then Some(t.targetAt.value - now) else None
  }

  /** `delay <= 0`; false for NaN. */
  predicate Expired(t: Timer, now: int) {
    Delay(t, now).Some? && Delay(t, now).value <= 0
  }

  /** A live one-shot timeout of the engine: when it runs, and the record it captured. */
  datatype TimerTimeout = TimerTimeout(due: int, timer: Timer)

  /** The live timeouts after clearTimeout on the handle `active` holds for id, if any. */
  function Release(timeouts: map<nat, TimerTimeout>, active: map<int, nat>, id: int): map<nat, TimerTimeout> {
    if id in active then timeouts - {active[id]} else timeouts
  }

  /** A handle armed for a running timer with a future target: it is due at the target (or
      1 ms on, for a delay beyond Node's limit) and will finish that very record. */
  predicate ArmedFor(active: map<int, nat>, timeouts: map<nat, TimerTimeout>, t: Timer, now: int)
    requires t.targetAt.Some?
  {
    t.id in active && active[t.id] in timeouts
    && timeouts[active[t.id]] == TimerTimeout(now + ArmDelay(Some(t.targetAt.value - now)), t)
  }

  // ---------------------------------------------------------------------------
  // restoreTimers' decisions

  /** restoreTimers re-arms a running row whose target is truthy and in the future. */
  predicate Rearms(t: Timer, now: int) {
    t.status == Running && t.targetAt.Some? && t.targetAt.value != 0 && t.targetAt.value > now
  }

  /** restoreTimers finishes a running row whose target is missing or not in the future. */
  predicate Overdue(t: Timer, now: int) {
    t.status == Running && !Rearms(t, now)
  }

  /** The table after restoreTimers has visited the rows in ids. */
  function FinishOverdue(rows: map<int, Timer>, ids: set<int>, now: int): (r: map<int, Timer>)
    ensures r.Keys == rows.Keys
    ensures forall id :: id in rows && id in ids && Overdue(rows[id], now) ==> r[id] == rows[id].(status := Done)
    ensures forall id :: id in rows && !(id in ids && Overdue(rows[id], now)) ==> r[id] == rows[id]
  {
    map id | id in rows :: if id in ids && Overdue(rows[id], now) then rows[id].(status := Done) else rows[id]
  }

  /** After restoreTimers, a row is running only if it is armed for a future target, and no row
      changed except a running one that became done. */
  lemma RestoreSettles(rows: map<int, Timer>, now: int, id: int)
    requires id in rows
    ensures var r := FinishOverdue(rows, rows.Keys, now);
            (r[id].status == Running ==> Rearms(r[id], now))
            && (r[id] != rows[id] ==> rows[id].status == Running && r[id] == rows[id].(status := Done))
  {
  }

  /** The handles after restoreTimers has visited the rows in ids, starting from the handles
      active0, the live timeouts timeouts0 and the next handle token0: those it re-armed hold a
      fresh timeout for their target and their old one is cleared; every other id keeps the
      handle it had, and every other live timeout stays as it was. */
  ghost predicate Restored(active0: map<int, nat>, timeouts0: map<nat, TimerTimeout>, token0: nat,
                           active: map<int, nat>, timeouts: map<nat, TimerTimeout>,
                           rows: map<int, Timer>, ids: set<int>, now: int)
  {
    HandlesRestored(active0, token0, active, timeouts, rows, ids, now)
    && TimeoutsKept(active0, timeouts0, token0, active, timeouts, rows, ids, now)
  }

  /** The re-armed ids hold a fresh handle armed for their target; the other ids keep theirs. */
  ghost predicate HandlesRestored(active0: map<int, nat>, token0: nat, active: map<int, nat>,
                                  timeouts: map<nat, TimerTimeout>, rows: map<int, Timer>, ids: set<int>, now: int)
  {
    (forall id :: id in active <==> id in active0 || (id in ids && id in rows && Rearms(rows[id], now)))
    && (forall id :: id in ids && id in rows && Rearms(rows[id], now) ==>
          rows[id].id == id && ArmedFor(active, timeouts, rows[id], now) && token0 <= active[id])
    && (forall id :: id in active0 && !(id in ids && id in rows && Rearms(rows[id], now)) ==>
          id in active && active[id] == active0[id])
  }

  /** The re-armed ids' old timeouts are cleared, every other old timeout stays as it was, and a
      timeout that is not old is the handle its own record's id holds. */
  ghost predicate TimeoutsKept(active0: map<int, nat>, timeouts0: map<nat, TimerTimeout>, token0: nat,
                               active: map<int, nat>, timeouts: map<nat, TimerTimeout>,
                               rows: map<int, Timer>, ids: set<int>, now: int)
  {
    (forall id :: id in active0 && id in ids && id in rows && Rearms(rows[id], now) ==>
       active0[id] !in timeouts)
    && (forall k :: k in timeouts0 && k !in active0.Values ==> k in timeouts && timeouts[k] == timeouts0[k])
    && (forall id :: id in active0 && active0[id] in timeouts0 && !(id in ids && id in rows && Rearms(rows[id], now)) ==>
          active0[id] in timeouts && timeouts[active0[id]] == timeouts0[active0[id]])
    && (forall k :: k in timeouts && k !in timeouts0 ==>
          token0 <= k && timeouts[k].timer.id in active && active[timeouts[k].timer.id] == k)
  }

  lemma FinishOverdueStep(rows: map<int, Timer>, ids: set<int>, id: int, now: int)
    requires id in rows
    ensures FinishOverdue(rows, ids + {id}, now) ==
              if Overdue(rows[id], now) then FinishOverdue(rows, ids, now)[id := rows[id].(status := Done)]
              else FinishOverdue(rows, ids, now)
  {
    var a := FinishOverdue(rows, ids + {id}, now);
    var b := if Overdue(rows[id], now) then FinishOverdue(rows, ids, now)[id := rows[id].(status := Done)]
             else FinishOverdue(rows, ids, now);
    forall k ensures k in a <==> k in b {}
    assert a.Keys == b.Keys;
    forall k | k in a ensures a[k] == b[k] {}
  }

  lemma RestoredEmpty(active: map<int, nat>, timeouts: map<nat, TimerTimeout>, token: nat, rows: map<int, Timer>, now: int)
    ensures Restored(active, timeouts, token, active, timeouts, rows, {}, now)
    ensures FinishOverdue(rows, {}, now) == rows
  {
    var f := FinishOverdue(rows, {}, now);
    forall k ensures k in f <==> k in rows {}
    assert f.Keys == rows.Keys;
    forall k | k in f ensures f[k] == rows[k] {}
  }

  /** Re-arming one more row keeps the handles restored so far, given fresh, distinct handles. */
  lemma RestoredArmStep(active0: map<int, nat>, timeouts0: map<nat, TimerTimeout>, token0: nat,
                        active: map<int, nat>, timeouts: map<nat, TimerTimeout>,
                        rows: map<int, Timer>, ids: set<int>, now: int, id: int, token: nat,
                        active': map<int, nat>, timeouts': map<nat, TimerTimeout>)
    requires Restored(active0, timeouts0, token0, active, timeouts, rows, ids, now)
    requires id in rows && rows[id].id == id && Rearms(rows[id], now) && id !in ids
    requires forall k :: k in active ==> active[k] < token
    requires forall a, b :: a in active && b in active && active[a] == active[b] ==> a == b
    requires forall a, b :: a in active0 && b in active0 && active0[a] == active0[b] ==> a == b
    requires forall k :: k in timeouts0 ==> k < token0
    requires forall k :: k in active0 ==> active0[k] < token0
    requires token0 <= token
    requires active' == active[id := token]
    requires timeouts' == Release(timeouts, active, id)[token := TimerTimeout(now + ArmDelay(Some(rows[id].targetAt.value - now)), rows[id])]
    ensures Restored(active0, timeouts0, token0, active', timeouts', rows, ids + {id}, now)
  {
    var entry := TimerTimeout(now + ArmDelay(Some(rows[id].targetAt.value - now)), rows[id]);
    HandlesArmStep(active0, token0, active, timeouts, rows, ids, now, id, token);
    KeptArmStep(active0, timeouts0, token0, active, timeouts, rows, ids, now, id, token, entry);
  }

  /** The handles part of RestoredArmStep. */
  lemma {:induction false} HandlesArmStep(active0: map<int, nat>, token0: nat, active: map<int, nat>,
                                         timeouts: map<nat, TimerTimeout>, rows: map<int, Timer>,
                                         ids: set<int>, now: int, id: int, token: nat)
    requires HandlesRestored(active0, token0, active, timeouts, rows, ids, now)
    requires id in rows && rows[id].id == id && Rearms(rows[id], now) && id !in ids
    requires forall k :: k in active ==> active[k] < token
    requires forall a, b :: a in active && b in active && active[a] == active[b] ==> a == b
    requires token0 <= token
    ensures HandlesRestored(active0, token0, active[id := token],
                            Release(timeouts, active, id)[token := TimerTimeout(now + ArmDelay(Some(rows[id].targetAt.value - now)), rows[id])],
                            rows, ids + {id}, now)
  {
    var t := rows[id];
    var active' := active[id := token];
    var timeouts' := Release(timeouts, active, id)[token := TimerTimeout(now + ArmDelay(Some(t.targetAt.value - now)), t)];
    forall k | k in ids + {id} && k in rows && Rearms(rows[k], now)
      ensures rows[k].id == k && ArmedFor(active', timeouts', rows[k], now)
    {
      if k != id {
        assert ArmedFor(active, timeouts, rows[k], now);
        assert active[k] != token;
        assert id in active ==> active[id] != active[k];
      }
    }
  }

  /** The timeouts part of RestoredArmStep. */
  lemma KeptArmStep(active0: map<int, nat>, timeouts0: map<nat, TimerTimeout>, token0: nat,
                    active: map<int, nat>, timeouts: map<nat, TimerTimeout>,
                    rows: map<int, Timer>, ids: set<int>, now: int, id: int, token: nat, entry: TimerTimeout)
    requires TimeoutsKept(active0, timeouts0, token0, active, timeouts, rows, ids, now)
    requires id in rows && Rearms(rows[id], now) && id !in ids && entry.timer.id == id
    requires (id in active <==> id in active0) && (id in active0 ==> active[id] == active0[id])
    requires forall a, b :: a in active0 && b in active0 && active0[a] == active0[b] ==> a == b
    requires forall k :: k in timeouts0 ==> k < token0
    requires forall k :: k in active0 ==> active0[k] < token0
    requires token0 <= token
    ensures TimeoutsKept(active0, timeouts0, token0, active[id := token], Release(timeouts, active, id)[token := entry],
                         rows, ids + {id}, now)
  {
    ArmClearsOld(active0, timeouts, rows, ids, now, id, active, token, entry);
    ArmKeepsUnheld(active0, timeouts0, token0, timeouts, active, id, token, entry);
    ArmKeepsHeld(active0, timeouts0, rows, ids, now, timeouts, active, id, token, entry);
    ArmAddsFresh(timeouts0, token0, active, timeouts, id, token, entry);
  }

  /** The re-armed rows' old handles stay cleared, the new row's old handle among them. */
  lemma ArmClearsOld(active0: map<int, nat>, timeouts: map<nat, TimerTimeout>, rows: map<int, Timer>,
                     ids: set<int>, now: int, id: int, active: map<int, nat>, token: nat, entry: TimerTimeout)
    requires forall k :: k in active0 && k in ids && k in rows && Rearms(rows[k], now) ==> active0[k] !in timeouts
    requires forall k :: k in active0 ==> active0[k] < token
    requires id in active0 ==> id in active && active[id] == active0[id]
    ensures forall k :: k in active0 && k in ids + {id} && k in rows && Rearms(rows[k], now) ==>
              active0[k] !in Release(timeouts, active, id)[token := entry]
  {
  }

  /** A timeout no old handle held survives re-arming one more row. */
  lemma ArmKeepsUnheld(active0: map<int, nat>, timeouts0: map<nat, TimerTimeout>, token0: nat,
                       timeouts: map<nat, TimerTimeout>, active: map<int, nat>, id: int, token: nat, entry: TimerTimeout)
    requires forall k :: k in timeouts0 && k !in active0.Values ==> k in timeouts && timeouts[k] == timeouts0[k]
    requires forall k :: k in timeouts0 ==> k < token0
    requires token0 <= token
    requires id in active ==> id in active0 && active[id] == active0[id]
    ensures forall k :: k in timeouts0 && k !in active0.Values ==>
              k in Release(timeouts, active, id)[token := entry] && Release(timeouts, active, id)[token := entry][k] == timeouts0[k]
  {
    assert id in active ==> active[id] in active0.Values;
  }

  /** The old timeout of an id that is not re-armed survives re-arming one more row. */
  lemma ArmKeepsHeld(active0: map<int, nat>, timeouts0: map<nat, TimerTimeout>, rows: map<int, Timer>, ids: set<int>,
                     now: int, timeouts: map<nat, TimerTimeout>, active: map<int, nat>, id: int, token: nat, entry: TimerTimeout)
    requires forall k :: k in active0 && active0[k] in timeouts0 && !(k in ids && k in rows && Rearms(rows[k], now)) ==>
               active0[k] in timeouts && timeouts[active0[k]] == timeouts0[active0[k]]
    requires forall k :: k in active0 ==> active0[k] < token
    requires id in active ==> id in active0 && active[id] == active0[id]
    requires forall a, b :: a in active0 && b in active0 && active0[a] == active0[b] ==> a == b
    requires id in rows && Rearms(rows[id], now)
    ensures forall k :: k in active0 && active0[k] in timeouts0 && !(k in ids + {id} && k in rows && Rearms(rows[k], now)) ==>
              active0[k] in Release(timeouts, active, id)[token := entry]
              && Release(timeouts, active, id)[token := entry][active0[k]] == timeouts0[active0[k]]
  {
    forall k | k in active0 && active0[k] in timeouts0 && !(k in ids + {id} && k in rows && Rearms(rows[k], now))
      ensures active0[k] in Release(timeouts, active, id)[token := entry]
              && Release(timeouts, active, id)[token := entry][active0[k]] == timeouts0[active0[k]]
    {
      assert k != id;
      assert id in active ==> active[id] != active0[k];
      assert active0[k] != token;
    }
  }

  /** After re-arming one more row, a live timeout that is not old is the handle its own
      record's id holds. */
  lemma ArmAddsFresh(timeouts0: map<nat, TimerTimeout>, token0: nat, active: map<int, nat>, timeouts: map<nat, TimerTimeout>,
                     id: int, token: nat, entry: TimerTimeout)
    requires forall k :: k in timeouts && k !in timeouts0 ==>
               token0 <= k && timeouts[k].timer.id in active && active[timeouts[k].timer.id] == k
    requires token0 <= token && entry.timer.id == id
    ensures var timeouts' := Release(timeouts, active, id)[token := entry];
            forall k :: k in timeouts' && k !in timeouts0 ==>
              token0 <= k && timeouts'[k].timer.id in active[id := token] && active[id := token][timeouts'[k].timer.id] == k
  {
  }

  /** Visiting a row restoreTimers does not re-arm leaves the handles restored so far. */
  lemma RestoredSkipStep(active0: map<int, nat>, timeouts0: map<nat, TimerTimeout>, token0: nat,
                         active: map<int, nat>, timeouts: map<nat, TimerTimeout>,
                         rows: map<int, Timer>, ids: set<int>, now: int, id: int)
    requires Restored(active0, timeouts0, token0, active, timeouts, rows, ids, now)
    requires id in rows && !Rearms(rows[id], now)
    ensures Restored(active0, timeouts0, token0, active, timeouts, rows, ids + {id}, now)
  {
  }

  /** One more row of a list with distinct ids visited. */
  lemma VisitedStep(list: seq<Timer>, i: nat, done: set<int>)
    requires i < |list|
    requires forall a, b :: 0 <= a < b < |list| ==> list[a].id != list[b].id
    requires forall j :: 0 <= j < |list| ==> (list[j].id in done <==> j < i)
    ensures forall j :: 0 <= j < |list| ==> (list[j].id in done + {list[i].id} <==> j < i + 1)
  {
  }

  /** The first row of list with that id. */
  function FindById(list: seq<Timer>, id: int): (r: Option<Timer>)
    ensures r.Some? ==> r.value in list && r.value.id == id
    ensures r.None? ==> forall i :: 0 <= i < |list| ==> list[i].id != id
  {
    if list == [] then None
    else if list[0].id == id then Some(list[0])
    else FindById(list[1..], id)
  }

  // ---------------------------------------------------------------------------
  // The engine

  class TimerEngine {
    var activeTimers: map<int, nat>
    var timeouts: map<nat, TimerTimeout>
    var nextToken: nat
    var events: seq<Event>

    /** Handles are issued in increasing order and activeTimers holds each at most once. */
    ghost predicate Valid()
      reads this
    {
      (forall t :: t in timeouts ==> t < nextToken)
      && (forall id :: id in activeTimers ==> activeTimers[id] < nextToken)
      && (forall a, b :: a in activeTimers && b in activeTimers && activeTimers[a] == activeTimers[b] ==> a == b)
    }

    constructor ()
      ensures Valid()
      ensures activeTimers == map[] && timeouts == map[] && events == []
    {
      activeTimers := map[];
      timeouts := map[];
      nextToken := 0;
      events := [];
    }

    /** Clears and forgets the handle of id, if there is one. */
    method ClearHandle(id: int)
      requires Valid()
      modifies this
      ensures Valid()
      ensures activeTimers == old(activeTimers) - {id}
      ensures timeouts == Release(old(timeouts), old(activeTimers), id)
      ensures nextToken == old(nextToken) && events == old(events)
    {
      if id in activeTimers {
        timeouts := timeouts - {activeTimers[id]};
      }
      activeTimers := activeTimers - {id};
    }

    /** scheduleTimer. A running timer whose target has passed is stored as done and announced
        at once; its entry leaves activeTimers but its handle is not cleared. Otherwise the old
        handle is cleared and a new one armed; a missing target (NaN delay) arms 1 ms. */
    method ScheduleTimer(table: TimerTable, timer: Option<Timer>, now: int)
      requires Valid() && table.Valid()
      modifies this, table
      ensures Valid() && table.Valid()
      ensures Ignored(timer) ==>
                activeTimers == old(activeTimers) && timeouts == old(timeouts) && nextToken == old(nextToken)
                && events == old(events) && table.rows == old(table.rows)
      ensures !Ignored(timer) && Expired(timer.value, now) ==>
                var finished := timer.value.(status := Done);
                table.rows == Stored(old(table.rows), finished)
                && activeTimers == old(activeTimers) - {timer.value.id}
                && timeouts == old(timeouts) && nextToken == old(nextToken)
                && events == old(events) + [FiredEvent(finished)]
      ensures !Ignored(timer) && !Expired(timer.value, now) ==>
                table.rows == old(table.rows) && events == old(events)
                && nextToken == old(nextToken) + 1
                && activeTimers == old(activeTimers)[timer.value.id := old(nextToken)]
                && timeouts == Release(old(timeouts), old(activeTimers), timer.value.id)[old(nextToken) :=
                                 TimerTimeout(now + ArmDelay(Delay(timer.value, now)), timer.value)]
    {
      if timer.None? || timer.value.status != Running || timer.value.id == 0 {
        return;
      }
      var t := timer.value;
      var delay := Delay(t, now);
      if delay.Some? && delay.value <= 0 {
        var finished := t.(status := Done);
        table.Update(finished);
        activeTimers := activeTimers - {t.id};
        events := events + [FiredEvent(finished)];
        return;
      }
      if t.id in activeTimers {
        timeouts := timeouts - {activeTimers[t.id]};
      }
      var token := nextToken;
      nextToken := nextToken + 1;
      timeouts := timeouts[token := TimerTimeout(now + ArmDelay(delay), t)];
      activeTimers := activeTimers[t.id := token];
    }

    /** The event loop runs the due timeout `token`: the captured record is stored as done, the
        id leaves activeTimers (whatever handle it holds now) and one event is appended. */
    method OnTimerTimeout(table: TimerTable, token: nat, now: int)
      requires Valid() && table.Valid()
      requires token in timeouts && timeouts[token].due <= now
      modifies this, table
      ensures Valid() && table.Valid()
      ensures timeouts == old(timeouts) - {token} && nextToken == old(nextToken)
      ensures var finished := old(timeouts)[token].timer.(status := Done);
              table.rows == Stored(old(table.rows), finished)
              && activeTimers == old(activeTimers) - {finished.id}
              && events == old(events) + [FiredEvent(finished)]
    {
      var t := timeouts[token].timer;
      timeouts := timeouts - {token};
      var finished := t.(status := Done);
      table.Update(finished);
      activeTimers := activeTimers - {t.id};
      events := events + [FiredEvent(finished)];
    }

    /** restoreTimers: every running row with a future target gets a fresh handle; every other
        running row is stored as done, without an event; other rows are left alone. */
    method RestoreTimers(table: TimerTable, now: int)
      requires Valid() && table.Valid()
      modifies this, table
      ensures Valid() && table.Valid()
      ensures events == old(events)
      ensures table.rows == FinishOverdue(old(table.rows), old(table.rows).Keys, now)
      ensures nextToken >= old(nextToken)
      ensures Restored(old(activeTimers), old(timeouts), old(nextToken), activeTimers, timeouts,
                       old(table.rows), old(table.rows).Keys, now)
    {
      var list := table.List();
      ghost var rows0 := table.rows;
      ghost var active0, timeouts0, token0 := activeTimers, timeouts, nextToken;
      ghost var done: set<int> := {};
      RestoredEmpty(activeTimers, timeouts, nextToken, rows0, now);
      var i := 0;
      while i < |list|
        invariant 0 <= i <= |list|
        invariant Valid() && table.Valid()
        invariant events == old(events)
        invariant forall j :: 0 <= j < |list| ==> (list[j].id in done <==> j < i)
        invariant done <= rows0.Keys
        invariant forall j :: 0 <= j < |list| ==> list[j].id in rows0 && rows0[list[j].id] == list[j] && list[j].id >= 1
        invariant table.rows == FinishOverdue(rows0, done, now)
        invariant nextToken >= token0
        invariant Restored(active0, timeouts0, token0, activeTimers, timeouts, rows0, done, now)
      {
        var t := list[i];
        RestoreOne(table, t, now, active0, timeouts0, token0, rows0, done);
        VisitedStep(list, i, done);
        done := done + {t.id};
        i := i + 1;
      }
      forall id | id in rows0
        ensures id in done
      {
        assert rows0[id] in list;
      }
      assert done == rows0.Keys by {
        forall id ensures id in done <==> id in rows0.Keys {}
      }
    }

    /** One step of restoreTimers, for a row t of the table as it was when the loop began. */
    method RestoreOne(table: TimerTable, t: Timer, now: int, ghost active0: map<int, nat>,
                      ghost timeouts0: map<nat, TimerTimeout>, ghost token0: nat,
                      ghost rows0: map<int, Timer>, ghost done: set<int>)
      requires Valid() && table.Valid()
      requires t.id in rows0 && rows0[t.id] == t && t.id >= 1 && t.id !in done
      requires table.rows == FinishOverdue(rows0, done, now)
      requires (forall k :: k in timeouts0 ==> k < token0) && (forall k :: k in active0 ==> active0[k] < token0)
      requires forall a, b :: a in active0 && b in active0 && active0[a] == active0[b] ==> a == b
      requires token0 <= nextToken
      requires Restored(active0, timeouts0, token0, activeTimers, timeouts, rows0, done, now)
      modifies this, table
      ensures Valid() && table.Valid() && events == old(events) && nextToken >= old(nextToken)
      ensures table.rows == FinishOverdue(rows0, done + {t.id}, now)
      ensures Restored(active0, timeouts0, token0, activeTimers, timeouts, rows0, done + {t.id}, now)
    {
      FinishOverdueStep(rows0, done, t.id, now);
      if t.status == Running {
        if t.targetAt.Some? && t.targetAt.value != 0 && t.targetAt.value > now {
          Rearm(table, t, now, active0, timeouts0, token0, rows0, done);
        } else {
          table.Update(t.(status := Done));
          RestoredSkipStep(active0, timeouts0, token0, activeTimers, timeouts, rows0, done, now, t.id);
        }
      } else {
        RestoredSkipStep(active0, timeouts0, token0, activeTimers, timeouts, rows0, done, now, t.id);
      }
    }

    /** restoreTimers' call of scheduleTimer for a running row with a future target. */
    method Rearm(table: TimerTable, t: Timer, now: int, ghost active0: map<int, nat>,
                 ghost timeouts0: map<nat, TimerTimeout>, ghost token0: nat,
                 ghost rows0: map<int, Timer>, ghost done: set<int>)
      requires Valid() && table.Valid()
      requires t.id in rows0 && rows0[t.id] == t && t.id >= 1 && t.id !in done && Rearms(t, now)
      requires (forall k :: k in timeouts0 ==> k < token0) && (forall k :: k in active0 ==> active0[k] < token0)
      requires forall a, b :: a in active0 && b in active0 && active0[a] == active0[b] ==> a == b
      requires token0 <= nextToken
      requires Restored(active0, timeouts0, token0, activeTimers, timeouts, rows0, done, now)
      modifies this, table
      ensures Valid() && table.Valid() && events == old(events) && table.rows == old(table.rows)
      ensures nextToken == old(nextToken) + 1
      ensures Restored(active0, timeouts0, token0, activeTimers, timeouts, rows0, done + {t.id}, now)
    {
      ghost var active, live, token := activeTimers, timeouts, nextToken;
      assert Delay(t, now) == Some(t.targetAt.value - now);
      assert !Ignored(Some(t)) && !Expired(t, now);
      ScheduleTimer(table, Some(t), now);
      assert activeTimers == active[t.id := token];
      assert timeouts == Release(live, active, t.id)[token := TimerTimeout(now + ArmDelay(Some(t.targetAt.value - now)), t)];
      RestoredArmStep(active0, timeouts0, token0, active, live, rows0, done, now, t.id, token, activeTimers, timeouts);
    }

    /** `timer/create`: a missing, non-finite or non-positive duration throws and changes
        nothing; otherwise a running row with the trimmed name is stored and scheduled. As the
        row has no target, its handle is armed for 1 ms. */
    method CreateTimer(table: TimerTable, totalSeconds: Option<int>, name: Option<string>, now: int)
      returns (r: Outcome<Timer>)
      requires Valid() && table.Valid()
      modifies this, table
      ensures Valid() && table.Valid()
      ensures r.Thrown? <==> totalSeconds.None? || totalSeconds.value <= 0
      ensures r.Thrown? ==>
                r.message == InvalidDuration
                && table.rows == old(table.rows) && activeTimers == old(activeTimers)
                && timeouts == old(timeouts) && nextToken == old(nextToken) && events == old(events)
      ensures r.Returned? ==>
                r.value == Timer(r.value.id, Trim(OrEmpty(name)), totalSeconds.value, None, Running)
                && r.value.id !in old(table.rows)
                && table.rows == old(table.rows)[r.value.id := r.value]
                && activeTimers == old(activeTimers)[r.value.id := old(nextToken)]
                && timeouts == Release(old(timeouts), old(activeTimers), r.value.id)[old(nextToken) :=
                                 TimerTimeout(now + 1, r.value)]
                && events == old(events)
    {
      var seconds := OrDefault(totalSeconds, 0);
      if totalSeconds.None? || seconds <= 0 {
        return Thrown(InvalidDuration);
      }
      var created := StartTimer(table, Trim(OrEmpty(name)), seconds, now);
      return Returned(created);
    }

    /** `timer/create` past its check: stores a running row and schedules it. */
    method StartTimer(table: TimerTable, name: string, seconds: int, now: int) returns (created: Timer)
      requires Valid() && table.Valid()
      modifies this, table
      ensures Valid() && table.Valid()
      ensures created == Timer(created.id, name, seconds, None, Running)
      ensures created.id !in old(table.rows)
      ensures table.rows == old(table.rows)[created.id := created]
      ensures activeTimers == old(activeTimers)[created.id := old(nextToken)]
      ensures timeouts == Release(old(timeouts), old(activeTimers), created.id)[old(nextToken) :=
                TimerTimeout(now + 1, created)]
      ensures events == old(events)
    {
      created := table.Create(name, seconds, Running);
      assert !Ignored(Some(created)) && !Expired(created, now) && Delay(created, now) == None;
      ScheduleTimer(table, Some(created), now);
    }

    /** `timer/cancel`: a falsy or unknown id returns nothing and changes nothing; otherwise the
        handle is cleared and the row is stored, and returned, as cancelled. */
    method CancelTimer(table: TimerTable, id: int) returns (r: Option<Timer>)
      requires Valid() && table.Valid()
      modifies this, table
      ensures Valid() && table.Valid()
      ensures nextToken == old(nextToken) && events == old(events)
      ensures id == 0 || id !in old(table.rows) ==>
                r.None? && table.rows == old(table.rows)
                && activeTimers == old(activeTimers) && timeouts == old(timeouts)
      ensures id != 0 && id in old(table.rows) ==>
                r == Some(old(table.rows)[id].(status := Cancelled))
                && table.rows == old(table.rows)[id := r.value]
                && activeTimers == old(activeTimers) - {id}
                && timeouts == Release(old(timeouts), old(activeTimers), id)
    {
      if id == 0 {
        return None;
      }
      var list := table.List();
      var found := FindById(list, id);
      if id in table.rows {
        assert table.rows[id] in list;
      }
      if found.None? {
        return None;
      }
      var timer := found.value;
      ClearHandle(id);
      var updated := timer.(status := Cancelled);
      table.Update(updated);
      return Some(updated);
    }

    /** `timer/delete`: a falsy id returns nothing; otherwise the handle is cleared before the
        row is removed. */
    method DeleteTimer(table: TimerTable, id: int) returns (r: Option<bool>)
      requires Valid() && table.Valid()
      modifies this, table
      ensures Valid() && table.Valid()
      ensures nextToken == old(nextToken) && events == old(events)
      ensures id == 0 ==>
                r.None? && table.rows == old(table.rows)
                && activeTimers == old(activeTimers) && timeouts == old(timeouts)
      ensures id != 0 ==>
                r == Some(true) && table.rows == old(table.rows) - {id}
                && activeTimers == old(activeTimers) - {id}
                && timeouts == Release(old(timeouts), old(activeTimers), id)
    {
      if id == 0 {
        return None;
      }
      ClearHandle(id);
      table.Remove(id);
      return Some(true);
    }
  }
}
