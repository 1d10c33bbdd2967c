/**
 * The reminder scheduler of electron/scheduler.js.
 *
 * The module keeps a map `pending` from reminder id to the handle of a one-shot timeout and a
 * periodic sweep installed once. Time is the explicit `now` each operation receives. The event
 * loop's live one-shot timeouts are the map `timeouts` from handle to what the timeout will do;
 * a handle stays in `pending` after its timeout has run, because nothing deletes it there. The
 * event loop runs a due timeout through OnTimeout and the sweep through Tick. The rows handed to the
 * sweep's `onFire` callback are appended to `fires`.
 */
module Scheduler {
  import opened Js
  import opened Db

  /** The period of the sweep, in milliseconds. */
  const SweepPeriodMs: int := 500

  /** A live one-shot timeout: when the event loop runs it, and the row it captured. */
  datatype Timeout = Timeout(due: int, reminder: Reminder)

  /** `Math.max(0, fire_at - now)`. */
  function ReminderDelay(fireAt: int, now: int): (d: int)
    ensures d >= 0
    ensures fireAt > now ==> d == fireAt - now
    ensures fireAt <= now ==> d == 0
  {
    if fireAt - now > 0 then fireAt - now else 0
  }

  /** The sweep's filter: still scheduled and its fire time reached. */
  predicate IsDue(r: Reminder, now: int) {
    r.status == Scheduled && r.fireAt <= now
  }

  /** A row as the sweep and the timeouts write it back. */
  function AsFired(r: Reminder): Reminder {
    r.(status := Fired)
  }

  /** The ids of the rows the sweep selects at `now`. */
  ghost function DueIds(rows: map<int, Reminder>, now: int): set<int> {
    set id | id in rows && IsDue(rows[id], now)
  }

  /** The live timeouts left after clearing the handles of the given reminder ids. */
  function DropIds(timeouts: map<nat, Timeout>, ids: set<int>): (r: map<nat, Timeout>)
    ensures forall t :: t in r <==> t in timeouts && timeouts[t].reminder.id !in ids
    ensures forall t :: t in r ==> r[t] == timeouts[t]
  {
    map t | t in timeouts && timeouts[t].reminder.id !in ids :: timeouts[t]
  }

  lemma DropIdsStep(timeouts: map<nat, Timeout>, ids: set<int>, id: int)
    ensures DropIds(DropIds(timeouts, ids), {id}) == DropIds(timeouts, ids + {id})
  {
    var a, b := DropIds(DropIds(timeouts, ids), {id}), DropIds(timeouts, ids + {id});
    forall t ensures t in a <==> t in b {}
    assert a.Keys == b.Keys;
    forall t | t in a ensures a[t] == b[t] {}
  }

  lemma WithStatusStep(rows: map<int, Reminder>, ids: set<int>, id: int, s: ReminderStatus)
    requires id in rows
    ensures WithStatus(rows, ids, s)[id := rows[id].(status := s)] == WithStatus(rows, ids + {id}, s)
  {
    var a, b := WithStatus(rows, ids, s)[id := rows[id].(status := s)], WithStatus(rows, ids + {id}, s);
    forall k ensures k in a <==> k in b {}
    assert a.Keys == b.Keys;
    forall k | k in a ensures a[k] == b[k] {}
  }

  lemma PendingStep(pending: map<int, nat>, ids: set<int>, id: int)
    ensures (pending - ids) - {id} == pending - (ids + {id})
  {
    var a, b := (pending - ids) - {id}, pending - (ids + {id});
    forall k ensures k in a <==> k in b {}
    assert a.Keys == b.Keys;
    forall k | k in a ensures a[k] == b[k] {}
  }


  /** The loop of the sweep marks one more listed id; with distinct ids, exactly the first i + 1
      listed ids are then marked. */
  lemma SweptPrefixStep(list: seq<Reminder>, i: nat, done: set<int>)
    requires i < |list|
    requires forall a, b :: 0 <= a < b < |list| ==> list[a].id != list[b].id
    requires forall j :: 0 <= j < |list| ==> (list[j].id in done <==> j < i)
    ensures forall j :: 0 <= j < |list| ==> (list[j].id in done + {list[i].id} <==> j < i + 1)
    ensures list[..i + 1] == list[..i] + [list[i]]
  {
  }

  class ReminderScheduler {
    var tickInstalled: bool
    var pending: map<int, nat>
    var timeouts: map<nat, Timeout>
    var nextToken: nat
    var fires: seq<Reminder>

    /** Handles are issued in increasing order, and every live timeout is the one `pending`
        holds for the id of the reminder it captured; so there is at most one per id. */
    ghost predicate Valid()
      reads this
    {
      (forall t :: t in timeouts ==> t < nextToken)
      && (forall id :: id in pending ==> pending[id] < nextToken)
      && (forall a, b :: a in pending && b in pending && pending[a] == pending[b] ==> a == b)
      && (forall t :: t in timeouts ==>
            timeouts[t].reminder.id in pending && pending[timeouts[t].reminder.id] == t)
    }

    /** Every live timeout holds the row as stored, and that row is still scheduled: so a
        timeout that runs writes back exactly the stored row with status fired. */
    ghost predicate Coherent(repo: RemindersRepo)
      reads this, repo
    {
      forall t :: t in timeouts ==>
        var r := timeouts[t].reminder;
        r.id in repo.rows && repo.rows[r.id] == r && r.status == Scheduled
    }

    /** At most one live timeout per reminder id. */
    lemma OneTimeoutPerId(t1: nat, t2: nat)
      requires Valid() && t1 in timeouts && t2 in timeouts
      requires timeouts[t1].reminder.id == timeouts[t2].reminder.id
      ensures t1 == t2
    {
    }

    constructor ()
      ensures Valid() && !tickInstalled
      ensures pending == map[] && timeouts == map[] && fires == []
    {
      tickInstalled := false;
      pending := map[];
      timeouts := map[];
      nextToken := 0;
      fires := [];
    }

    /** startScheduler: installs the sweep, unless it is installed already. */
    method Start()
      modifies this
      ensures tickInstalled
      ensures pending == old(pending) && timeouts == old(timeouts)
      ensures nextToken == old(nextToken) && fires == old(fires)
    {
      if !tickInstalled {
        tickInstalled := true;
      }
    }

    /** clearPending: clears and forgets the handle of id, if there is one. */
    method ClearPending(id: int)
      requires Valid()
      modifies this
      ensures Valid()
      ensures pending == old(pending) - {id}
      ensures timeouts == DropIds(old(timeouts), {id})
      ensures tickInstalled == old(tickInstalled) && nextToken == old(nextToken) && fires == old(fires)
    {
      var after := DropIds(timeouts, {id});
      if id in pending {
        timeouts := timeouts - {pending[id]};
        pending := pending - {id};
      } else {
        pending := pending - {id};
      }
      forall t ensures t in timeouts <==> t in after {}
      assert timeouts.Keys == after.Keys;
      forall t | t in timeouts ensures timeouts[t] == after[t] {}
      assert timeouts == after;
    }

    /** scheduleReminder: replaces any handle of r.id by a fresh timeout that writes r back as
        fired. Node arms a delay of 0, or of more than 2^31 - 1 ms, as 1 ms. */
    method ScheduleReminder(r: Reminder, now: int)
      requires Valid()
      modifies this
      ensures Valid()
      ensures nextToken == old(nextToken) + 1
      ensures pending == old(pending)[r.id := old(nextToken)]
      ensures old(nextToken) !in old(timeouts)
      ensures timeouts == DropIds(old(timeouts), {r.id})[old(nextToken) :=
                            Timeout(now + ArmDelay(Some(ReminderDelay(r.fireAt, now))), r)]
      ensures tickInstalled == old(tickInstalled) && fires == old(fires)
    {
      ClearPending(r.id);
      var delay := ReminderDelay(r.fireAt, now);
      var token := nextToken;
      nextToken := nextToken + 1;
      timeouts := timeouts[token := Timeout(now + ArmDelay(Some(delay)), r)];
      pending := pending[r.id := token];
    }

    /** cancelReminder. */
    method CancelReminder(id: int)
      requires Valid()
      modifies this
      ensures Valid()
      ensures pending == old(pending) - {id}
      ensures timeouts == DropIds(old(timeouts), {id})
      ensures tickInstalled == old(tickInstalled) && nextToken == old(nextToken) && fires == old(fires)
    {
      ClearPending(id);
    }

    /** The event loop runs the due timeout `token`: it writes its captured row back with status
        fired. It does not call onFire, and it leaves its handle in `pending`. */
    method OnTimeout(repo: RemindersRepo, token: nat, now: int)
      requires Valid() && repo.Valid()
      requires token in timeouts && timeouts[token].due <= now
      modifies this, repo
      ensures Valid() && repo.Valid()
      ensures timeouts == old(timeouts) - {token}
      ensures pending == old(pending) && fires == old(fires)
      ensures tickInstalled == old(tickInstalled) && nextToken == old(nextToken)
      ensures var r := old(timeouts)[token].reminder;
              repo.rows == if r.id in old(repo.rows) then old(repo.rows)[r.id := AsFired(r)] else old(repo.rows)
      ensures old(Coherent(repo)) ==> Coherent(repo)
      ensures old(Coherent(repo)) ==>
                var id := old(timeouts)[token].reminder.id;
                repo.rows == WithStatus(old(repo.rows), {id}, Fired)
    {
      var r := timeouts[token].reminder;
      timeouts := timeouts - {token};
      repo.Update(r.id, AsFired(r));
      if old(Coherent(repo)) {
        WithStatusStep(old(repo.rows), {}, r.id, Fired);
        assert WithStatus(old(repo.rows), {}, Fired) == old(repo.rows) by {
          var w := WithStatus(old(repo.rows), {}, Fired);
          forall k ensures k in w <==> k in old(repo.rows) {}
          assert w.Keys == old(repo.rows).Keys;
          forall k | k in w ensures w[k] == old(repo.rows)[k] {}
        }
        assert {} + {r.id} == {r.id};
      }
    }

    /** One step of the sweep: writes r back as fired, hands it to onFire, clears its handle. */
    method SweepOne(repo: RemindersRepo, r: Reminder)
      requires Valid() && repo.Valid()
      requires r.id in repo.rows
      modifies this, repo
      ensures Valid() && repo.Valid()
      ensures repo.rows == old(repo.rows)[r.id := AsFired(r)]
      ensures fires == old(fires) + [r]
      ensures pending == old(pending) - {r.id}
      ensures timeouts == DropIds(old(timeouts), {r.id})
      ensures tickInstalled == old(tickInstalled) && nextToken == old(nextToken)
      ensures old(Coherent(repo)) ==> Coherent(repo)
    {
      repo.Update(r.id, AsFired(r));
      fires := fires + [r];
      ClearPending(r.id);
    }

    /** SweepOne as one turn of the sweep's loop: the ids swept so far grow by r's id. */
    method SweepNext(repo: RemindersRepo, ghost rows0: map<int, Reminder>, ghost pending0: map<int, nat>,
                     ghost timeouts0: map<nat, Timeout>, ghost done: set<int>, r: Reminder)
      requires Valid() && repo.Valid()
      requires r.id in rows0 && rows0[r.id] == r
      requires repo.rows == WithStatus(rows0, done, Fired)
      requires pending == pending0 - done && timeouts == DropIds(timeouts0, done)
      modifies this, repo
      ensures Valid() && repo.Valid()
      ensures tickInstalled == old(tickInstalled) && nextToken == old(nextToken)
      ensures repo.rows == WithStatus(rows0, done + {r.id}, Fired)
      ensures fires == old(fires) + [r]
      ensures pending == pending0 - (done + {r.id})
      ensures timeouts == DropIds(timeouts0, done + {r.id})
      ensures old(Coherent(repo)) ==> Coherent(repo)
    {
      SweepOne(repo, r);
      WithStatusStep(rows0, done, r.id, Fired);
      DropIdsStep(timeouts0, done, r.id);
      PendingStep(pending0, done, r.id);
    }

    /** The `for` loop of the sweep over the rows the filter selected. */
    method SweepList(repo: RemindersRepo, list: seq<Reminder>, now: int) returns (ghost done: set<int>)
      requires Valid() && repo.Valid()
      requires forall j :: 0 <= j < |list| ==> list[j].id in repo.rows && repo.rows[list[j].id] == list[j]
      requires forall j :: 0 <= j < |list| ==> IsDue(list[j], now)
      requires forall a, b :: 0 <= a < b < |list| ==> list[a].id != list[b].id
      modifies this, repo
      ensures Valid() && repo.Valid()
      ensures tickInstalled == old(tickInstalled) && nextToken == old(nextToken)
      ensures forall j :: 0 <= j < |list| ==> list[j].id in done
      ensures forall id :: id in done ==> id in old(repo.rows) && IsDue(old(repo.rows)[id], now)
      ensures repo.rows == WithStatus(old(repo.rows), done, Fired)
      ensures fires == old(fires) + list
      ensures pending == old(pending) - done
      ensures timeouts == DropIds(old(timeouts), done)
      ensures old(Coherent(repo)) ==> Coherent(repo)
    {
      ghost var rows0 := repo.rows;
      done := {};
      WithStatusEmpty(rows0);
      DropIdsEmpty(timeouts);
      assert pending == pending - {};
      var i := 0;
      while i < |list|
        invariant 0 <= i <= |list|
        invariant Valid() && repo.Valid()
        invariant tickInstalled == old(tickInstalled) && nextToken == old(nextToken)
        invariant forall j :: 0 <= j < |list| ==> (list[j].id in done <==> j < i)
        invariant forall id :: id in done ==> id in rows0 && IsDue(rows0[id], now)
        invariant repo.rows == WithStatus(rows0, done, Fired)
        invariant fires == old(fires) + list[..i]
        invariant pending == old(pending) - done
        invariant timeouts == DropIds(old(timeouts), done)
        invariant old(Coherent(repo)) ==> Coherent(repo)
      {
        var r := list[i];
        SweepNext(repo, rows0, old(pending), old(timeouts), done, r);
        SweptPrefixStep(list, i, done);
        done := done + {r.id};
        i := i + 1;
      }
      assert list[..i] == list;
    }

    /** The sweep: every row that is scheduled and due is written back as fired, handed to
        onFire once and has its pending handle cleared. */
    method Tick(repo: RemindersRepo, now: int)
      requires tickInstalled && Valid() && repo.Valid()
      modifies this, repo
      ensures Valid() && repo.Valid()
      ensures tickInstalled && nextToken == old(nextToken)
      ensures repo.rows == WithStatus(old(repo.rows), DueIds(old(repo.rows), now), Fired)
      ensures |fires| >= |old(fires)| && fires[..|old(fires)|] == old(fires)
      ensures FiredOnce(old(repo.rows), now, fires[|old(fires)|..])
      ensures pending == old(pending) - DueIds(old(repo.rows), now)
      ensures timeouts == DropIds(old(timeouts), DueIds(old(repo.rows), now))
      ensures old(Coherent(repo)) ==> Coherent(repo)
    {
      var all := repo.GetAll();
      ghost var rows0 := repo.rows;
      ghost var fires0 := fires;
      var list := Filter(all, r => IsDue(r, now));
      SelectedOnce(rows0, all, now);
      ghost var done := SweepList(repo, list, now);
      assert fires[|fires0|..] == list;
      forall id | id in DueIds(rows0, now)
        ensures id in done
      {
        assert rows0[id] in list;
      }
      assert done == DueIds(rows0, now) by {
        forall id ensures id in done <==> id in DueIds(rows0, now) {}
      }
    }

    /** rescheduleAll: clears every pending handle; then every scheduled row due in the future
        gets one fresh timeout and every scheduled row already due is written back as fired,
        without onFire. Other rows stay as they are. */
    method RescheduleAll(repo: RemindersRepo, now: int)
      requires Valid() && repo.Valid()
      modifies this, repo
      ensures Valid() && repo.Valid() && Coherent(repo)
      ensures fires == old(fires) && tickInstalled == old(tickInstalled)
      ensures repo.rows == WithStatus(old(repo.rows), DueIds(old(repo.rows), now), Fired)
      ensures forall id :: id in pending <==>
                id in old(repo.rows) && old(repo.rows)[id].status == Scheduled && old(repo.rows)[id].fireAt > now
      ensures Armed(pending, timeouts, old(repo.rows), now)
    {
      ClearAll();
      var all := repo.GetAll();
      ghost var rows0 := repo.rows;
      var list := Filter(all, (r: Reminder) => r.status == Scheduled);
      FilterNoRepeats(all, (r: Reminder) => r.status == Scheduled);
      assert forall a, b :: 0 <= a < b < |list| ==> list[a].id != list[b].id by {
        forall a, b | 0 <= a < b < |list| ensures list[a].id != list[b].id {
          assert list[a] != list[b];
        }
      }
      ghost var done, firedIds := RescheduleList(repo, list, now);
      forall id | id in rows0 && rows0[id].status == Scheduled
        ensures id in done
      {
        assert rows0[id] in all;
      }
      assert firedIds == DueIds(rows0, now) by {
        forall id ensures id in firedIds <==> id in DueIds(rows0, now) {}
      }
    }

    /** The first step of rescheduleAll: clears the timeout of every pending handle and
        empties `pending`; as every live timeout is held in `pending`, none is left. */
    method ClearAll()
      requires Valid()
      modifies this
      ensures Valid() && pending == map[] && forall t :: t !in timeouts
      ensures fires == old(fires) && tickInstalled == old(tickInstalled) && nextToken == old(nextToken)
    {
      forall t | t in timeouts
        ensures t in pending.Values
      {
        assert pending[timeouts[t].reminder.id] == t;
      }
      timeouts := map t | t in timeouts && t !in pending.Values :: timeouts[t];
      pending := map[];
    }

    /** The `for` loop of rescheduleAll over the scheduled rows, with no handle left. */
    method RescheduleList(repo: RemindersRepo, list: seq<Reminder>, now: int)
      returns (ghost done: set<int>, ghost firedIds: set<int>)
      requires Valid() && repo.Valid() && pending == map[]
      requires forall t :: t !in timeouts
      requires forall j :: 0 <= j < |list| ==> list[j].id in repo.rows && repo.rows[list[j].id] == list[j]
      requires forall j :: 0 <= j < |list| ==> list[j].status == Scheduled
      requires forall a, b :: 0 <= a < b < |list| ==> list[a].id != list[b].id
      modifies this, repo
      ensures Valid() && repo.Valid() && Coherent(repo)
      ensures fires == old(fires) && tickInstalled == old(tickInstalled)
      ensures forall j :: 0 <= j < |list| ==> list[j].id in done
      ensures forall id :: id in done ==> id in old(repo.rows) && old(repo.rows)[id].status == Scheduled
      ensures forall id :: id in firedIds <==> id in done && old(repo.rows)[id].fireAt <= now
      ensures repo.rows == WithStatus(old(repo.rows), firedIds, Fired)
      ensures forall id :: id in pending <==> id in done && old(repo.rows)[id].fireAt > now
      ensures Armed(pending, timeouts, old(repo.rows), now)
    {
      ghost var rows0 := repo.rows;
      done, firedIds := {}, {};
      WithStatusEmpty(rows0);
      var i := 0;
      while i < |list|
        invariant 0 <= i <= |list|
        invariant Valid() && repo.Valid() && Coherent(repo)
        invariant fires == old(fires) && tickInstalled == old(tickInstalled)
        invariant forall j :: 0 <= j < |list| ==> (list[j].id in done <==> j < i)
        invariant forall id :: id in done ==> id in rows0 && rows0[id].status == Scheduled
        invariant forall id :: id in firedIds <==> id in done && rows0[id].fireAt <= now
        invariant repo.rows == WithStatus(rows0, firedIds, Fired)
        invariant forall id :: id in pending <==> id in done && rows0[id].fireAt > now
        invariant Armed(pending, timeouts, rows0, now)
      {
        var r := list[i];
        ghost var pending0, timeouts0, token := pending, timeouts, nextToken;
        RescheduleOne(repo, r, now);
        if r.fireAt > now {
          ArmedStep(pending0, timeouts0, rows0, now, r, token);
        }
        if r.fireAt <= now {
          WithStatusStep(rows0, firedIds, r.id, Fired);
          firedIds := firedIds + {r.id};
        }
        done := done + {r.id};
        i := i + 1;
      }
    }

    /** One step of rescheduleAll for a scheduled row r that has no handle: a future row gets a
        timeout, a row already due is written back as fired. */
    method RescheduleOne(repo: RemindersRepo, r: Reminder, now: int)
      requires Valid() && repo.Valid() && Coherent(repo)
      requires r.id in repo.rows && repo.rows[r.id] == r && r.status == Scheduled && r.id !in pending
      modifies this, repo
      ensures Valid() && repo.Valid() && Coherent(repo)
      ensures fires == old(fires) && tickInstalled == old(tickInstalled)
      ensures r.fireAt > now ==>
                repo.rows == old(repo.rows)
                && pending == old(pending)[r.id := old(nextToken)]
                && old(nextToken) !in old(timeouts)
                && timeouts == old(timeouts)[old(nextToken) := Timeout(now + ArmDelay(Some(r.fireAt - now)), r)]
      ensures r.fireAt <= now ==>
                repo.rows == old(repo.rows)[r.id := AsFired(r)]
                && pending == old(pending) && timeouts == old(timeouts)
    {
      if r.fireAt > now {
        DropIdsNone(timeouts, r.id);
        ScheduleReminder(r, now);
      } else {
        repo.Update(r.id, AsFired(r));
      }
    }

    /** Clearing the handles of an id that has none leaves the live timeouts as they are. */
    lemma DropIdsNone(timeouts: map<nat, Timeout>, id: int)
      requires Valid() && timeouts == this.timeouts && id !in pending
      ensures DropIds(timeouts, {id}) == timeouts
    {
      var d := DropIds(timeouts, {id});
      forall t ensures t in d <==> t in timeouts {}
      assert d.Keys == timeouts.Keys;
      forall t | t in d ensures d[t] == timeouts[t] {}
    }
  }

  /** Each pending id has a live timeout that will write back its row of `rows`, due at the
      delay Node arms for its remaining time. */
  ghost predicate Armed(pending: map<int, nat>, timeouts: map<nat, Timeout>,
                        rows: map<int, Reminder>, now: int)
  {
    forall id :: id in pending ==>
      id in rows && pending[id] in timeouts
      && timeouts[pending[id]] == Timeout(now + ArmDelay(Some(rows[id].fireAt - now)), rows[id])
  }

  lemma ArmedStep(pending: map<int, nat>, timeouts: map<nat, Timeout>, rows: map<int, Reminder>,
                  now: int, r: Reminder, token: nat)
    requires Armed(pending, timeouts, rows, now)
    requires forall id :: id in pending ==> pending[id] < token
    requires r.id in rows && rows[r.id] == r && r.fireAt > now
    ensures Armed(pending[r.id := token],
                  timeouts[token := Timeout(now + ArmDelay(Some(r.fireAt - now)), r)], rows, now)
  {
  }

  /** `fired` holds each row the sweep selects from `rows` at `now` exactly once, as stored. */
  ghost predicate FiredOnce(rows: map<int, Reminder>, now: int, fired: seq<Reminder>) {
    (forall i :: 0 <= i < |fired| ==>
       fired[i].id in rows && rows[fired[i].id] == fired[i] && IsDue(fired[i], now))
    && (forall id :: id in DueIds(rows, now) ==> rows[id] in fired)
    && (forall i, j :: 0 <= i < j < |fired| ==> fired[i].id != fired[j].id)
  }

  /** The sweep's filter over the rows of getAll selects each due row once. */
  lemma SelectedOnce(rows: map<int, Reminder>, all: seq<Reminder>, now: int)
    requires forall id :: id in rows ==> rows[id] in all
    requires forall i :: 0 <= i < |all| ==> all[i].id in rows && rows[all[i].id] == all[i]
    requires forall i, j :: 0 <= i < j < |all| ==> all[i].id != all[j].id
    ensures FiredOnce(rows, now, Filter(all, r => IsDue(r, now)))
  {
    var list := Filter(all, r => IsDue(r, now));
    forall i, j | 0 <= i < j < |all| ensures all[i] != all[j] {}
    FilterNoRepeats(all, r => IsDue(r, now));
    forall i | 0 <= i < |list|
      ensures list[i].id in rows && rows[list[i].id] == list[i] && IsDue(list[i], now)
    {
      var k :| 0 <= k < |all| && all[k] == list[i];
    }
    forall i, j | 0 <= i < j < |list| ensures list[i].id != list[j].id {
      assert list[i] != list[j];
    }
  }

  /** A reminder its own timeout has written back as fired is not due for any later sweep, so
      it never reaches onFire. */
  lemma TimeoutFiredNotSwept(rows: map<int, Reminder>, id: int, now: int)
    requires id in rows
    ensures id in WithStatus(rows, {id}, Fired) && id !in DueIds(WithStatus(rows, {id}, Fired), now)
  {
  }

  lemma WithStatusEmpty(rows: map<int, Reminder>)
    ensures WithStatus(rows, {}, Fired) == rows
  {
    var w := WithStatus(rows, {}, Fired);
    forall k ensures k in w <==> k in rows {}
    assert w.Keys == rows.Keys;
    forall k | k in w ensures w[k] == rows[k] {}
  }

  lemma DropIdsEmpty(timeouts: map<nat, Timeout>)
    ensures DropIds(timeouts, {}) == timeouts
  {
    var d := DropIds(timeouts, {});
    forall t ensures t in d <==> t in timeouts {}
    assert d.Keys == timeouts.Keys;
    forall t | t in d ensures d[t] == timeouts[t] {}
  }
}
