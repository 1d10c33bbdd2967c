/**
 * The `reminder/*` IPC handlers of electron/main.js: each pairs a store call with the matching
 * scheduler call. Every one of them keeps the scheduler coherent with the store (each live
 * timeout holds its row as stored, still scheduled), which is what makes a timeout's write-back
 * a change of status only.
 */
module ReminderHandlers {
  import opened Js
  import opened Db
  import opened Scheduler

  /** `reminder/create`: stores the reminder as scheduled and arms its timeout. */
  method CreateReminder(repo: RemindersRepo, sched: ReminderScheduler, input: ReminderInput, now: int)
    returns (created: Reminder)
    requires repo.Valid() && sched.Valid()
    modifies repo, sched
    ensures repo.Valid() && sched.Valid()
    ensures created.id !in old(repo.rows) && created.status == Scheduled
    ensures repo.rows == old(repo.rows)[created.id := created]
    ensures sched.pending == old(sched.pending)[created.id := old(sched.nextToken)]
    ensures sched.timeouts == DropIds(old(sched.timeouts), {created.id})[old(sched.nextToken) :=
              Timeout(now + ArmDelay(Some(ReminderDelay(created.fireAt, now))), created)]
    ensures sched.fires == old(sched.fires)
    ensures old(sched.Coherent(repo)) ==> sched.Coherent(repo)
  {
    created := repo.Create(input, now);
    sched.ScheduleReminder(created, now);
  }

  /** `reminder/cancel`: clears the handle, then marks the row canceled. */
  method CancelReminder(repo: RemindersRepo, sched: ReminderScheduler, id: int) returns (ok: bool)
    requires repo.Valid() && sched.Valid()
    modifies repo, sched
    ensures repo.Valid() && sched.Valid() && ok
    ensures repo.rows == WithStatus(old(repo.rows), {id}, Canceled)
    ensures sched.pending == old(sched.pending) - {id}
    ensures sched.timeouts == DropIds(old(sched.timeouts), {id})
    ensures sched.fires == old(sched.fires)
    ensures old(sched.Coherent(repo)) ==> sched.Coherent(repo)
  {
    sched.CancelReminder(id);
    ok := repo.Cancel(id);
  }

  /** `reminder/delete`: clears the handle before removing the row. */
  method DeleteReminder(repo: RemindersRepo, sched: ReminderScheduler, id: int) returns (ok: bool)
    requires repo.Valid() && sched.Valid()
    modifies repo, sched
    ensures repo.Valid() && sched.Valid() && ok
    ensures repo.rows == old(repo.rows) - {id}
    ensures sched.pending == old(sched.pending) - {id}
    ensures sched.timeouts == DropIds(old(sched.timeouts), {id})
    ensures sched.fires == old(sched.fires)
    ensures old(sched.Coherent(repo)) ==> sched.Coherent(repo)
  {
    sched.CancelReminder(id);
    ok := repo.Remove(id);
  }
}
