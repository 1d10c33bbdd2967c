/**
 * The timer tool of renderer/src/tools/Timer.tsx: the duration entered as hours, minutes and
 * seconds, the remaining-time text, the list order, and the list updates after a create or a
 * delete. The component's list and input fields are the fields of TimerToolState; the IPC
 * results it awaits are parameters.
 */
module TimerTool {
  import opened Js
  import opened Sorting
  import opened ClockText
  import opened Timers

  /** `parseInt(value || '0', 10)`, then NaN or a negative number gives 0, and a number above
      max gives max. */
  function ParseIntSafe(value: string, max: int): (n: int)
    ensures max >= 0 ==> 0 <= n <= max
    ensures var p := ParseInt(if value == "" then "0" else value);
            (p.Some? && 0 <= p.value <= max ==> n == p.value)
            && (p.Some? && p.value > max && max >= 0 ==> n == max)
            && ((p.None? || p.value < 0) && max >= 0 ==> n == 0)
  {
    var p := ParseInt(if value == "" then "0" else value);
    var n := if p.None? || p.value < 0 then 0 else p.value;
    if n > max then max else n
  }

  /** handleStart's duration in seconds: up to 99 hours, 59 minutes and 59 seconds. */
  function StartSeconds(h: string, m: string, s: string): int {
    ParseIntSafe(h, 99) * 3600 + ParseIntSafe(m, 59) * 60 + ParseIntSafe(s, 59)
  }

  /** The duration lies in [0, 359999], is 0 only when every field is 0, and splitting it
      gives back the three clamped fields. */
  lemma StartSecondsRange(h: string, m: string, s: string)
    ensures var total := StartSeconds(h, m, s);
            0 <= total <= 359999
            && (total == 0 <==> ParseIntSafe(h, 99) == 0 && ParseIntSafe(m, 59) == 0 && ParseIntSafe(s, 59) == 0)
            && Split(total) == Hms(ParseIntSafe(h, 99), ParseIntSafe(m, 59), ParseIntSafe(s, 59))
  {
    var hh, mm, ss := ParseIntSafe(h, 99), ParseIntSafe(m, 59), ParseIntSafe(s, 59);
    SplitUnique(StartSeconds(h, m, s), Hms(hh, mm, ss));
  }

  /** formatRemaining. A running timer without a target computes with NaN and shows NaN in
      every field. */
  function FormatRemaining(t: Timer, now: int): string {
    if t.status == Cancelled then "Abgebrochen"
    else if t.status == Done then "Fertig"
    else if t.targetAt.None? then "NaN:NaN:NaN"
    else if t.targetAt.value - now <= 0 then "Fertig"
    else Long((t.targetAt.value - now) / 1000)
  }

  /** The text is 'Abgebrochen' exactly for a cancelled timer and 'Fertig' exactly for a done
      timer or one whose target has passed. */
  lemma FormatRemainingWords(t: Timer, now: int)
    ensures FormatRemaining(t, now) == "Abgebrochen" <==> t.status == Cancelled
    ensures FormatRemaining(t, now) == "Fertig" <==>
              t.status != Cancelled && (t.status == Done || (t.targetAt.Some? && t.targetAt.value <= now))
  {
    var r := FormatRemaining(t, now);
    if t.status == Cancelled {
      assert r == "Abgebrochen";
      assert |r| != |"Fertig"|;
    } else if t.status == Done {
      assert r == "Fertig";
      assert |r| != |"Abgebrochen"|;
    } else if t.targetAt.None? {
      assert r == "NaN:NaN:NaN";
      assert r[0] != "Abgebrochen"[0] && |r| != |"Fertig"|;
    } else if t.targetAt.value - now <= 0 {
      assert r == "Fertig";
      assert |r| != |"Abgebrochen"|;
    } else {
      var total := (t.targetAt.value - now) / 1000;
      assert r == Long(total);
      NotAStatusWord(total);
    }
  }

  /** Before the target, the three fields of the text read back as the whole seconds left. */
  lemma FormatRemainingReadsBack(t: Timer, now: int)
    requires t.status == Running && t.targetAt.Some? && t.targetAt.value > now
    ensures ReadsAsLong(FormatRemaining(t, now), (t.targetAt.value - now) / 1000)
  {
    var total := (t.targetAt.value - now) / 1000;
    assert FormatRemaining(t, now) == Long(total);
    LongReadsBack(total);
  }

  /** The comparator of sortedTimers: running timers first, then by descending id. */
  function TimerOrder(t: Timer): Rank {
    Rank(if t.status == Running then 0 else 1, -t.id)
  }

  /** sortedTimers: the list in that order, as a stable sort leaves it. */
  function SortedTimers(timers: seq<Timer>): (r: seq<Timer>)
    ensures multiset(r) == multiset(timers)
    ensures forall i, j :: 0 <= i < j < |r| && r[j].status == Running ==> r[i].status == Running
    ensures forall i, j :: 0 <= i < j < |r| && (r[i].status == Running <==> r[j].status == Running) ==>
              r[i].id >= r[j].id
  {
    var r := SortBy(timers, TimerOrder);
    assert forall i, j :: 0 <= i < j < |r| ==> Le(TimerOrder(r[i]), TimerOrder(r[j]));
    r
  }

  /** The filter predicate of handleDelete: keep the timers with another id. */
  function OtherId(id: int): Timer -> bool {
    (t: Timer) => t.id != id
  }

  /** `prev.filter(t => t.id !== id)`: exactly the timers with another id stay. */
  function WithoutTimer(timers: seq<Timer>, id: int): (r: seq<Timer>)
    ensures |r| <= |timers|
    ensures forall t :: t in r <==> t in timers && t.id != id
  {
    Filter(timers, OtherId(id))
  }

  /** Removing the one timer with that id leaves the others in their order. */
  lemma {:induction false} WithoutOneTimer(timers: seq<Timer>, id: int, k: int)
    requires 0 <= k < |timers| && timers[k].id == id
    requires forall i :: 0 <= i < |timers| && i != k ==> timers[i].id != id
    ensures WithoutTimer(timers, id) == timers[..k] + timers[k + 1..]
  {
    FilterDropsOne(timers, OtherId(id), k);
  }

  /** Deleting an id no timer has leaves the list as it was. */
  lemma {:induction false} WithoutNone(timers: seq<Timer>, id: int)
    requires forall i :: 0 <= i < |timers| ==> timers[i].id != id
    ensures WithoutTimer(timers, id) == timers
  {
    FilterKeepsAll(timers, OtherId(id));
  }

  /** What handleStart asks `timer/create` for. */
  datatype CreateRequest = CreateRequest(name: string, totalSeconds: int)

  class TimerToolState {
    var timers: seq<Timer>
    var name: string
    var h: string
    var m: string
    var s: string

    constructor ()
      ensures timers == [] && name == "" && h == "0" && m == "0" && s == "0"
    {
      timers := [];
      name := "";
      h, m, s := "0", "0", "0";
    }

    /** handleStart: a zero duration sends nothing; otherwise `timer/create` is asked for the
        name and duration, its result `created` is put first, and the inputs are reset. */
    method HandleStart(created: Timer) returns (request: Option<CreateRequest>)
      modifies this
      ensures StartSeconds(old(h), old(m), old(s)) <= 0 ==>
                request.None? && timers == old(timers) && name == old(name)
                && h == old(h) && m == old(m) && s == old(s)
      ensures StartSeconds(old(h), old(m), old(s)) > 0 ==>
                request == Some(CreateRequest(old(name), StartSeconds(old(h), old(m), old(s))))
                && timers == [created] + old(timers)
                && name == "" && h == "0" && m == "0" && s == "0"
    {
      var totalSeconds := StartSeconds(h, m, s);
      if totalSeconds <= 0 {
        return None;
      }
      request := Some(CreateRequest(name, totalSeconds));
      timers := [created] + timers;
      ClearInputs();
    }

    /** The input fields after a start: empty name, every duration field '0'. */
    method ClearInputs()
      modifies this
      ensures name == "" && h == "0" && m == "0" && s == "0" && timers == old(timers)
    {
      name := "";
      h, m, s := "0", "0", "0";
    }

    /** handleDelete: a running timer is deleted only once confirmed; the list then loses
        every entry with that id. Returns whether `timer/delete` was sent. */
    method HandleDelete(timer: Timer, confirmed: bool) returns (deleted: bool)
      modifies this
      ensures deleted <==> timer.status != Running || confirmed
      ensures deleted ==> timers == WithoutTimer(old(timers), timer.id)
      ensures !deleted ==> timers == old(timers)
      ensures name == old(name) && h == old(h) && m == old(m) && s == old(s)
    {
      if timer.status == Running && !confirmed {
        return false;
      }
      timers := WithoutTimer(timers, timer.id);
      return true;
    }
  }
}
