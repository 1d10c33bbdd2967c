/**
 * The reminder tool of renderer/src/tools/Reminder.tsx: the remaining-time text, the list
 * order, the time-wheel step, the future check on a new fire time, and the list updates made
 * by a create, a delete and a `scheduler/reminderFired` message. The component's list and
 * message field are the fields of ReminderToolState; the clock, the parsed date and time
 * inputs and the IPC results are parameters.
 */
module ReminderTool {
  import opened Js
  import opened Sorting
  import opened ClockText
  import opened Db

  /** formatRemaining: a status word, or the whole seconds left as `MM:SS` below one hour and
      `HH:MM:SS` from one hour on. */
  function FormatRemaining(r: Reminder, now: int): string {
    if r.status == Canceled then "Abgebrochen"
    else if r.status == Fired then "Fertig"
    else if r.fireAt - now <= 0 then "Fertig"
    else
      var total := (r.fireAt - now) / 1000;
      if Split(total).h > 0 then Long(total) else Short(total)
  }

  /** The text is 'Abgebrochen' exactly for a canceled reminder and 'Fertig' exactly for a fired
      one or one whose time has come. */
  lemma FormatRemainingWords(r: Reminder, now: int)
    ensures FormatRemaining(r, now) == "Abgebrochen" <==> r.status == Canceled
    ensures FormatRemaining(r, now) == "Fertig" <==>
              r.status == Fired || (r.status == Scheduled && r.fireAt <= now)
  {
    var t := FormatRemaining(r, now);
    if r.status == Canceled {
      assert t == "Abgebrochen";
      assert |t| != |"Fertig"|;
    } else if r.status == Fired || r.fireAt - now <= 0 {
      assert t == "Fertig";
      assert |t| != |"Abgebrochen"|;
    } else {
      var total := (r.fireAt - now) / 1000;
      NotAStatusWord(total);
      if Split(total).h > 0 {
        assert t == Long(total);
      } else {
        assert t == Short(total);
      }
    }
  }

  /** Below one hour the two fields of the text read back as the whole seconds left. */
  lemma FormatRemainingShort(r: Reminder, now: int)
    requires r.status == Scheduled && r.fireAt > now && r.fireAt - now < 3600000
    ensures ReadsAsShort(FormatRemaining(r, now), (r.fireAt - now) / 1000)
  {
    var total := (r.fireAt - now) / 1000;
    assert Split(total).h == 0;
    assert FormatRemaining(r, now) == Short(total);
    ShortReadsBack(total);
  }

  /** From one hour on the three fields of the text read back as the whole seconds left. */
  lemma FormatRemainingLong(r: Reminder, now: int)
    requires r.status == Scheduled && r.fireAt - now >= 3600000
    ensures ReadsAsLong(FormatRemaining(r, now), (r.fireAt - now) / 1000)
  {
    var total := (r.fireAt - now) / 1000;
    assert Split(total).h > 0;
    assert FormatRemaining(r, now) == Long(total);
    LongReadsBack(total);
  }

  /** The comparator of sortedReminders: scheduled reminders first, then by ascending fire time. */
  function ReminderOrder(r: Reminder): Rank {
    Rank(if r.status == Scheduled then 0 else 1, r.fireAt)
  }

  /** sortedReminders: the list in that order, as a stable sort leaves it. */
  function SortedReminders(reminders: seq<Reminder>): (r: seq<Reminder>)
    ensures multiset(r) == multiset(reminders)
    ensures forall i, j :: 0 <= i < j < |r| && r[j].status == Scheduled ==> r[i].status == Scheduled
    ensures forall i, j :: 0 <= i < j < |r| && (r[i].status == Scheduled <==> r[j].status == Scheduled) ==>
              r[i].fireAt <= r[j].fireAt
  {
    var r := SortBy(reminders, ReminderOrder);
    assert forall i, j :: 0 <= i < j < |r| ==> Le(ReminderOrder(r[i]), ReminderOrder(r[j]));
    r
  }

  /** The onReminder update: the entry with the fired reminder's id becomes fired, at the fire
      time the message carries; every other entry stays where and as it was. */
  function MarkFired(reminders: seq<Reminder>, rem: Reminder): (r: seq<Reminder>)
    ensures |r| == |reminders|
    ensures forall i :: 0 <= i < |r| && reminders[i].id == rem.id ==>
              r[i] == reminders[i].(status := Fired, fireAt := rem.fireAt)
    ensures forall i :: 0 <= i < |r| && reminders[i].id != rem.id ==> r[i] == reminders[i]
  {
    if reminders == [] then []
    else
      var head := if reminders[0].id == rem.id then reminders[0].(status := Fired, fireAt := rem.fireAt)
                  else reminders[0];
      [head] + MarkFired(reminders[1..], rem)
  }

  /** A second message for the same reminder changes nothing more. */
  lemma MarkFiredTwice(reminders: seq<Reminder>, rem: Reminder)
    ensures MarkFired(MarkFired(reminders, rem), rem) == MarkFired(reminders, rem)
  {
    var once := MarkFired(reminders, rem);
    var twice := MarkFired(once, rem);
    assert forall i :: 0 <= i < |twice| ==> twice[i] == once[i];
  }

  /** After the message every entry with that id shows 'Fertig', whatever the clock says. */
  lemma MarkFiredShowsDone(reminders: seq<Reminder>, rem: Reminder, now: int, i: int)
    requires 0 <= i < |reminders| && reminders[i].id == rem.id
    ensures FormatRemaining(MarkFired(reminders, rem)[i], now) == "Fertig"
  {
    FormatRemainingWords(MarkFired(reminders, rem)[i], now);
  }

  /** The wheel step on total minutes: scrolling down goes back one minute, scrolling up
      forward one, and the result is clamped to one day: 00:00 stays 00:00 going down and
      23:59 stays 23:59 going up. */
  function WheelMinutes(hours: int, minutes: int, deltaY: int): (n: int)
    ensures 0 <= n <= 1439
    ensures var total := hours * 60 + minutes;
            (0 < total <= 1440 && deltaY > 0 ==> n == total - 1)
            && (-1 <= total < 1439 && deltaY <= 0 ==> n == total + 1)
    ensures var total := hours * 60 + minutes;
            (total <= 0 && deltaY > 0 ==> n == 0)
            && (total >= 1439 && deltaY <= 0 ==> n == 1439)
            && (total > 1440 && deltaY > 0 ==> n == 1439)
            && (total < -1 && deltaY <= 0 ==> n == 0)
  {
    var total := hours * 60 + minutes;
    var delta := if deltaY > 0 then -1 else 1;
    var next := total + delta;
    if next < 0 then 0 else if next > 1439 then 1439 else next
  }

  /** The text the wheel writes back: `HH:MM`, each field `padStart(2, '0')`. */
  function WheelText(n: int): (t: string)
    requires 0 <= n <= 1439
    ensures |t| == 5 && t[2] == ':' && AllDigits(t[..2]) && AllDigits(t[3..])
    ensures DecimalValue(t[..2]) < 24 && DecimalValue(t[3..]) < 60
    ensures DecimalValue(t[..2]) * 60 + DecimalValue(t[3..]) == n
  {
    var t := Pad2(n / 60) + ":" + Pad2(n % 60);
    assert t[..2] == Pad2(n / 60);
    assert t[3..] == Pad2(n % 60);
    t
  }

  /** Within the day, scrolling one way and then the other gives back the time read. */
  lemma WheelUndo(hours: int, minutes: int)
    requires 0 < hours * 60 + minutes < 1439
    ensures var down := WheelMinutes(hours, minutes, 1);
            WheelMinutes(down / 60, down % 60, -1) == hours * 60 + minutes
    ensures var up := WheelMinutes(hours, minutes, -1);
            WheelMinutes(up / 60, up % 60, 1) == hours * 60 + minutes
  {
  }

  /** The future check of buildFireTimestamp: a non-finite instant (None) or one not after now
      gives null (None). */
  function FireTimestamp(ts: Option<int>, now: int): (r: Option<int>)
    ensures r.Some? <==> ts.Some? && ts.value > now
    ensures r.Some? ==> r == ts
  {
    if ts.None? then None
    else if ts.value <= now then None
    else ts
  }

  /** handleAction's filter predicate: keep the reminders with another id. */
  function OtherReminder(id: int): Reminder -> bool {
    (r: Reminder) => r.id != id
  }

  /** `prev.filter(x => x.id !== r.id)`: exactly the reminders with another id stay. */
  function WithoutReminder(reminders: seq<Reminder>, id: int): (r: seq<Reminder>)
    ensures |r| <= |reminders|
    ensures forall x :: x in r <==> x in reminders && x.id != id
  {
    Filter(reminders, OtherReminder(id))
  }

  /** Removing the one reminder with that id leaves the others in their order. */
  lemma {:induction false} WithoutOneReminder(reminders: seq<Reminder>, id: int, k: int)
    requires 0 <= k < |reminders| && reminders[k].id == id
    requires forall i :: 0 <= i < |reminders| && i != k ==> reminders[i].id != id
    ensures WithoutReminder(reminders, id) == reminders[..k] + reminders[k + 1..]
  {
    FilterDropsOne(reminders, OtherReminder(id), k);
  }

  /** What handleCreate asks `reminder/create` for. */
  datatype CreateRequest = CreateRequest(message: string, fireAt: int)

  class ReminderToolState {
    var reminders: seq<Reminder>
    var message: string

    constructor ()
      ensures reminders == [] && message == ""
    {
      reminders := [];
      message := "";
    }

    /** The `scheduler/reminderFired` listener. */
    method OnReminder(rem: Reminder)
      modifies this
      ensures reminders == MarkFired(old(reminders), rem) && message == old(message)
    {
      reminders := MarkFired(reminders, rem);
    }

    /** handleCreate: a blank message, or a fire time that is not a finite future instant,
        sends nothing; otherwise `reminder/create` is asked for the trimmed message and the
        instant, its result `created` is put first, and the message is cleared. */
    method HandleCreate(ts: Option<int>, now: int, created: Reminder) returns (request: Option<CreateRequest>)
      modifies this
      ensures request.Some? <==> !IsBlank(old(message)) && ts.Some? && ts.value > now && ts.value != 0
      ensures request.None? ==> reminders == old(reminders) && message == old(message)
      ensures request.Some? ==>
                request.value == CreateRequest(Trim(old(message)), ts.value)
                && reminders == [created] + old(reminders) && message == ""
    {
      var trimmed := Trim(message);
      TrimEmptyIffBlank(message);
      if trimmed == "" {
        return None;
      }
      var fire := FireTimestamp(ts, now);
      if fire.None? || fire.value == 0 {
        return None;
      }
      request := Some(CreateRequest(trimmed, fire.value));
      reminders := [created] + reminders;
      message := "";
    }

    /** handleAction: once `reminder/delete` has succeeded the list loses every entry with that
        id; a failed call is swallowed and changes nothing. */
    method HandleAction(r: Reminder, deleteSucceeded: bool)
      modifies this
      ensures deleteSucceeded ==> reminders == WithoutReminder(old(reminders), r.id)
      ensures !deleteSucceeded ==> reminders == old(reminders)
      ensures message == old(message)
    {
      if deleteSucceeded {
        reminders := WithoutReminder(reminders, r.id);
      }
    }
  }
}
