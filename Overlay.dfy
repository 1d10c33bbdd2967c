/**
 * The overlay mode machine of electron/main.js.
 *
 * The overlay is either interactive or click-through. Becoming interactive arms a one-shot
 * revert timeout of `autoTimeoutSec` seconds; user activity and a new timeout re-arm it; its
 * running switches the overlay back to click-through. Handles are issued as numbers, the live
 * revert timeouts are the map `reverts` from handle to due time, and `autoRevert` is the
 * variable holding the last handle (it keeps a handle whose timeout has already run). The
 * startup settings parsing and the two setting validators are modelled beside it; the
 * registration of the global shortcut, the window, and the theme are not part of this model.
 */
module Overlay {
  import opened Js
  import opened Db

  const DefaultAutoTimeoutSec: int := 8
  const DefaultShortcut: string := "Control+Alt+Space"
  const TimeoutKey: string := "overlay_auto_timeout_s"
  const ShortcutKey: string := "overlay_shortcut"

  /** The delay the revert timeout is armed with: `autoTimeoutSec * 1000` ms, under Node's rule
      that a delay beyond 2^31 - 1 ms runs after 1 ms. */
  function RevertDelay(sec: int): (d: int)
    ensures 1 <= d <= TimeoutMax
    ensures 1 <= sec && sec * 1000 <= TimeoutMax ==> d == sec * 1000
  {
    ArmDelay(Some(sec * 1000))
  }

  /** A timeout setting too large for a timer delay reverts the overlay after 1 ms. */
  lemma HugeTimeoutRevertsAtOnce(sec: int)
    requires sec * 1000 > TimeoutMax
    ensures RevertDelay(sec) == 1
  {
  }

  /** `overlay/setAutoTimeout`'s validation: `parseInt(sec, 10)` must give a positive number. */
  function AcceptedTimeout(sec: string): (r: Option<int>)
    ensures r.Some? <==> ParseInt(sec).Some? && ParseInt(sec).value > 0
    ensures r.Some? ==> r == ParseInt(sec)
  {
    match ParseInt(sec)
    case None => None
    case Some(n) => if n <= 0 then None else Some(n)
  }

  /** `overlay/setShortcut`'s validation: `String(value || '').trim()` must be non-empty. */
  function AcceptedShortcut(value: Option<string>): (r: Option<string>)
    ensures r.None? <==> IsBlank(OrEmpty(value))
    ensures r.Some? ==> r.value == Trim(OrEmpty(value)) && r.value != ""
  {
    TrimEmptyIffBlank(OrEmpty(value));
    var v := Trim(OrEmpty(value));
    if v == "" then None else Some(v)
  }

  /** The timeout startup reads from the stored setting: a truthy text whose parse is a positive
      number replaces the current value; anything else keeps it. */
  function LoadedTimeout(setting: Option<string>, current: int): (r: int)
    ensures r == current || (setting.Some? && ParseInt(setting.value) == Some(r) && r > 0)
    ensures setting.Some? && ParseInt(setting.value).Some? && ParseInt(setting.value).value > 0 ==>
              r == ParseInt(setting.value).value
  {
    if setting.Some? && setting.value != "" then
      match ParseInt(setting.value)
      case Some(n) => if n > 0 then n else current
      case None => current
    else current
  }

  /** The shortcut startup reads from the stored setting: a text that is not blank replaces the
      current one, trimmed. */
  function LoadedShortcut(setting: Option<string>, current: string): (r: string)
    ensures r == current || (setting.Some? && r == Trim(setting.value) && r != "")
    ensures setting.Some? && !IsBlank(setting.value) ==> r == Trim(setting.value)
  {
    if setting.Some? && setting.value != "" then
      TrimEmptyIffBlank(setting.value);
      if Trim(setting.value) != "" then Trim(setting.value) else current
    else current
  }

  /** The text setAutoTimeout stores, `String(n)`, is read back at startup as the same number,
      for a timeout that is a safe integer. */
  lemma {:induction false} StoredTimeoutReloads(sec: string, current: int)
    requires AcceptedTimeout(sec).Some? && AcceptedTimeout(sec).value <= MaxSafeInteger
    ensures var n := AcceptedTimeout(sec).value;
            LoadedTimeout(Some(Decimal(n as nat)), current) == n
  {
    var n := AcceptedTimeout(sec).value;
    ParseDecimal(n as nat);
  }

  /** The shortcut setShortcut stores is read back at startup unchanged, and accepting it again
      gives itself. */
  lemma {:induction false} StoredShortcutReloads(value: Option<string>, current: string)
    requires AcceptedShortcut(value).Some?
    ensures var v := AcceptedShortcut(value).value;
            LoadedShortcut(Some(v), current) == v && AcceptedShortcut(Some(v)) == Some(v)
  {
    var v := AcceptedShortcut(value).value;
    TrimIdempotent(OrEmpty(value));
    TrimEmptyIffBlank(v);
  }

  class OverlayState {
    var interactive: bool
    var autoRevert: Option<nat>
    var reverts: map<nat, int>
    var nextToken: nat
    var autoTimeoutSec: int
    var shortcut: string

    /** The handles: issued in increasing order, and only the one held in `autoRevert` can be
        live. */
    ghost predicate Handles()
      reads this
    {
      (forall t :: t in reverts ==> t < nextToken && autoRevert == Some(t))
      && (autoRevert.Some? ==> autoRevert.value < nextToken)
    }

    /** A revert is pending exactly when the overlay is interactive; the timeout is positive and
        the shortcut non-empty. */
    ghost predicate Valid()
      reads this
    {
      Handles()
      && (interactive <==> autoRevert.Some? && autoRevert.value in reverts)
      && autoTimeoutSec > 0 && shortcut != ""
    }

    constructor ()
      ensures Valid() && !interactive && reverts == map[]
      ensures autoTimeoutSec == DefaultAutoTimeoutSec && shortcut == DefaultShortcut
    {
      interactive := false;
      autoRevert := None;
      reverts := map[];
      nextToken := 0;
      autoTimeoutSec := DefaultAutoTimeoutSec;
      shortcut := DefaultShortcut;
    }

    /** Startup: the auto-timeout and the shortcut are read from the settings. */
    method LoadSettings(settings: SettingsRepo)
      requires Valid()
      modifies this
      ensures Valid()
      ensures autoTimeoutSec == LoadedTimeout(settings.Get(TimeoutKey), old(autoTimeoutSec))
      ensures shortcut == LoadedShortcut(settings.Get(ShortcutKey), old(shortcut))
      ensures interactive == old(interactive) && autoRevert == old(autoRevert)
      ensures reverts == old(reverts) && nextToken == old(nextToken)
    {
      autoTimeoutSec := LoadedTimeout(settings.Get(TimeoutKey), autoTimeoutSec);
      shortcut := LoadedShortcut(settings.Get(ShortcutKey), shortcut);
    }

    /** scheduleAutoRevert: clears the held handle and arms a fresh revert timeout. */
    method ScheduleAutoRevert(now: int)
      requires Handles()
      modifies this
      ensures Handles()
      ensures autoRevert == Some(old(nextToken)) && nextToken == old(nextToken) + 1
      ensures reverts == map[old(nextToken) := now + RevertDelay(autoTimeoutSec)]
      ensures interactive == old(interactive)
      ensures autoTimeoutSec == old(autoTimeoutSec) && shortcut == old(shortcut)
    {
      if autoRevert.Some? {
        reverts := reverts - {autoRevert.value};
      }
      forall t ensures t !in reverts {}
      assert reverts == map[];
      var token := nextToken;
      nextToken := nextToken + 1;
      reverts := map[token := now + RevertDelay(autoTimeoutSec)];
      autoRevert := Some(token);
    }

    /** toggleInteract: flips the mode; becoming interactive arms the revert, becoming
        click-through clears it and forgets the handle. Returns the new mode. */
    method ToggleInteract(now: int) returns (nowInteractive: bool)
      requires Valid()
      modifies this
      ensures Valid()
      ensures interactive == !old(interactive) && nowInteractive == interactive
      ensures interactive ==> reverts == map[old(nextToken) := now + RevertDelay(autoTimeoutSec)]
      ensures !interactive ==> reverts == map[] && autoRevert.None?
      ensures autoTimeoutSec == old(autoTimeoutSec) && shortcut == old(shortcut)
    {
      interactive := !interactive;
      if interactive {
        ScheduleAutoRevert(now);
      } else {
        if autoRevert.Some? {
          reverts := reverts - {autoRevert.value};
          autoRevert := None;
        }
        forall t ensures t !in reverts {}
        assert reverts == map[];
      }
      nowInteractive := interactive;
    }

    /** The revert timeout runs: the overlay becomes click-through. The handle stays held. */
    method OnRevert(token: nat, now: int)
      requires Valid()
      requires token in reverts && reverts[token] <= now
      modifies this
      ensures Valid()
      ensures !interactive && reverts == map[]
      ensures old(interactive) && autoRevert == old(autoRevert)
      ensures autoTimeoutSec == old(autoTimeoutSec) && shortcut == old(shortcut)
    {
      interactive := false;
      reverts := reverts - {token};
      forall t ensures t !in reverts {}
      assert reverts == map[];
    }

    /** `overlay/setAutoTimeout`: a value whose parse is not a positive number changes nothing;
        otherwise it is taken, stored as its decimal text, and an interactive overlay's revert
        is re-armed with it. Returns the timeout and the shortcut. */
    method SetAutoTimeout(settings: SettingsRepo, sec: string, now: int) returns (timeoutSec: int, sc: string)
      requires Valid()
      modifies this, settings
      ensures Valid()
      ensures timeoutSec == autoTimeoutSec && sc == shortcut
      ensures shortcut == old(shortcut) && interactive == old(interactive)
      ensures AcceptedTimeout(sec).None? ==>
                autoTimeoutSec == old(autoTimeoutSec) && settings.table == old(settings.table)
                && reverts == old(reverts) && autoRevert == old(autoRevert)
      ensures AcceptedTimeout(sec).Some? ==>
                autoTimeoutSec == AcceptedTimeout(sec).value
                && settings.table == old(settings.table)[TimeoutKey := Decimal(autoTimeoutSec as nat)]
                && (interactive ==> reverts == map[old(nextToken) := now + RevertDelay(autoTimeoutSec)])
                && (!interactive ==> reverts == old(reverts))
    {
      var accepted := AcceptedTimeout(sec);
      if accepted.None? {
        return autoTimeoutSec, shortcut;
      }
      autoTimeoutSec := accepted.value;
      var _ := settings.Set(TimeoutKey, Decimal(autoTimeoutSec as nat));
      if interactive {
        ScheduleAutoRevert(now);
      }
      return autoTimeoutSec, shortcut;
    }

    /** `overlay/setShortcut`: a value that is blank after trimming changes nothing; otherwise
        the trimmed value becomes the shortcut and is stored. Returns the shortcut. */
    method SetShortcut(settings: SettingsRepo, value: Option<string>) returns (sc: string)
      requires Valid()
      modifies this, settings
      ensures Valid() && sc == shortcut
      ensures AcceptedShortcut(value).None? ==>
                shortcut == old(shortcut) && settings.table == old(settings.table)
      ensures AcceptedShortcut(value).Some? ==>
                shortcut == AcceptedShortcut(value).value
                && settings.table == old(settings.table)[ShortcutKey := shortcut]
      ensures interactive == old(interactive) && reverts == old(reverts) && autoRevert == old(autoRevert)
      ensures autoTimeoutSec == old(autoTimeoutSec)
    {
      var accepted := AcceptedShortcut(value);
      if accepted.None? {
        return shortcut;
      }
      StoreShortcut(settings, accepted.value);
      return shortcut;
    }

    /** The accepted branch of `overlay/setShortcut`: the shortcut is taken and stored. */
    method StoreShortcut(settings: SettingsRepo, v: string)
      requires Valid() && v != ""
      modifies this, settings
      ensures Valid() && shortcut == v
      ensures settings.table == old(settings.table)[ShortcutKey := v]
      ensures interactive == old(interactive) && reverts == old(reverts) && autoRevert == old(autoRevert)
      ensures autoTimeoutSec == old(autoTimeoutSec)
    {
      shortcut := v;
      var _ := settings.Set(ShortcutKey, v);
    }

    /** `overlay/userActivity`: re-arms the revert of an interactive overlay; nothing else. */
    method UserActivity(now: int)
      requires Valid()
      modifies this
      ensures Valid()
      ensures interactive == old(interactive)
      ensures interactive ==> reverts == map[old(nextToken) := now + RevertDelay(autoTimeoutSec)]
      ensures !interactive ==> reverts == old(reverts) && nextToken == old(nextToken)
      ensures autoTimeoutSec == old(autoTimeoutSec) && shortcut == old(shortcut)
    {
      if interactive {
        ScheduleAutoRevert(now);
      }
    }
  }
}
