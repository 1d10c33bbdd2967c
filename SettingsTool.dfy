/**
 * The settings tool of renderer/src/tools/Settings.tsx: the shortcut string recorded from a key
 * press, the choice of the shortcut when recording stops or the settings are saved, the save
 * sequence of IPC calls, and the fallback of the timeout input. The component's state is the
 * fields of SettingsToolState; how many of save's calls succeed is a parameter.
 */
module SettingsTool {
  import opened Js
  import Overlay

  /** The parts of a keydown event the recorder reads. */
  datatype KeyEvent = KeyEvent(key: string, ctrlKey: bool, altKey: bool, shiftKey: bool, metaKey: bool)

  /** `['Control', 'Alt', 'Shift', 'Meta'].includes(key)`: a bare modifier key. */
  predicate IsModifierKey(key: string) {
    key == "Control" || key == "Alt" || key == "Shift" || key == "Meta"
  }

  /** The position of a modifier in the fixed order Control, Alt, Shift, Command. */
  function ModifierRank(name: string): int {
    if name == "Control" then 0
    else if name == "Alt" then 1
    else if name == "Shift" then 2
    else if name == "Command" then 3
    else 4
  }

  /** The modifier names pushed for an event: each held modifier once, in the fixed order. */
  function Modifiers(e: KeyEvent): (r: seq<string>)
    ensures forall m :: m in r <==>
              (m == "Control" && e.ctrlKey) || (m == "Alt" && e.altKey)
              || (m == "Shift" && e.shiftKey) || (m == "Command" && e.metaKey)
    ensures forall i, j :: 0 <= i < j < |r| ==> ModifierRank(r[i]) < ModifierRank(r[j]) < 4
  {
    (if e.ctrlKey then ["Control"] else [])
    + (if e.altKey then ["Alt"] else [])
    + (if e.shiftKey then ["Shift"] else [])
    + (if e.metaKey then ["Command"] else [])
  }

  /** The key's name: ' ' becomes 'Space', a single character is upper-cased, a longer name is
      kept. */
  function KeyName(key: string): (r: string)
    ensures key == " " ==> r == "Space"
    ensures key != " " && |key| == 1 ==> |r| == 1 && r[0] == UpperChar(key[0])
    ensures |key| != 1 ==> r == key
  {
    if key == " " then "Space" else if |key| == 1 then ToUpper(key) else key
  }

  /** `parts.join('+')`. */
  function JoinPlus(parts: seq<string>): string {
    if parts == [] then ""
    else if |parts| == 1 then parts[0]
    else parts[0] + "+" + JoinPlus(parts[1..])
  }

  /** `s.split('+')`, the reading an accelerator string gets: the pieces between the plus signs. */
  function SplitPlus(s: string): (r: seq<string>)
    ensures |r| >= 1
  {
    if s == "" then [""]
    else if s[0] == '+' then [""] + SplitPlus(s[1..])
    else
      var rest := SplitPlus(s[1..]);
      [[s[0]] + rest[0]] + rest[1..]
  }

  /** A piece without a plus sign at the front joins the first piece of what follows. */
  lemma {:induction false} SplitPiece(p: string, s: string)
    requires '+' !in p
    ensures SplitPlus(p + s) == [p + SplitPlus(s)[0]] + SplitPlus(s)[1..]
  {
    if p != "" {
      assert (p + s)[0] == p[0] && p[0] != '+';
      assert (p + s)[1..] == p[1..] + s;
      SplitPiece(p[1..], s);
      assert [p[0]] + (p[1..] + SplitPlus(s)[0]) == p + SplitPlus(s)[0];
    } else {
      var r := SplitPlus(s);
      assert p + s == s;
      assert p + r[0] == r[0];
      assert r == [r[0]] + r[1..];
    }
  }

  /** Splitting parts joined with '+' gives them back, when no part holds a '+'. */
  lemma {:induction false} SplitJoin(parts: seq<string>)
    requires |parts| >= 1
    requires forall i :: 0 <= i < |parts| ==> '+' !in parts[i]
    ensures SplitPlus(JoinPlus(parts)) == parts
  {
    if |parts| == 1 {
      SplitPiece(parts[0], "");
      assert parts[0] + "" == parts[0];
    } else {
      var rest := JoinPlus(parts[1..]);
      SplitJoin(parts[1..]);
      assert parts[0] + "+" + rest == parts[0] + ("+" + rest);
      SplitPiece(parts[0], "+" + rest);
      assert ("+" + rest)[1..] == rest;
      assert SplitPlus("+" + rest) == [""] + parts[1..];
      assert parts[0] + "" == parts[0];
    }
  }

  /** The parts handleKeyDown pushes for a key that is not a bare modifier. */
  function ShortcutParts(e: KeyEvent): seq<string> {
    Modifiers(e) + [KeyName(e.key)]
  }

  /** A recorded shortcut reads back, split at '+', as its held modifiers in the fixed order
      followed by exactly one key, whenever the key name holds no '+'. */
  lemma ShortcutReadsBack(e: KeyEvent)
    requires '+' !in KeyName(e.key)
    ensures var parts := SplitPlus(JoinPlus(ShortcutParts(e)));
            |parts| >= 1 && parts[..|parts| - 1] == Modifiers(e) && parts[|parts| - 1] == KeyName(e.key)
  {
    var ps := ShortcutParts(e);
    forall i | 0 <= i < |ps|
      ensures '+' !in ps[i]
    {
      if i < |Modifiers(e)| {
        assert ps[i] in Modifiers(e);
      }
    }
    SplitJoin(ps);
    assert ps[..|ps| - 1] == Modifiers(e);
  }

  /** The last part of a join ends it. */
  lemma {:induction false} JoinEndsWithLast(parts: seq<string>)
    requires |parts| >= 1
    ensures var j := JoinPlus(parts); var last := parts[|parts| - 1];
            |last| <= |j| && j[|j| - |last|..] == last
  {
    if |parts| > 1 {
      JoinEndsWithLast(parts[1..]);
      var rest := JoinPlus(parts[1..]);
      var j := JoinPlus(parts);
      assert j == (parts[0] + "+") + rest;
      assert j[|j| - |rest|..] == rest;
    }
  }

  /** A key name made of a key that is not blank is not blank either. */
  lemma KeyNameNotBlank(key: string)
    requires !IsBlank(key)
    ensures !IsBlank(KeyName(key))
  {
    if key != " " && |key| == 1 {
      assert !IsSpace(key[0]);
      assert UpperChar(key[0]) == key[0] || 'a' <= key[0] <= 'z' || '\U{E0}' <= key[0] <= '\U{FE}';
      assert !IsSpace(KeyName(key)[0]);
    }
  }

  /** Any shortcut recorded from a key that is not blank passes `overlay/setShortcut`'s check. */
  lemma RecordedShortcutAccepted(e: KeyEvent)
    requires !IsBlank(e.key)
    ensures Overlay.AcceptedShortcut(Some(JoinPlus(ShortcutParts(e)))).Some?
  {
    var ps := ShortcutParts(e);
    var j := JoinPlus(ps);
    var name := KeyName(e.key);
    KeyNameNotBlank(e.key);
    JoinEndsWithLast(ps);
    var k :| 0 <= k < |name| && !IsSpace(name[k]);
    assert j[|j| - |name| + k] == name[k];
  }

  /** The timeout input's handler: `parseInt(value, 10) || 1`; NaN and 0 give 1, any other
      number, negative ones included, is taken. */
  function TimeoutInput(value: string): (r: int)
    ensures r != 0
    ensures ParseInt(value).None? || ParseInt(value).value == 0 ==> r == 1
    ensures ParseInt(value).Some? && ParseInt(value).value != 0 ==> r == ParseInt(value).value
  {
    var p := ParseInt(value);
    if p.None? || p.value == 0 then 1 else p.value
  }

  /** `String(n)` for an integer. */
  function NumberText(n: int): string {
    if n >= 0 then Decimal(n) else "-" + Decimal(-n)
  }

  /** `parseInt(String(n), 10)` gives n back for a safe integer n. */
  lemma {:induction false} NumberTextParses(n: int)
    requires -MaxSafeInteger <= n <= MaxSafeInteger
    ensures ParseInt(NumberText(n)) == Some(n)
  {
    var t := NumberText(n);
    if n >= 0 {
      assert t == Decimal(n);
      ParseDecimal(n);
    } else {
      var m: nat := -n;
      assert t == "-" + Decimal(m);
      ParseNegativeDecimal(m);
    }
  }

  /** The number the input holds reaches `overlay/setAutoTimeout`, which takes it exactly when it
      is positive: the fallback keeps 0 out, but a negative entry is sent and refused. This holds
      for an entry that is a safe integer. */
  lemma TimeoutInputAccepted(value: string)
    requires -MaxSafeInteger <= TimeoutInput(value) <= MaxSafeInteger
    ensures var n := TimeoutInput(value);
            (Overlay.AcceptedTimeout(NumberText(n)).Some? <==> n > 0)
            && (n > 0 ==> Overlay.AcceptedTimeout(NumberText(n)) == Some(n))
  {
    NumberTextParses(TimeoutInput(value));
  }

  /** The IPC calls save makes, in order. The theme payload is not part of this model. */
  datatype SaveCall = SetAutoRevert(enabled: bool) | SetAutoTimeout(sec: int) | SetShortcut(shortcut: string) | SetTheme

  /** The calls save attempts when the first `succeeded` of them resolve: each call is awaited,
      so the first rejection ends the sequence. */
  function SaveCalls(enabled: bool, sec: int, shortcut: string, succeeded: nat): (r: seq<SaveCall>)
    ensures |r| == if succeeded >= 4 then 4 else succeeded + 1
    ensures r[0] == SetAutoRevert(enabled)
    ensures |r| >= 2 ==> r[1] == SetAutoTimeout(sec)
    ensures |r| >= 3 ==> r[2] == SetShortcut(shortcut)
    ensures |r| == 4 ==> r[3] == SetTheme
  {
    var all := [SetAutoRevert(enabled), SetAutoTimeout(sec), SetShortcut(shortcut), SetTheme];
    all[..if succeeded >= 4 then 4 else succeeded + 1]
  }

  class SettingsToolState {
    var sec: int
    var shortcut: string
    var autoRevertEnabled: bool
    var recording: bool
    var recordedKeys: seq<string>
    var saved: bool

    constructor ()
      ensures sec == 8 && shortcut == "Control+Alt+Space" && !autoRevertEnabled
      ensures !recording && recordedKeys == [] && !saved
    {
      sec := 8;
      shortcut := "Control+Alt+Space";
      autoRevertEnabled := false;
      recording := false;
      recordedKeys := [];
      saved := false;
    }

    /** handleKeyDown's string: the held modifiers pushed in their fixed order, then the key's
        name, joined with '+'. */
    static method BuildShortcut(e: KeyEvent) returns (s: string)
      ensures s == JoinPlus(ShortcutParts(e))
    {
      var parts: seq<string> := [];
      if e.ctrlKey { parts := parts + ["Control"]; }
      if e.altKey { parts := parts + ["Alt"]; }
      if e.shiftKey { parts := parts + ["Shift"]; }
      if e.metaKey { parts := parts + ["Command"]; }
      assert parts == Modifiers(e);
      var key := e.key;
      if key == " " {
        key := "Space";
      } else if |key| == 1 {
        key := ToUpper(key);
      }
      assert key == KeyName(e.key);
      parts := parts + [key];
      s := JoinPlus(parts);
    }

    /** The keydown listener, installed only while recording: a bare modifier is ignored; any
        other key replaces the recorded keys with the one shortcut it makes. */
    method HandleKeyDown(e: KeyEvent)
      modifies this
      ensures !old(recording) || IsModifierKey(e.key) ==> recordedKeys == old(recordedKeys)
      ensures old(recording) && !IsModifierKey(e.key) ==> recordedKeys == [JoinPlus(ShortcutParts(e))]
      ensures sec == old(sec) && shortcut == old(shortcut) && recording == old(recording)
      ensures autoRevertEnabled == old(autoRevertEnabled) && saved == old(saved)
    {
      if !recording || IsModifierKey(e.key) {
        return;
      }
      var s := BuildShortcut(e);
      recordedKeys := [s];
    }

    /** startRecording: the recorded keys are emptied and recording begins. */
    method StartRecording()
      modifies this
      ensures recording && recordedKeys == []
      ensures sec == old(sec) && shortcut == old(shortcut)
      ensures autoRevertEnabled == old(autoRevertEnabled) && saved == old(saved)
    {
      recordedKeys := [];
      recording := true;
    }

    /** stopRecording: recording ends; the last recorded shortcut, if any, becomes the
        shortcut. */
    method StopRecording()
      modifies this
      ensures !recording && recordedKeys == old(recordedKeys)
      ensures |recordedKeys| > 0 ==> shortcut == recordedKeys[|recordedKeys| - 1]
      ensures |recordedKeys| == 0 ==> shortcut == old(shortcut)
      ensures sec == old(sec) && autoRevertEnabled == old(autoRevertEnabled) && saved == old(saved)
    {
      recording := false;
      if |recordedKeys| > 0 {
        shortcut := recordedKeys[|recordedKeys| - 1];
      }
    }

    /** save: a save while recording first ends the recording as stopRecording does; then the
        four settings calls are made in order until one rejects, and `saved` is set only when all
        four resolved. Returns the calls made. */
    method Save(succeeded: nat) returns (calls: seq<SaveCall>)
      modifies this
      ensures old(recording) && |recordedKeys| > 0 ==> shortcut == recordedKeys[|recordedKeys| - 1]
      ensures !old(recording) || |recordedKeys| == 0 ==> shortcut == old(shortcut)
      ensures !recording && recordedKeys == old(recordedKeys)
      ensures calls == SaveCalls(autoRevertEnabled, sec, shortcut, succeeded)
      ensures saved <==> succeeded >= 4
      ensures sec == old(sec) && autoRevertEnabled == old(autoRevertEnabled)
    {
      if recording {
        recording := false;
        if |recordedKeys| > 0 {
          shortcut := recordedKeys[|recordedKeys| - 1];
        }
      }
      saved := false;
      calls := SaveCalls(autoRevertEnabled, sec, shortcut, succeeded);
      saved := succeeded >= 4;
    }

    /** The timeout input's change handler. */
    method SetTimeoutInput(value: string)
      modifies this
      ensures sec == TimeoutInput(value) && shortcut == old(shortcut) && recording == old(recording)
      ensures recordedKeys == old(recordedKeys) && autoRevertEnabled == old(autoRevertEnabled)
      ensures saved == old(saved)
    {
      sec := TimeoutInput(value);
    }
  }
}
