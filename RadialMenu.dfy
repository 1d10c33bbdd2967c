/**
 * The radial menu of renderer/src/components/RadialMenu.tsx: the alpha suffix validator, the
 * colours and alpha suffixes picked by the overlay mode, how many buttons are laid out for the
 * items, and each button's tab order. The angles themselves are floating point and not part of
 * this model; only how many there are is.
 */
module RadialMenu {
  import opened Js

  predicate IsHexDigit(c: char) {
    '0' <= c <= '9' || 'a' <= c <= 'f' || 'A' <= c <= 'F'
  }

  /** `/^#([0-9a-fA-F]{6})$/`: '#' followed by exactly six hex digits. */
  predicate IsHexColor(s: string) {
    |s| == 7 && s[0] == '#' && forall i :: 1 <= i < 7 ==> IsHexDigit(s[i])
  }

  /** withAlpha: a `#RRGGBB` colour gets the alpha appended; anything else is returned as is. */
  function WithAlpha(hex: string, alpha: string): (r: string)
    ensures IsHexColor(hex) ==> r == hex + alpha && r[..7] == hex
    ensures !IsHexColor(hex) ==> r == hex
  {
    if IsHexColor(hex) then hex + alpha else hex
  }

  /** The alpha is appended at most once: a colour that already carries one is no longer
      `#RRGGBB`, so a second call returns it unchanged. */
  lemma WithAlphaOnce(hex: string, a: string, b: string)
    requires a != ""
    ensures WithAlpha(WithAlpha(hex, a), b) == WithAlpha(hex, a)
  {
  }

  /** edgeColor and btnColor: the active accent when interactive, else the inactive accent,
      falling back to the active one when the inactive accent is empty. */
  function MenuColor(interactive: bool, accentActive: string, accentInactive: string): (c: string)
    ensures interactive ==> c == accentActive
    ensures !interactive && accentInactive != "" ==> c == accentInactive
    ensures !interactive && accentInactive == "" ==> c == accentActive
  {
    if interactive then accentActive
    else if accentInactive != "" then accentInactive
    else accentActive
  }

  /** The three alpha suffixes: fill, stroke and glow. */
  datatype Alphas = Alphas(fill: string, stroke: string, glow: string)

  function MenuAlphas(interactive: bool): (a: Alphas)
    ensures interactive ==> a == Alphas("33", "CC", "AA")
    ensures !interactive ==> a == Alphas("18", "88", "55")
  {
    if interactive then Alphas("33", "CC", "AA") else Alphas("18", "88", "55")
  }

  /** What the semicircle is painted with. */
  datatype Paint = Paint(fill: string, stroke: string, glow: string, button: string)

  function MenuPaint(interactive: bool, accentActive: string, accentInactive: string): Paint {
    var edge := MenuColor(interactive, accentActive, accentInactive);
    var a := MenuAlphas(interactive);
    Paint(WithAlpha(edge, a.fill), WithAlpha(edge, a.stroke), WithAlpha(edge, a.glow), edge)
  }

  /** A `#RRGGBB` accent is painted with the mode's alpha suffixes, and the buttons share the
      semicircle's colour; any other accent is painted as it is in all four places. */
  lemma MenuPaintMeaning(interactive: bool, accentActive: string, accentInactive: string)
    ensures var p := MenuPaint(interactive, accentActive, accentInactive);
            var edge := MenuColor(interactive, accentActive, accentInactive);
            p.button == edge
            && (IsHexColor(edge) && interactive ==>
                  p.fill == edge + "33" && p.stroke == edge + "CC" && p.glow == edge + "AA")
            && (IsHexColor(edge) && !interactive ==>
                  p.fill == edge + "18" && p.stroke == edge + "88" && p.glow == edge + "55")
            && (!IsHexColor(edge) ==> p.fill == edge && p.stroke == edge && p.glow == edge)
  {
  }

  /** A laid-out button: the item it shows, its tab index and whether it is disabled. */
  datatype Button = Button(item: nat, tabIndex: int, disabled: bool)

  /** `angles.length`: one angle per item from two items on, else the single angle pi/2. */
  function AngleCount(items: nat): (n: nat)
    ensures n >= 1
    ensures items >= 2 ==> n == items
    ensures items < 2 ==> n == 1
  {
    if items > 1 then items else 1
  }

  /** The button for angle i: tab index i + 1 when interactive, -1 otherwise. */
  function ButtonAt(interactive: bool, i: nat): (b: Button)
    ensures b.item == i && b.disabled == !interactive
    ensures interactive ==> b.tabIndex == i + 1
    ensures !interactive ==> b.tabIndex == -1
  {
    Button(i, if interactive then i + 1 else -1, !interactive)
  }

  /** The buttons for `items` items, one per angle; with no items the first angle reads
      `items[0].id` of undefined and the render throws (None). */
  function Buttons(items: nat, interactive: bool): (r: Option<seq<Button>>)
    ensures r.None? <==> items == 0
    ensures r.Some? ==> |r.value| == items
    ensures r.Some? ==> forall i :: 0 <= i < |r.value| ==> r.value[i] == ButtonAt(interactive, i)
  {
    if items == 0 then None
    else Some(seq(AngleCount(items), i requires 0 <= i => ButtonAt(interactive, i)))
  }

  /** Interactive buttons are reached by Tab one after another in item order, from 1; a
      click-through menu leaves every button out of the tab order and disabled. */
  lemma TabOrder(items: nat, interactive: bool)
    requires items >= 1
    ensures var bs := Buttons(items, interactive).value;
            (interactive ==> forall i, j :: 0 <= i < j < |bs| ==> 1 <= bs[i].tabIndex < bs[j].tabIndex)
            && (!interactive ==> forall i :: 0 <= i < |bs| ==> bs[i].tabIndex == -1 && bs[i].disabled)
  {
  }
}
