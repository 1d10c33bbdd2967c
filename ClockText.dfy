/**
 * The remaining-time text both renderer tools show: a count of whole seconds split into hours,
 * minutes and seconds, each written with `String(n).padStart(2, '0')` and joined by `:`.
 */
module ClockText {
  import opened Js

  datatype Hms = Hms(h: nat, m: nat, s: nat)

  /** `Math.floor(total / 3600)`, `Math.floor((total % 3600) / 60)` and `total % 60`. */
  function Split(total: nat): (r: Hms)
    ensures r.m < 60 && r.s < 60
    ensures r.h * 3600 + r.m * 60 + r.s == total
  {
    Hms(total / 3600, (total % 3600) / 60, total % 60)
  }

  /** Minutes and seconds below 60 determine the split: there is only one. */
  lemma {:induction false} SplitUnique(total: nat, a: Hms)
    requires a.m < 60 && a.s < 60 && a.h * 3600 + a.m * 60 + a.s == total
    ensures a == Split(total)
  {
    var rest := a.m * 60 + a.s;
    assert rest < 3600;
    QuotientUnique(a.h, rest, total / 3600, total % 3600, 3600);
    QuotientUnique(a.m, a.s, (total % 3600) / 60, total % 60, 60);
  }

  /** Division with remainder has one answer. */
  lemma {:induction false} QuotientUnique(q1: int, r1: int, q2: int, r2: int, d: int)
    requires d > 0 && 0 <= r1 < d && 0 <= r2 < d && q1 * d + r1 == q2 * d + r2
    ensures q1 == q2 && r1 == r2
  {
    assert (q1 - q2) * d == r2 - r1;
    MultipleBelow(q1 - q2, d);
  }

  /** A multiple of d strictly between -d and d is 0. */
  lemma MultipleBelow(k: int, d: int)
    requires d > 0
    ensures k >= 1 ==> k * d >= d
    ensures k <= -1 ==> k * d <= -d
  {
  }

  /** `HH:MM:SS`; the hour field grows past two digits when it must. */
  function Long(total: nat): string {
    var c := Split(total);
    Pad2(c.h) + ":" + Pad2(c.m) + ":" + Pad2(c.s)
  }

  /** `MM:SS`, used below one hour. */
  function Short(total: nat): string {
    var c := Split(total);
    Pad2(c.m) + ":" + Pad2(c.s)
  }

  /** t reads as `H:MM:SS` for total: digit fields split by colons, minutes and seconds below
      60, and hours * 3600 + minutes * 60 + seconds equal to total. */
  predicate ReadsAsLong(t: string, total: int) {
    |t| >= 8 && t[|t| - 6] == ':' && t[|t| - 3] == ':'
    && AllDigits(t[..|t| - 6]) && AllDigits(t[|t| - 5..|t| - 3]) && AllDigits(t[|t| - 2..])
    && DecimalValue(t[|t| - 5..|t| - 3]) < 60 && DecimalValue(t[|t| - 2..]) < 60
    && DecimalValue(t[..|t| - 6]) * 3600 + DecimalValue(t[|t| - 5..|t| - 3]) * 60
       + DecimalValue(t[|t| - 2..]) == total
  }

  /** t reads as `MM:SS` for total: two two-digit fields split by a colon, both below 60, and
      minutes * 60 + seconds equal to total. */
  predicate ReadsAsShort(t: string, total: int) {
    |t| == 5 && t[2] == ':' && AllDigits(t[..2]) && AllDigits(t[3..])
    && DecimalValue(t[..2]) < 60 && DecimalValue(t[3..]) < 60
    && DecimalValue(t[..2]) * 60 + DecimalValue(t[3..]) == total
  }

  /** Reading the three fields of the long form back gives the count of seconds. */
  lemma LongReadsBack(total: nat)
    ensures ReadsAsLong(Long(total), total)
  {
    var c := Split(total);
    var hs, ms, ss := Pad2(c.h), Pad2(c.m), Pad2(c.s);
    var r := Long(total);
    assert r == hs + ":" + ms + ":" + ss;
    assert |ms| == 2 && |ss| == 2;
    assert r[..|r| - 6] == hs;
    assert r[|r| - 5..|r| - 3] == ms;
    assert r[|r| - 2..] == ss;
  }

  /** Below one hour, reading the two fields of the short form back gives the count of seconds. */
  lemma ShortReadsBack(total: nat)
    requires total < 3600
    ensures ReadsAsShort(Short(total), total)
  {
    var c := Split(total);
    var r := Short(total);
    assert c.h == 0;
    assert r == Pad2(c.m) + ":" + Pad2(c.s);
    assert r[..2] == Pad2(c.m);
    assert r[3..] == Pad2(c.s);
  }

  /** Every clock text holds a colon. */
  lemma ClockHasColon(total: nat)
    ensures ':' in Long(total) && ':' in Short(total)
  {
    var c := Split(total);
    assert Long(total)[|Pad2(c.h)|] == ':';
    assert Short(total)[|Pad2(c.m)|] == ':';
  }

  /** No clock text is one of the status words the tools show instead, as each holds a colon
      and neither word does. */
  lemma NotAStatusWord(total: nat)
    ensures Long(total) != "Abgebrochen" && Long(total) != "Fertig"
    ensures Short(total) != "Abgebrochen" && Short(total) != "Fertig"
  {
    ClockHasColon(total);
    assert "Abgebrochen"[..] == ['A', 'b', 'g', 'e', 'b', 'r', 'o', 'c', 'h', 'e', 'n'];
    assert "Fertig"[..] == ['F', 'e', 'r', 't', 'i', 'g'];
  }
}
