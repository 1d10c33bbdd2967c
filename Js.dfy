/**
 * The JavaScript built-ins the FocusRing core relies on, stated in Dafny's terms:
 * undefined-or-value, truthiness, String.prototype.trim / toLowerCase / toUpperCase /
 * includes / padStart, String(n), parseInt(s, 10), Array.prototype.filter and map,
 * and the delay rule of Node's setTimeout.
 */
module Js {

  datatype Option<+T> = None | Some(value: T)

  /** A JavaScript value of type `number | boolean | undefined` (integral numbers only). */
  datatype NumOrBool = Undefined | Bool(b: bool) | Num(n: int)

  /** JavaScript truthiness: `undefined`, `false` and `0` are falsy. */
  predicate Truthy(v: NumOrBool) {
    match v
    case Undefined => false
    case Bool(b) => b
    case Num(n) => n != 0
  }

  /** `s || ''` for a string that may be undefined. */
  function OrEmpty(s: Option<string>): string {
    if s.Some? then s.value else ""
  }

  /** `n || d` for a number that may be undefined: undefined and 0 both give `d`. */
  function OrDefault(n: Option<int>, d: int): int {
    if n.Some? && n.value != 0 then n.value else d
  }

  // ---------------------------------------------------------------------------
  // White space and trim

  /** The characters String.prototype.trim removes: ECMAScript WhiteSpace and LineTerminator. */
  predicate IsSpace(c: char) {
    c == '\t' || c == '\n' || c == '\U{B}' || c == '\U{C}' || c == '\r' || c == ' '
    || c == '\U{A0}' || c == '\U{1680}' || ('\U{2000}' <= c <= '\U{200A}')
    || c == '\U{2028}' || c == '\U{2029}' || c == '\U{202F}' || c == '\U{205F}'
    || c == '\U{3000}' || c == '\U{FEFF}'
  }

  /** A string made of white space only (the empty string included). */
  predicate IsBlank(s: string) {
    forall i :: 0 <= i < |s| ==> IsSpace(s[i])
  }

  /** Drops the leading white space: the result is the longest suffix that does not start with it. */
  function TrimStart(s: string): (r: string)
    ensures |r| <= |s| && r == s[|s| - |r|..]
    ensures IsBlank(s[..|s| - |r|])
    ensures r != [] ==> !IsSpace(r[0])
  {
    if s != [] && IsSpace(s[0]) then
      var r := TrimStart(s[1..]);
      assert s[..|s| - |r|] == [s[0]] + s[1..][..|s| - 1 - |r|];
      r
    else s
  }

  /** Drops the trailing white space: the result is the longest prefix that does not end with it. */
  function TrimEnd(s: string): (r: string)
    ensures |r| <= |s| && r == s[..|r|]
    ensures IsBlank(s[|r|..])
    ensures r != [] ==> !IsSpace(r[|r| - 1])
  {
    if s != [] && IsSpace(s[|s| - 1]) then
      var r := TrimEnd(s[..|s| - 1]);
      assert s[|r|..] == s[..|s| - 1][|r|..] + [s[|s| - 1]];
      r
    else s
  }

  /** String.prototype.trim. */
  function Trim(s: string): string {
    TrimEnd(TrimStart(s))
  }

  /** Trimming gives the empty string exactly for blank strings. */
  lemma TrimEmptyIffBlank(s: string)
    ensures Trim(s) == "" <==> IsBlank(s)
  {
    var t := TrimStart(s);
    if Trim(s) == "" {
      assert IsBlank(t[0..]);
      assert s == s[..|s| - |t|] + t;
    } else {
      var k := |s| - |t|;
      assert t[0] == s[k] && !IsSpace(s[k]);
    }
  }

  /** A string that neither starts nor ends with white space is left as it is by trim. */
  lemma TrimOfTrimmed(s: string)
    requires s == [] || (!IsSpace(s[0]) && !IsSpace(s[|s| - 1]))
    ensures Trim(s) == s
  {
  }

  /** Trimming twice is trimming once. */
  lemma TrimIdempotent(s: string)
    ensures Trim(Trim(s)) == Trim(s)
  {
    var t := Trim(s);
    if t != [] {
      var u := TrimStart(s);
      assert t == u[..|t|];
      assert t[0] == u[0];
    }
    TrimOfTrimmed(t);
  }

  // ---------------------------------------------------------------------------
  // Case mapping (ASCII and Latin-1 letters) and substring search

  /** The lower-case form of an ASCII or Latin-1 capital (A-Z, and U+00C0 to U+00DE without the
      multiplication sign): the code point 32 higher. */
  function LowerChar(c: char): char {
    if 'A' <= c <= 'Z' || ('\U{C0}' <= c <= '\U{DE}' && c != '\U{D7}') then (c as int + 32) as char else c
  }

  /** The capital of an ASCII or Latin-1 small letter (a-z, and U+00E0 to U+00FE without the
      division sign): the code point 32 lower. */
  function UpperChar(c: char): char {
    if 'a' <= c <= 'z' || ('\U{E0}' <= c <= '\U{FE}' && c != '\U{F7}') then (c as int - 32) as char else c
  }

  /** String.prototype.toLowerCase on ASCII and Latin-1 letters. */
  function ToLower(s: string): (r: string)
    ensures |r| == |s|
  {
    seq(|s|, i requires 0 <= i < |s| => LowerChar(s[i]))
  }

  /** String.prototype.toUpperCase on ASCII and Latin-1 letters other than U+00DF and U+00FF. */
  function ToUpper(s: string): (r: string)
    ensures |r| == |s|
  {
    seq(|s|, i requires 0 <= i < |s| => UpperChar(s[i]))
  }

  /** Lower-casing forgets case: an upper-cased string lower-cases to what the string itself does. */
  lemma LowerOfUpper(s: string)
    ensures ToLower(ToUpper(s)) == ToLower(s)
  {
    forall i | 0 <= i < |s|
      ensures LowerChar(UpperChar(s[i])) == LowerChar(s[i])
    {
    }
  }

  /** `s.includes(q)`: q occurs in s as a contiguous block (the empty q occurs everywhere). */
  predicate Includes(s: string, q: string)
    decreases |s|
  {
    |q| <= |s| && (s[..|q|] == q || Includes(s[1..], q))
  }

  /** q sits in s at position i. */
  predicate OccursAt(s: string, q: string, i: int) {
    0 <= i <= |s| - |q| && s[i..i + |q|] == q
  }

  /** `Includes` holds exactly when q sits at some position of s. */
  lemma {:induction false} IncludesIffOccurs(s: string, q: string)
    ensures Includes(s, q) <==> exists i :: OccursAt(s, q, i)
    decreases |s|
  {
    if |q| <= |s| {
      if s[..|q|] == q {
        assert OccursAt(s, q, 0);
      } else {
        IncludesIffOccurs(s[1..], q);
        forall i | OccursAt(s, q, i)
          ensures OccursAt(s[1..], q, i - 1)
        {
          assert i != 0 by { assert s[0..|q|] == s[..|q|]; }
          assert s[1..][i - 1..i - 1 + |q|] == s[i..i + |q|];
        }
        if Includes(s[1..], q) {
          var i :| OccursAt(s[1..], q, i);
          assert s[i + 1..i + 1 + |q|] == s[1..][i..i + |q|];
          assert OccursAt(s, q, i + 1);
        }
      }
    }
  }

  // ---------------------------------------------------------------------------
  // Decimal digits: String(n), padStart(2, '0') and parseInt(s, 10)

  predicate IsDigit(c: char) {
    '0' <= c <= '9'
  }

  predicate AllDigits(s: string) {
    forall i :: 0 <= i < |s| ==> IsDigit(s[i])
  }

  function DigitChar(d: int): (c: char)
    requires 0 <= d <= 9
  {
    ('0' as int + d) as char
  }

  function DigitValue(c: char): int
    requires IsDigit(c)
  {
    c as int - '0' as int
  }

  /** The value of a string of decimal digits, most significant first. */
  function DecimalValue(ds: string): nat
    requires AllDigits(ds)
  {
    if ds == [] then 0 else DecimalValue(ds[..|ds| - 1]) * 10 + DigitValue(ds[|ds| - 1])
  }

  /** Number.MAX_SAFE_INTEGER: up to it every integer is a JavaScript number, and `String(n)`
      writes plain digits (exponent notation starts at 10^21). */
  const MaxSafeInteger: int := 9007199254740991

  /** `String(n)` for a non-negative integer: its decimal digits without leading zeros. */
  function Decimal(n: nat): (r: string)
    ensures |r| >= 1 && AllDigits(r)
    ensures |r| == 1 <==> n < 10
    ensures r[0] == '0' ==> n == 0
  {
    if n < 10 then [DigitChar(n)] else Decimal(n / 10) + [DigitChar(n % 10)]
  }

  /** Reading back the digits of `String(n)` gives n. */
  lemma {:induction false} DecimalRoundTrip(n: nat)
    ensures DecimalValue(Decimal(n)) == n
  {
    if n >= 10 {
      var d := Decimal(n);
      assert d[..|d| - 1] == Decimal(n / 10);
      DecimalRoundTrip(n / 10);
    }
  }

  /** `String(n).padStart(2, '0')`. */
  function Pad2(n: nat): (r: string)
    ensures |r| >= 2 && AllDigits(r)
    ensures n < 100 <==> |r| == 2
    ensures DecimalValue(r) == n
  {
    DecimalRoundTrip(n);
    var d := Decimal(n);
    if |d| < 2 then
      assert d[..0] == [];
      assert (['0'] + d)[..1] == ['0'];
      ['0'] + d
    else
      assert n >= 10 ==> |Decimal(n / 10)| >= 1;
      assert n >= 100 ==> |Decimal(n / 10)| >= 2;
      d
  }

  /** The longest prefix of s made of decimal digits. */
  function DigitPrefix(s: string): (r: string)
    ensures |r| <= |s| && r == s[..|r|] && AllDigits(r)
    ensures |r| < |s| ==> !IsDigit(s[|r|])
  {
    if s != [] && IsDigit(s[0]) then [s[0]] + DigitPrefix(s[1..]) else []
  }

  /** `parseInt(s, 10)`: optional leading white space, an optional sign, then the longest run of
      decimal digits; no digits at all gives NaN, here None. */
  function ParseInt(s: string): Option<int> {
    var t := TrimStart(s);
    var negative := t != [] && t[0] == '-';
    var unsigned := if t != [] && (t[0] == '-' || t[0] == '+') then t[1..] else t;
    var digits := DigitPrefix(unsigned);
    if digits == [] then None
    else
      var v: int := DecimalValue(digits);
      Some(if negative then -v else v)
  }

  /** A string of digits is its own longest digit prefix. */
  lemma {:induction false} DigitPrefixOfDigits(s: string)
    requires AllDigits(s)
    ensures DigitPrefix(s) == s
  {
    if s != [] {
      DigitPrefixOfDigits(s[1..]);
    }
  }

  /** parseInt of a non-empty string of digits is the value of those digits. */
  lemma {:induction false} ParseDigits(d: string)
    requires d != [] && AllDigits(d)
    ensures ParseInt(d) == Some(DecimalValue(d) as int)
  {
    assert IsDigit(d[0]);
    assert TrimStart(d) == d;
    DigitPrefixOfDigits(d);
  }

  /** parseInt of a minus sign followed by digits is the negated value of those digits. */
  lemma {:induction false} ParseNegativeDigits(d: string)
    requires d != [] && AllDigits(d)
    ensures ParseInt("-" + d) == Some(-(DecimalValue(d) as int))
  {
    var s := "-" + d;
    assert s[0] == '-';
    assert TrimStart(s) == s;
    assert s[1..] == d;
    DigitPrefixOfDigits(d);
  }

  /** parseInt reads back what String(n) wrote, for n a safe integer. */
  lemma {:induction false} ParseDecimal(n: nat)
    requires n <= MaxSafeInteger
    ensures ParseInt(Decimal(n)) == Some(n as int)
  {
    ParseDigits(Decimal(n));
    DecimalRoundTrip(n);
  }

  /** parseInt reads back a minus sign followed by String(n), for n a safe integer. */
  lemma {:induction false} ParseNegativeDecimal(n: nat)
    requires n <= MaxSafeInteger
    ensures ParseInt("-" + Decimal(n)) == Some(-(n as int))
  {
    ParseNegativeDigits(Decimal(n));
    DecimalRoundTrip(n);
  }

  // ---------------------------------------------------------------------------
  // Arrays

  /** Array.prototype.filter: the elements that `keep` accepts, in their order. */
  function Filter<T>(s: seq<T>, keep: T -> bool): (r: seq<T>)
    ensures |r| <= |s|
    ensures forall i :: 0 <= i < |r| ==> r[i] in s && keep(r[i])
    ensures forall i :: 0 <= i < |s| && keep(s[i]) ==> s[i] in r
  {
    if s == [] then [] else (if keep(s[0]) then [s[0]] else []) + Filter(s[1..], keep)
  }

  /** Filtering distributes over concatenation, so it keeps the relative order of what it keeps. */
  lemma {:induction false} FilterConcat<T>(a: seq<T>, b: seq<T>, keep: T -> bool)
    ensures Filter(a + b, keep) == Filter(a, keep) + Filter(b, keep)
  {
    if a == [] {
      assert a + b == b;
    } else {
      assert (a + b)[0] == a[0];
      assert (a + b)[1..] == a[1..] + b;
      FilterConcat(a[1..], b, keep);
    }
  }

  /** Filtering a sequence without repeated elements gives one without repeated elements. */
  lemma {:induction false} FilterNoRepeats<T>(s: seq<T>, keep: T -> bool)
    requires forall i, j :: 0 <= i < j < |s| ==> s[i] != s[j]
    ensures forall i, j :: 0 <= i < j < |Filter(s, keep)| ==> Filter(s, keep)[i] != Filter(s, keep)[j]
  {
    if s != [] {
      FilterNoRepeats(s[1..], keep);
      var rest := Filter(s[1..], keep);
      assert s[0] !in s[1..];
      assert s[0] !in rest;
    }
  }

  /** Filtering a sequence whose elements are all kept changes nothing. */
  lemma {:induction false} FilterKeepsAll<T>(s: seq<T>, keep: T -> bool)
    requires forall i :: 0 <= i < |s| ==> keep(s[i])
    ensures Filter(s, keep) == s
  {
    if s != [] {
      FilterKeepsAll(s[1..], keep);
    }
  }

  /** Filtering out the one rejected element at position i leaves the others in their order. */
  lemma {:induction false} FilterDropsOne<T>(s: seq<T>, keep: T -> bool, i: int)
    requires 0 <= i < |s| && !keep(s[i])
    requires forall j :: 0 <= j < |s| && j != i ==> keep(s[j])
    ensures Filter(s, keep) == s[..i] + s[i + 1..]
  {
    var front, back := s[..i], s[i + 1..];
    assert s == front + ([s[i]] + back);
    FilterConcat(front, [s[i]] + back, keep);
    assert ([s[i]] + back)[0] == s[i];
    assert ([s[i]] + back)[1..] == back;
    assert Filter([s[i]] + back, keep) == Filter(back, keep);
    assert forall j :: 0 <= j < |front| ==> keep(front[j]) by {
      forall j | 0 <= j < |front| ensures keep(front[j]) {
        assert front[j] == s[j];
      }
    }
    FilterKeepsAll(front, keep);
    assert forall j :: 0 <= j < |back| ==> keep(back[j]) by {
      forall j | 0 <= j < |back| ensures keep(back[j]) {
        assert back[j] == s[i + 1 + j];
      }
    }
    FilterKeepsAll(back, keep);
  }

  // ---------------------------------------------------------------------------
  // Node's setTimeout

  /** The largest delay Node's setTimeout honours: 2^31 - 1 milliseconds. */
  const TimeoutMax: int := 2147483647

  /** The delay Node's setTimeout arms for a requested one: NaN (None), a delay below 1 ms
      and a delay above TimeoutMax are all replaced by 1 ms. */
  function ArmDelay(requested: Option<int>): (d: int)
    ensures 1 <= d <= TimeoutMax
    ensures requested.Some? && 1 <= requested.value <= TimeoutMax ==> d == requested.value
    ensures d != 1 ==> requested == Some(d)
  {
    if requested.Some? && 1 <= requested.value <= TimeoutMax then requested.value else 1
  }
}
