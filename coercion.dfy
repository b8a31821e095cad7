/** The small value coercions of the server: the "truthy literal" flags that the
    create and favourite endpoints store as 0/1, and `toInt`, which reads the
    `limit`/`offset` query parameters of the list endpoints. */
module Coercion {
  import opened Wrappers
  import opened JsText

  /** The JSON values a request body field can carry (objects and arrays are not modelled). */
  datatype JsValue = JsBool(b: bool) | JsNumber(x: real) | JsString(s: string) | JsNull | JsUndefined

  /** The flag coercion of the create endpoints (`is_active`, `is_required`,
      `is_favorite`): strict comparisons against true, 'true', 'on', 1 and '1'. */
  function CreateFlag(v: JsValue): (r: int)
    ensures r == 0 || r == 1
  {
    if v == JsBool(true) || v == JsString("true") || v == JsString("on")
       || v == JsNumber(1.0) || v == JsString("1")
    then 1 else 0
  }

  /** The flag coercion of the favourite toggle (and of the CSV import paths):
      the same comparisons without 'on'. */
  function FavoriteToggleFlag(v: JsValue): (r: int)
    ensures r == 0 || r == 1
  {
    if v == JsBool(true) || v == JsString("true") || v == JsNumber(1.0) || v == JsString("1")
    then 1 else 0
  }

  /** The two literal sets differ in exactly one value: the checkbox string 'on'. */
  lemma ToggleDiffersOnlyOnOn(v: JsValue)
    ensures FavoriteToggleFlag(v) != CreateFlag(v) <==> v == JsString("on")
    ensures v == JsString("on") ==> CreateFlag(v) == 1 && FavoriteToggleFlag(v) == 0
  {
  }

  /** Anything that is not one of the five literals is stored as 0: a string that
      merely looks true, the number 2 or false. */
  lemma CreateFlagLiterals(v: JsValue)
    ensures CreateFlag(v) == 1 <==> v in {JsBool(true), JsString("true"), JsString("on"), JsNumber(1.0), JsString("1")}
  {
  }

  /** The favourite toggle stores 1 for exactly four literals: true, 'true', 1 and '1'. */
  lemma FavoriteToggleLiterals(v: JsValue)
    ensures FavoriteToggleFlag(v) == 1 <==> v in {JsBool(true), JsString("true"), JsNumber(1.0), JsString("1")}
  {
  }

  /** The web form turns every checkbox into a JSON boolean before posting, so on
      that path both coercions agree and store exactly the checkbox state. */
  lemma CheckboxBooleansAgree(b: bool)
    ensures CreateFlag(JsBool(b)) == FavoriteToggleFlag(JsBool(b)) == (if b then 1 else 0)
  {
  }

  // ---- parseInt(value, 10) and toInt ------------------------------------------

  predicate IsDigit(c: char) {
    '0' <= c <= '9'
  }

  predicate AllDigits(s: string) {
    forall i :: 0 <= i < |s| ==> IsDigit(s[i])
  }

  /** Length of the longest prefix of `s` made of decimal digits. */
  function DigitRun(s: string): (n: nat)
    ensures n <= |s| && AllDigits(s[..n])
    ensures n < |s| ==> !IsDigit(s[n])
  {
    if s != [] && IsDigit(s[0]) then
      var n := 1 + DigitRun(s[1..]);
      assert forall i :: 1 <= i < n ==> s[..n][i] == s[1..][..n - 1][i - 1];
      n
    else 0
  }

  /** The value of a string of decimal digits, most significant first. */
  function DigitsValue(d: string): nat
    requires AllDigits(d)
  {
    if d == [] then 0
    else DigitsValue(d[..|d| - 1]) * 10 + (d[|d| - 1] as int - '0' as int)
  }

  /** `parseInt(s, 10)`: skip leading whitespace, then read a signed decimal;
      None stands for NaN. The value is the exact integer of the digits; the
      source's double agrees with it up to `MaxSafeInteger` in magnitude. */
  function ParseInt(s: string): Option<int> {
    ParseSigned(TrimStart(s))
  }

  /** An optional sign followed by the longest run of decimal digits; None when
      there is no digit at all. */
  function ParseSigned(t: string): Option<int> {
    var negative := t != [] && t[0] == '-';
    var body := if t != [] && (t[0] == '-' || t[0] == '+') then t[1..] else t;
    var n := DigitRun(body);
    if n == 0 then None
    else
      var magnitude: int := DigitsValue(body[..n]);
      Some(if negative then -magnitude else magnitude)
  }

  /** `toInt(value, fallback)`: the parsed integer, or the fallback when
      `parseInt` gives NaN. An absent query parameter is `undefined`, which
      `parseInt` reads as the text "undefined". */
  function ToInt(value: Option<string>, fallback: int): int {
    var text := if value.Some? then value.value else "undefined";
    match ParseInt(text)
    case None => fallback
    case Some(n) => n
  }

  // ---- decimal rendering, the inverse that the query strings come from --------

  function DigitChar(d: nat): (c: char)
    requires d < 10
    ensures IsDigit(c) && c as int - '0' as int == d
  {
    (d + '0' as int) as char
  }

  /** The decimal rendering of a natural number (`String(n)`). */
  function NatToString(n: nat): (s: string)
    ensures |s| >= 1 && AllDigits(s)
  {
    if n < 10 then [DigitChar(n)] else NatToString(n / 10) + [DigitChar(n % 10)]
  }

  /** The decimal rendering of an integer, with a leading '-' when negative. */
  function IntToString(n: int): string {
    if n < 0 then "-" + NatToString(-n) else NatToString(n)
  }

  lemma {:induction false} NatToStringValue(n: nat)
    ensures DigitsValue(NatToString(n)) == n
  {
    var s := NatToString(n);
    if n >= 10 {
      NatToStringValue(n / 10);
      assert s[..|s| - 1] == NatToString(n / 10);
    }
  }

  lemma DigitRunOfDigitsThenStop(d: string, rest: string)
    requires AllDigits(d)
    requires rest == [] || !IsDigit(rest[0])
    ensures DigitRun(d + rest) == |d|
    decreases |d|
  {
    if d != [] {
      assert (d + rest)[1..] == d[1..] + rest;
      DigitRunOfDigitsThenStop(d[1..], rest);
    } else {
      assert d + rest == rest;
    }
  }

  /** `Number.MAX_SAFE_INTEGER`: up to this magnitude every integer is a double, so
      the exact value that `ParseInt` computes is the number `parseInt` returns. */
  const MaxSafeInteger: int := 0x1F_FFFF_FFFF_FFFF

  /** `parseInt` reads back what `String` wrote, and stops at the first character
      that is not a digit: `parseInt(String(n) + rest, 10) == n` for a safe integer. */
  lemma {:induction false} ParseIntOfRendering(n: int, rest: string)
    requires -MaxSafeInteger <= n <= MaxSafeInteger
    requires rest == [] || !IsDigit(rest[0])
    ensures ParseInt(IntToString(n) + rest) == Some(n)
  {
    var m := if n < 0 then -n else n;
    var d := NatToString(m);
    var s := IntToString(n) + rest;
    NatToStringValue(m);
    if n < 0 {
      assert s == "-" + (d + rest);
      assert s[0] == '-';
      TrimStartKeeps(s);
      ParseNegative(d, rest);
    } else {
      assert s == d + rest;
      assert s[0] == d[0];
      TrimStartKeeps(s);
      ParseUnsigned(d, rest);
    }
  }

  lemma TrimStartKeeps(s: string)
    requires s != [] && (s[0] == '-' || IsDigit(s[0]))
    ensures TrimStart(s) == s
  {
    assert !IsSpace(s[0]);
  }

  /** An unsigned run of digits ended by a non-digit reads as its value. */
  lemma ParseUnsigned(d: string, rest: string)
    requires AllDigits(d) && d != []
    requires rest == [] || !IsDigit(rest[0])
    ensures ParseSigned(d + rest) == Some(DigitsValue(d))
  {
    var body := d + rest;
    DigitRunOfDigitsThenStop(d, rest);
    assert body[..|d|] == d;
    assert body[0] == d[0];
  }

  /** The same run after a minus sign reads as the negated value. */
  lemma ParseNegative(d: string, rest: string)
    requires AllDigits(d) && d != []
    requires rest == [] || !IsDigit(rest[0])
    ensures ParseSigned("-" + (d + rest)) == Some(0 - DigitsValue(d))
  {
    var body := d + rest;
    var t := "-" + body;
    DigitRunOfDigitsThenStop(d, rest);
    assert body[..|d|] == d;
    assert t[0] == '-' && t[1..] == body;
  }

  /** `toInt` is the identity on rendered safe integers, whatever the fallback. */
  lemma ToIntOfRendering(n: int, fallback: int)
    requires -MaxSafeInteger <= n <= MaxSafeInteger
    ensures ToInt(Some(IntToString(n)), fallback) == n
  {
    ParseIntOfRendering(n, []);
    assert IntToString(n) + [] == IntToString(n);
  }

  /** Text without a digit (an empty parameter, "abc", or an absent one) gives the fallback. */
  lemma ToIntWithoutDigits(value: Option<string>, fallback: int)
    requires value.Some? ==> forall i :: 0 <= i < |value.value| ==> !IsDigit(value.value[i])
    ensures ToInt(value, fallback) == fallback
  {
    var text := if value.Some? then value.value else "undefined";
    assert forall i :: 0 <= i < |text| ==> !IsDigit(text[i]);
    var t := TrimStart(text);
    var body := if t != [] && (t[0] == '-' || t[0] == '+') then t[1..] else t;
    if body != [] {
      assert body[0] == text[|text| - |body|];
      assert !IsDigit(body[0]);
    }
    assert DigitRun(body) == 0;
  }
}
