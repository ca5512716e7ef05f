/**
 * The address of the city calendar's day view: a fixed base, then the
 * year, month and day as query parameters, each printed in unpadded
 * decimal (Python's `str` of an `int`). The date is a parameter; the
 * script takes it from the clock.
 */
module CalendarUrl {
  import opened Wrappers

  const Base: string := "https://www.city.fukuchiyama.lg.jp/calendar/index.php?dsp=1"

  datatype Date = Date(year: nat, month: nat, day: nat)

  predicate IsDigit(c: char) { '0' <= c <= '9' }

  predicate AllDigits(s: string) { forall i :: 0 <= i < |s| ==> IsDigit(s[i]) }

  /** A non-empty run of digits with no leading zero, unless it is "0" itself. */
  predicate Canonical(s: string) {
    |s| >= 1 && AllDigits(s) && (s[0] == '0' ==> |s| == 1)
  }

  function DigitChar(d: nat): (c: char)
    requires d < 10
    ensures IsDigit(c) && c as int - '0' as int == d
  {
    ('0' as int + d) as char
  }

  /** The digits of `n` in base 10, most significant first, without padding. */
  function Decimal(n: nat): (s: string)
    ensures Canonical(s)
    ensures (s[0] == '0') == (n == 0)
    decreases n
  {
    if n < 10 then [DigitChar(n)] else Decimal(n / 10) + [DigitChar(n % 10)]
  }

  /** The number a string of decimal digits denotes (leading zeros allowed). */
  function DigitsValue(s: string): nat
    requires AllDigits(s)
  {
    if s == [] then 0
    else DigitsValue(s[..|s| - 1]) * 10 + (s[|s| - 1] as int - '0' as int)
  }

  lemma {:induction false} DecimalValue(n: nat)
    ensures DigitsValue(Decimal(n)) == n
    decreases n
  {
    if n >= 10 {
      var s := Decimal(n);
      assert s[..|s| - 1] == Decimal(n / 10);
      DecimalValue(n / 10);
    }
  }

  lemma {:induction false} ZeroValueAllZeros(s: string)
    requires AllDigits(s) && DigitsValue(s) == 0
    ensures forall i :: 0 <= i < |s| ==> s[i] == '0'
  {
    if s != [] {
      ZeroValueAllZeros(s[..|s| - 1]);
    }
  }

  /** The other direction: a canonical digit string is what Decimal prints for its value. */
  lemma {:induction false} CanonicalIsDecimal(s: string)
    requires Canonical(s)
    ensures Decimal(DigitsValue(s)) == s
  {
    if |s| > 1 {
      var p := s[..|s| - 1];
      var d := s[|s| - 1] as int - '0' as int;
      assert Canonical(p);
      CanonicalIsDecimal(p);
      if DigitsValue(p) == 0 {
        ZeroValueAllZeros(p);
        assert false;
      }
      var v := DigitsValue(s);
      assert v / 10 == DigitsValue(p) && v % 10 == d;
      assert s == p + [s[|s| - 1]];
    }
  }

  /**
   * The query parameters after Base: year, month and day in that order
   * (grouped from the right, the way ParseQuery reads them).
   */
  function Query(date: Date): string {
    "&y=" + Decimal(date.year) + ("&m=" + Decimal(date.month) + ("&d=" + Decimal(date.day)))
  }

  /**
   * The day view of the city calendar for `date` (line 27 of the script):
   * it starts with Base, and ParseUrl reads `date` back from it.
   */
  function Url(date: Date): (r: string)
    ensures Base <= r
    ensures ParseUrl(r) == Some(date)
  {
    var r := Base + Query(date);
    assert Base <= r && r[|Base|..] == Query(date);
    ParseOfQuery(date);
    r
  }

  /** The length of the run of digits at the front of `s`. */
  function DigitRun(s: string): (n: nat)
    ensures n <= |s|
    ensures AllDigits(s[..n])
    ensures n == |s| || !IsDigit(s[n])
  {
    if s == [] || !IsDigit(s[0]) then 0
    else
      var m := DigitRun(s[1..]);
      assert s[..m + 1] == [s[0]] + s[1..][..m];
      1 + m
  }

  lemma {:induction false} DigitRunOf(a: string, b: string)
    requires AllDigits(a)
    requires b == [] || !IsDigit(b[0])
    ensures DigitRun(a + b) == |a|
  {
    if a == [] {
      assert a + b == b;
    } else {
      var s := a + b;
      assert s[0] == a[0] && IsDigit(s[0]);
      assert s[1..] == a[1..] + b;
      DigitRunOf(a[1..], b);
    }
  }

  /** A number read from the front of a string, and what follows it. */
  datatype Reading = Reading(n: nat, rest: string)

  /** Reads `key`, then a canonical number, from the front of `s`. */
  function Param(key: string, s: string): Option<Reading> {
    if !(key <= s) then None
    else
      var t := s[|key|..];
      var n := DigitRun(t);
      if Canonical(t[..n]) then Some(Reading(DigitsValue(t[..n]), t[n..])) else None
  }

  lemma ParamOf(key: string, n: nat, rest: string)
    requires rest == [] || !IsDigit(rest[0])
    ensures Param(key, key + Decimal(n) + rest) == Some(Reading(n, rest))
  {
    var s := key + Decimal(n) + rest;
    var t := s[|key|..];
    assert key <= s;
    assert t == Decimal(n) + rest;
    DigitRunOf(Decimal(n), rest);
    assert t[..|Decimal(n)|] == Decimal(n) && t[|Decimal(n)|..] == rest;
    DecimalValue(n);
  }

  lemma ParamInverse(key: string, s: string)
    requires Param(key, s).Some?
    ensures s == key + Decimal(Param(key, s).value.n) + Param(key, s).value.rest
  {
    var t := s[|key|..];
    var n := DigitRun(t);
    CanonicalIsDecimal(t[..n]);
    assert t == t[..n] + t[n..];
    assert s == key + t;
  }

  /**
   * Reads a date back from a calendar address; the inverse of Url. It accepts
   * only canonical numbers, so that one date has exactly one address.
   */
  function ParseUrl(s: string): Option<Date> {
    if Base <= s then ParseQuery(s[|Base|..]) else None
  }

  function ParseQuery(q: string): Option<Date> {
    var y := Param("&y=", q);
    if y.None? then None
    else
      var m := Param("&m=", y.value.rest);
      if m.None? then None
      else
        var d := Param("&d=", m.value.rest);
        if d.None? || d.value.rest != [] then None
        else Some(Date(y.value.n, m.value.n, d.value.n))
  }

  lemma ParseOfQuery(date: Date)
    ensures ParseQuery(Query(date)) == Some(date)
  {
    var r2 := "&d=" + Decimal(date.day);
    var r1 := "&m=" + Decimal(date.month) + r2;
    assert r2 + [] == r2;
    ParamOf("&y=", date.year, r1);
    ParamOf("&m=", date.month, r2);
    ParamOf("&d=", date.day, []);
  }

  lemma QueryOfParse(q: string, date: Date)
    requires ParseQuery(q) == Some(date)
    ensures Query(date) == q
  {
    var y := Param("&y=", q).value;
    var m := Param("&m=", y.rest).value;
    var d := Param("&d=", m.rest).value;
    assert d.rest == [] && date == Date(y.n, m.n, d.n);
    ParamInverse("&y=", q);
    ParamInverse("&m=", y.rest);
    ParamInverse("&d=", m.rest);
    assert m.rest == "&d=" + Decimal(date.day) + [];
  }

  lemma UrlOfParse(s: string, date: Date)
    requires ParseUrl(s) == Some(date)
    ensures Url(date) == s
  {
    var q := s[|Base|..];
    assert s == Base + q;
    QueryOfParse(q, date);
  }

  /** Url and ParseUrl are inverse: an address denotes a date exactly when Url prints it. */
  lemma UrlParseInverse(s: string, date: Date)
    ensures ParseUrl(s) == Some(date) <==> Url(date) == s
  {
    if ParseUrl(s) == Some(date) { UrlOfParse(s, date); }
  }

  /** Distinct dates give distinct addresses. */
  lemma UrlInjective(a: Date, b: Date)
    requires Url(a) == Url(b)
    ensures a == b
  {
    assert Some(a) == ParseUrl(Url(a)) == ParseUrl(Url(b)) == Some(b);
  }
}
