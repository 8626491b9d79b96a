/** UTC timestamps and the text form in which `_commit_trail` stores them:
    `strftime("%Y-%m-%dT%H:%M:%S.%f%z")` followed by `.replace("+0000", "Z")`. */
module Timestamps {
  import opened Errors
  import opened Text

  /** A timezone-aware UTC `datetime`, as `utils.now()` returns it. */
  datatype Timestamp = Timestamp(
    year: nat, month: nat, day: nat,
    hour: nat, minute: nat, second: nat, microsecond: nat)
  {
    /** The ranges a `datetime` enforces on its fields, with years from 1000
        on: there `%Y` writes four digits on every platform. */
    predicate Valid()
    {
      && 1000 <= year <= 9999
      && 1 <= month <= 12
      && 1 <= day <= DaysInMonth(year, month)
      && hour < 24 && minute < 60 && second < 60
      && microsecond < 1000000
    }
  }

  predicate IsLeapYear(y: nat) { y % 4 == 0 && (y % 100 != 0 || y % 400 == 0) }

  function DaysInMonth(y: nat, m: nat): nat
  {
    if m == 2 then (if IsLeapYear(y) then 29 else 28)
    else if m == 4 || m == 6 || m == 9 || m == 11 then 30
    else 31
  }

  /** Everything `strftime` writes before the `%z` offset. */
  function Fields(t: Timestamp): string
  {
    ZeroPad(t.year, 4) + "-" + ZeroPad(t.month, 2) + "-" + ZeroPad(t.day, 2) + "T"
    + ZeroPad(t.hour, 2) + ":" + ZeroPad(t.minute, 2) + ":" + ZeroPad(t.second, 2)
    + "." + ZeroPad(t.microsecond, 6)
  }

  /** `strftime("%Y-%m-%dT%H:%M:%S.%f%z")` of a UTC datetime: `%z` is "+0000". */
  function Strftime(t: Timestamp): string
  {
    Fields(t) + "+0000"
  }

  /** The stored text of a timestamp (gittrail/core.py:67-68). */
  function IsoUtc(t: Timestamp): string
  {
    ReplaceAll(Strftime(t), "+0000", "Z")
  }

  /** Reading a stored timestamp back: the layout `YYYY-MM-DDTHH:MM:SS.ffffffZ`
      with in-range fields, or None. */
  function ParseIsoUtc(r: string): Option<Timestamp>
  {
    if && |r| == 27
       && r[4] == '-' && r[7] == '-' && r[10] == 'T' && r[13] == ':' && r[16] == ':'
       && r[19] == '.' && r[26] == 'Z'
       && AllDigits(r[0..4]) && AllDigits(r[5..7]) && AllDigits(r[8..10])
       && AllDigits(r[11..13]) && AllDigits(r[14..16]) && AllDigits(r[17..19])
       && AllDigits(r[20..26])
    then
      var t := Timestamp(Value(r[0..4]), Value(r[5..7]), Value(r[8..10]),
                         Value(r[11..13]), Value(r[14..16]), Value(r[17..19]),
                         Value(r[20..26]));
      if t.Valid() then Some(t) else None
    else None
  }

  lemma NoPlusInDigits(s: string)
    requires AllDigits(s)
    ensures '+' !in s
  {
  }

  lemma FieldWidth(n: nat, w: nat)
    requires 1 <= w && n < Pow10(w)
    ensures |ZeroPad(n, w)| == w && AllDigits(ZeroPad(n, w)) && '+' !in ZeroPad(n, w)
    ensures Value(ZeroPad(n, w)) == n
  {
    ZeroPadWidth(n, w);
    ZeroPadValue(n, w);
    NoPlusInDigits(ZeroPad(n, w));
  }

  lemma FieldWidths(t: Timestamp)
    requires t.Valid()
    ensures |ZeroPad(t.year, 4)| == 4 && AllDigits(ZeroPad(t.year, 4)) && '+' !in ZeroPad(t.year, 4)
    ensures |ZeroPad(t.month, 2)| == 2 && AllDigits(ZeroPad(t.month, 2)) && '+' !in ZeroPad(t.month, 2)
    ensures |ZeroPad(t.day, 2)| == 2 && AllDigits(ZeroPad(t.day, 2)) && '+' !in ZeroPad(t.day, 2)
    ensures |ZeroPad(t.hour, 2)| == 2 && AllDigits(ZeroPad(t.hour, 2)) && '+' !in ZeroPad(t.hour, 2)
    ensures |ZeroPad(t.minute, 2)| == 2 && AllDigits(ZeroPad(t.minute, 2)) && '+' !in ZeroPad(t.minute, 2)
    ensures |ZeroPad(t.second, 2)| == 2 && AllDigits(ZeroPad(t.second, 2)) && '+' !in ZeroPad(t.second, 2)
    ensures |ZeroPad(t.microsecond, 6)| == 6 && AllDigits(ZeroPad(t.microsecond, 6))
    ensures '+' !in ZeroPad(t.microsecond, 6)
    ensures Value(ZeroPad(t.year, 4)) == t.year && Value(ZeroPad(t.month, 2)) == t.month
    ensures Value(ZeroPad(t.day, 2)) == t.day && Value(ZeroPad(t.hour, 2)) == t.hour
    ensures Value(ZeroPad(t.minute, 2)) == t.minute && Value(ZeroPad(t.second, 2)) == t.second
    ensures Value(ZeroPad(t.microsecond, 6)) == t.microsecond
  {
    assert Pow10(2) == 100 && Pow10(4) == 10000 && Pow10(6) == 1000000;
    FieldWidth(t.year, 4);
    FieldWidth(t.month, 2);
    FieldWidth(t.day, 2);
    FieldWidth(t.hour, 2);
    FieldWidth(t.minute, 2);
    FieldWidth(t.second, 2);
    FieldWidth(t.microsecond, 6);
  }

  /** The replacement touches only the offset: the stored text is the fields
      followed by "Z", 27 characters in all. */
  lemma IsoUtcShape(t: Timestamp)
    requires t.Valid()
    ensures IsoUtc(t) == Fields(t) + "Z"
    ensures |IsoUtc(t)| == 27 && IsoUtc(t)[26] == 'Z'
  {
    FieldWidths(t);
    ReplaceOnlyAtEnd(Fields(t), "+0000", "Z");
  }

  /** The stored layout: seven digit fields between fixed separators. */
  function Layout(y: string, mo: string, d: string, h: string, mi: string, sec: string,
                  us: string): string
  {
    y + "-" + mo + "-" + d + "T" + h + ":" + mi + ":" + sec + "." + us + "Z"
  }

  /** Where each field of the layout sits. */
  lemma LayoutSlices(y: string, mo: string, d: string, h: string, mi: string, sec: string,
                     us: string)
    requires |y| == 4 && |mo| == 2 && |d| == 2 && |h| == 2 && |mi| == 2 && |sec| == 2 && |us| == 6
    ensures var r := Layout(y, mo, d, h, mi, sec, us);
      && |r| == 27
      && r[4] == '-' && r[7] == '-' && r[10] == 'T' && r[13] == ':' && r[16] == ':'
      && r[19] == '.' && r[26] == 'Z'
      && r[0..4] == y && r[5..7] == mo && r[8..10] == d && r[11..13] == h
      && r[14..16] == mi && r[17..19] == sec && r[20..26] == us
  {
    var r := Layout(y, mo, d, h, mi, sec, us);
    var p := y + "-" + mo + "-" + d + "T" + h + ":" + mi + ":" + sec + ".";
    assert r == p + us + "Z";
    assert p[0..4] == y && p[5..7] == mo && p[8..10] == d && p[11..13] == h;
    assert p[14..16] == mi && p[17..19] == sec;
  }

  /** A text with the separators in place is the layout of its own fields. */
  lemma LayoutOfSlices(r: string)
    requires |r| == 27
    requires r[4] == '-' && r[7] == '-' && r[10] == 'T' && r[13] == ':' && r[16] == ':'
    requires r[19] == '.' && r[26] == 'Z'
    ensures r == Layout(r[0..4], r[5..7], r[8..10], r[11..13], r[14..16], r[17..19], r[20..26])
  {
    var l := Layout(r[0..4], r[5..7], r[8..10], r[11..13], r[14..16], r[17..19], r[20..26]);
    LayoutSlices(r[0..4], r[5..7], r[8..10], r[11..13], r[14..16], r[17..19], r[20..26]);
    assert forall i :: 0 <= i < 4 ==> l[i] == l[0..4][i] == r[i];
    assert forall i :: 5 <= i < 7 ==> l[i] == l[5..7][i - 5] == r[i];
    assert forall i :: 8 <= i < 10 ==> l[i] == l[8..10][i - 8] == r[i];
    assert forall i :: 11 <= i < 13 ==> l[i] == l[11..13][i - 11] == r[i];
    assert forall i :: 14 <= i < 16 ==> l[i] == l[14..16][i - 14] == r[i];
    assert forall i :: 17 <= i < 19 ==> l[i] == l[17..19][i - 17] == r[i];
    assert forall i :: 20 <= i < 26 ==> l[i] == l[20..26][i - 20] == r[i];
  }

  /** Writing a timestamp and reading it back gives the same timestamp. */
  lemma IsoUtcRoundTrip(t: Timestamp)
    requires t.Valid()
    ensures ParseIsoUtc(IsoUtc(t)) == Some(t)
  {
    IsoUtcShape(t);
    FieldWidths(t);
    LayoutSlices(ZeroPad(t.year, 4), ZeroPad(t.month, 2), ZeroPad(t.day, 2), ZeroPad(t.hour, 2),
                 ZeroPad(t.minute, 2), ZeroPad(t.second, 2), ZeroPad(t.microsecond, 6));
  }

  /** Every text that reads back as a timestamp is exactly what writing that
      timestamp produces: the stored format has one spelling per instant. */
  lemma ParseIsoUtcExact(r: string, t: Timestamp)
    requires ParseIsoUtc(r) == Some(t)
    ensures t.Valid() && IsoUtc(t) == r
  {
    ZeroPadOfValue(r[0..4]);
    ZeroPadOfValue(r[5..7]);
    ZeroPadOfValue(r[8..10]);
    ZeroPadOfValue(r[11..13]);
    ZeroPadOfValue(r[14..16]);
    ZeroPadOfValue(r[17..19]);
    ZeroPadOfValue(r[20..26]);
    IsoUtcShape(t);
    LayoutOfSlices(r);
  }
}
