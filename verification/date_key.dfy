/** The history page's date key `toDateStr(y, m, d)`: year, 1-based month
    and day joined by `-`, month and day zero-padded to two characters. */
module DateKey {
  import opened Optional
  import opened Decimal

  /** A calendar day with a 0-based month, as the page passes it around. */
  datatype Ymd = Ymd(year: int, month: int, day: int)

  function ToDateStr(y: int, m: int, d: int): (s: string)
    ensures |s| >= 7
  {
    IntToString(y) + "-" + PadStart(IntToString(m + 1), 2, '0') + "-" + PadStart(IntToString(d), 2, '0')
  }

  /** Reads a key back: the year is everything before the sixth-last
      character, the month and day are the two-digit fields after it. */
  function ParseDateKey(s: string): (r: Option<Ymd>)
  {
    if |s| < 7 || s[|s| - 6] != '-' || s[|s| - 3] != '-' then None
    else
      var year := ParseInt(s[..|s| - 6]);
      var month := ParseNat(s[|s| - 5..|s| - 3]);
      var day := ParseNat(s[|s| - 2..]);
      if year.Some? && month.Some? && day.Some? then
        Some(Ymd(year.value, month.value - 1, day.value))
      else None
  }

  /** Any year, a month whose 1-based number has at most two digits and a
      day of at most two digits survive the trip through the key. */
  lemma DateKeyRoundTrip(y: int, m: int, d: int)
    requires 0 <= m + 1 < 100 && 0 <= d < 100
    ensures ParseDateKey(ToDateStr(y, m, d)) == Some(Ymd(y, m, d))
  {
    TwoDigitRoundTrip(m + 1);
    TwoDigitRoundTrip(d);
    IntToStringRoundTrip(y);
    ParseJoined(IntToString(y), PadStart(IntToString(m + 1), 2, '0'), PadStart(IntToString(d), 2, '0'));
  }

  /** Where the three fields sit in a key whose month and day fields are
      two characters long. */
  lemma KeyFields(ys: string, ms: string, ds: string)
    requires |ms| == 2 && |ds| == 2
    ensures var s := ys + "-" + ms + "-" + ds;
      && |s| == |ys| + 6
      && s[|s| - 6] == '-' && s[|s| - 3] == '-'
      && s[..|s| - 6] == ys && s[|s| - 5..|s| - 3] == ms && s[|s| - 2..] == ds
  {
    var s := ys + "-" + ms + "-" + ds;
    assert s == ys + ("-" + ms + "-" + ds);
    assert s[|ys|..] == "-" + ms + "-" + ds;
  }

  /** The parser splits a joined key back into its three fields. */
  lemma ParseJoined(ys: string, ms: string, ds: string)
    requires |ms| == 2 && |ds| == 2 && |ys| >= 1
    ensures ParseDateKey(ys + "-" + ms + "-" + ds)
         == if ParseInt(ys).Some? && ParseNat(ms).Some? && ParseNat(ds).Some?
            then Some(Ymd(ParseInt(ys).value, ParseNat(ms).value - 1, ParseNat(ds).value))
            else None
  {
    KeyFields(ys, ms, ds);
  }

  /** Distinct days never share a history key. */
  lemma DateKeyInjective(a: Ymd, b: Ymd)
    requires 0 <= a.month + 1 < 100 && 0 <= a.day < 100
    requires 0 <= b.month + 1 < 100 && 0 <= b.day < 100
    ensures ToDateStr(a.year, a.month, a.day) == ToDateStr(b.year, b.month, b.day) <==> a == b
  {
    DateKeyRoundTrip(a.year, a.month, a.day);
    DateKeyRoundTrip(b.year, b.month, b.day);
  }

  /** For a four-digit year, a month in 0..11 and a day in 1..31 the key
      is exactly `YYYY-MM-DD`. */
  lemma DateKeyFormat(y: int, m: int, d: int)
    requires 1000 <= y <= 9999 && 0 <= m <= 11 && 1 <= d <= 31
    ensures |ToDateStr(y, m, d)| == 10
    ensures ToDateStr(y, m, d)[4] == '-' && ToDateStr(y, m, d)[7] == '-'
    ensures AllDigits(ToDateStr(y, m, d)[..4]) && DigitsValue(ToDateStr(y, m, d)[..4]) == y
    ensures AllDigits(ToDateStr(y, m, d)[5..7]) && DigitsValue(ToDateStr(y, m, d)[5..7]) == m + 1
    ensures AllDigits(ToDateStr(y, m, d)[8..]) && DigitsValue(ToDateStr(y, m, d)[8..]) == d
  {
    NatToStringLength(y);
    NatToStringRoundTrip(y);
    DateKeyRoundTrip(y, m, d);
    TwoDigitRoundTrip(m + 1);
    TwoDigitRoundTrip(d);
    KeyFields(IntToString(y), PadStart(IntToString(m + 1), 2, '0'), PadStart(IntToString(d), 2, '0'));
  }
}
