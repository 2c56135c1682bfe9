/** The duration shown beside each timeblock in the detail panel:
    `45m`, `2h` or `1h 30m`. */
module TimeblockLabel {
  import opened Optional
  import opened Decimal
  import opened Search

  /** Under an hour the minutes as they are; otherwise whole hours, then
      the leftover minutes only when there are any. */
  function Label(minutes: int): (s: string)
    ensures |s| >= 2
    ensures s[|s| - 1] == 'h' <==> minutes >= 60 && minutes % 60 == 0
  {
    if minutes >= 60 then
      NatToString(minutes / 60) + "h" + (if minutes % 60 != 0 then " " + NatToString(minutes % 60) + "m" else "")
    else
      IntToString(minutes) + "m"
  }

  /** Reads a label back into minutes. Only the labels `Label` writes are
      accepted: `<m>m` with m below 60, `<h>h` with h at least 1, or
      `<h>h <m>m` with m in 1..59, every number without leading zeros. */
  function ParseLabel(s: string): (r: Option<int>)
  {
    match IndexOf(s, 'h')
    case None => ParseShortLabel(s)
    case Some(k) => ParseHoursLabel(s[..k], s[k + 1..])
  }

  /** `<m>m` with m below 60. */
  function ParseShortLabel(s: string): Option<int> {
    if |s| >= 1 && s[|s| - 1] == 'm' then
      match ParseCanonicalInt(s[..|s| - 1])
      case Some(v) => if v < 60 then Some(v) else None
      case None => None
    else None
  }

  /** The hours before the `h` and what follows it: nothing, or ` <m>m`
      with m in 1..59. */
  function ParseHoursLabel(hoursText: string, rest: string): Option<int> {
    match ParseCanonicalNat(hoursText)
    case None => None
    case Some(h) =>
      if h == 0 then None
      else if |rest| == 0 then Some(h * 60)
      else if |rest| >= 3 && rest[0] == ' ' && rest[|rest| - 1] == 'm' then
        match ParseCanonicalNat(rest[1..|rest| - 1])
        case Some(m) => if 1 <= m <= 59 then Some(h * 60 + m) else None
        case None => None
      else None
  }

  lemma NoLetterInDigits(s: string, c: char)
    requires AllDigits(s) && !IsDigit(c)
    ensures c !in s
  {
  }

  /** Reading the label back gives the duration: whole hours times 60 plus
      the leftover minutes. */
  lemma LabelRoundTrip(minutes: int)
    ensures ParseLabel(Label(minutes)) == Some(minutes)
  {
    if minutes >= 60 {
      HoursLabelRoundTrip(minutes);
    } else {
      MinutesLabelRoundTrip(minutes);
    }
  }

  lemma HoursLabelRoundTrip(minutes: int)
    requires minutes >= 60
    ensures ParseLabel(Label(minutes)) == Some(minutes)
  {
    HoursLabelShape(minutes);
    HoursFieldsRoundTrip(minutes / 60, minutes % 60);
  }

  /** `<h>h`, followed by ` <r>m` when r is not zero, reads back as h·60 + r. */
  lemma HoursFieldsRoundTrip(h: nat, r: nat)
    requires h >= 1 && r < 60
    ensures ParseLabel(NatToString(h) + ['h'] + HoursTail(r)) == Some(h * 60 + r)
  {
    var hs := NatToString(h);
    var tail := HoursTail(r);
    NoLetterInDigits(hs, 'h');
    SplitAtHours(hs, tail);
    NatToStringCanonical(h);
    if r != 0 {
      NatToStringCanonical(r);
      MinutesTail(NatToString(r), r);
      MinutesFieldParse(hs, tail, h, r);
    } else {
      WholeHoursParse(hs, h);
    }
  }

  /** What follows the `h` of a label with `r` leftover minutes. */
  function HoursTail(r: nat): string {
    if r != 0 then " " + NatToString(r) + "m" else ""
  }

  lemma HoursLabelShape(minutes: int)
    requires minutes >= 60
    ensures Label(minutes) == NatToString(minutes / 60) + ['h'] + HoursTail(minutes % 60)
  {
  }

  lemma WholeHoursParse(hs: string, h: nat)
    requires ParseCanonicalNat(hs) == Some(h) && h >= 1
    ensures ParseHoursLabel(hs, "") == Some(h * 60)
  {
  }

  /** The first `h` of a label ends its hours field. */
  lemma SplitAtHours(hs: string, tail: string)
    requires 'h' !in hs
    ensures ParseLabel(hs + ['h'] + tail) == ParseHoursLabel(hs, tail)
  {
    var s := hs + ['h'] + tail;
    IndexOfAfterPrefix(hs, 'h', tail);
    assert s[..|hs|] == hs;
    assert s[|hs| + 1..] == tail;
  }

  lemma MinutesTail(ms: string, r: nat)
    requires ParseCanonicalNat(ms) == Some(r)
    ensures var tail := " " + ms + "m";
      && |tail| >= 3 && tail[0] == ' ' && tail[|tail| - 1] == 'm'
      && ParseCanonicalNat(tail[1..|tail| - 1]) == Some(r)
  {
    assert (" " + ms + "m")[1..|ms| + 1] == ms;
  }

  lemma MinutesFieldParse(hs: string, tail: string, h: nat, r: nat)
    requires ParseCanonicalNat(hs) == Some(h) && h >= 1
    requires |tail| >= 3 && tail[0] == ' ' && tail[|tail| - 1] == 'm'
    requires ParseCanonicalNat(tail[1..|tail| - 1]) == Some(r) && 1 <= r <= 59
    ensures ParseHoursLabel(hs, tail) == Some(h * 60 + r)
  {
  }

  lemma MinutesLabelRoundTrip(minutes: int)
    requires minutes < 60
    ensures ParseLabel(Label(minutes)) == Some(minutes)
  {
    var s := Label(minutes);
    var ms := IntToString(minutes);
    assert s == ms + "m";
    assert 'h' !in s by {
      if minutes < 0 {
        NoLetterInDigits(ms[1..], 'h');
        assert s == ['-'] + ms[1..] + ['m'];
      } else {
        NoLetterInDigits(ms, 'h');
      }
    }
    assert s[..|s| - 1] == ms;
    IntToStringCanonical(minutes);
  }

  /** Every text the reader accepts is the label of the duration it reads:
      hours m div 60, then minutes m mod 60 only when they are non-zero. */
  lemma ParsedIsLabel(s: string)
    requires ParseLabel(s).Some?
    ensures Label(ParseLabel(s).value) == s
  {
    var m := ParseLabel(s).value;
    match IndexOf(s, 'h')
    case None =>
      assert s == s[..|s| - 1] + "m";
    case Some(k) =>
      var hs := s[..k];
      var rest := s[k + 1..];
      var h := ParseCanonicalNat(hs).value;
      assert s == hs + ['h'] + rest;
      if |rest| == 0 {
        assert m == h * 60 && m / 60 == h && m % 60 == 0;
      } else {
        var ms := rest[1..|rest| - 1];
        var r := ParseCanonicalNat(ms).value;
        assert m == h * 60 + r && m / 60 == h && m % 60 == r;
        assert rest == " " + ms + "m";
      }
  }

  /** Different durations never share a label. */
  lemma LabelInjective(a: int, b: int)
    ensures Label(a) == Label(b) <==> a == b
  {
    LabelRoundTrip(a);
    LabelRoundTrip(b);
  }
}
