/**
 * The Pixelman start-time string: `"%a %b %d %H:%M:%S." + sub + " %Y"` of the UTC
 * breakdown of the whole seconds of the start time, in the C locale, where `sub`
 * is the six-digit fraction printed by `"%.6f"`.
 */
module PixelmanTime {
  import opened Wrappers
  import opened Text
  import opened Calendar
  import opened Floats

  /** `%a` in the C locale, indexed by weekday (0 = Sunday). */
  const WeekdayNames: seq<string> := ["Sun", "Mon", "Tue", "Wed", "Thu", "Fri", "Sat"]

  /** `%b` in the C locale, indexed by month - 1. */
  const MonthNames: seq<string> :=
    ["Jan", "Feb", "Mar", "Apr", "May", "Jun", "Jul", "Aug", "Sep", "Oct", "Nov", "Dec"]

  /** `%02d`: two decimal digits. */
  function Pad2(n: int): (r: string)
    requires 0 <= n < 100
    ensures |r| == 2 && AllDigits(r) && DigitsValue(r) == n
  {
    var r := [DigitChar(n / 10), DigitChar(n % 10)];
    assert r[..1] == [DigitChar(n / 10)] && r[..1][..0] == [];
    assert DigitsValue(r[..1]) == n / 10;
    r
  }

  /**
   * The 20 characters `"%a %b %d %H:%M:%S."` of a calendar time, spelt out
   * character by character: `Www Mmm DD HH:MM:SS.`
   */
  function Head(t: CivilTime): (r: string)
    requires ValidTime(t)
    ensures |r| == 20
  {
    var w, m := WeekdayNames[t.weekday], MonthNames[t.date.month - 1];
    var d, hh, mm, ss := Pad2(t.date.day), Pad2(t.hour), Pad2(t.minute), Pad2(t.second);
    [w[0], w[1], w[2], ' ', m[0], m[1], m[2], ' ', d[0], d[1], ' ',
     hh[0], hh[1], ':', mm[0], mm[1], ':', ss[0], ss[1], '.']
  }

  /** The Pixelman timestamp of calendar time `t` with sub-second digits `sub`. */
  function Format(t: CivilTime, sub: string): string
    requires ValidTime(t)
  {
    Head(t) + sub + " " + IntToString(t.date.year)
  }

  /**
   * The whole seconds and the sub-second digits `getPixelmanTimeString` takes from
   * `st`: `int(str(st).split(".")[0])` and `("%.6f" % st).strip().split(".")[1]`.
   * `None` where Python raises (no integer before the point, no point after `%.6f`).
   */
  function TimeParts(st: Float, fl: FloatLib): Option<(int, string)>
  {
    var sec :- ParseInt(Split(fl.show(st), '.')[0]);
    var pieces := Split(Strip(fl.fixed6(st)), '.');
    if |pieces| < 2 then None else Some((sec, pieces[1]))
  }

  /** The derived start-time string of `getPixelmanTimeString`. */
  function TimeString(st: Float, fl: FloatLib): Option<string>
  {
    var parts :- TimeParts(st, fl);
    Some(Format(Gmtime(parts.0), parts.1))
  }

  /**
   * When `str(st)` is an integer followed by a fraction and `"%.6f" % st` has
   * sub-second digits `sub`, the timestamp is the breakdown of that integer
   * with `sub` in the seconds field.
   */
  lemma TimeStringOf(st: Float, fl: FloatLib, n: int, frac: string, ip: string, sub: string)
    requires fl.show(st) == IntToString(n) + "." + frac
    requires fl.fixed6(st) == ip + "." + sub
    requires NoSpace(ip) && NoSpace(sub) && '.' !in ip && '.' !in sub
    ensures TimeParts(st, fl) == Some((n, sub))
    ensures TimeString(st, fl) == Some(Format(Gmtime(n), sub))
  {
    WholeSecondsOf(n, frac);
    SubSecondsOf(ip, sub);
  }

  /** `int(x.split(".")[0])` of `str(n) + "." + frac` is `n`. */
  lemma WholeSecondsOf(n: int, frac: string)
    ensures ParseInt(Split(IntToString(n) + "." + frac, '.')[0]) == Some(n)
  {
    var x := IntToString(n) + "." + frac;
    IntToStringNoSpace(n);
    var firstDot := IndexOf(x, '.');
    assert x[|IntToString(n)|] == '.';
    assert firstDot == |IntToString(n)|;
    assert x[..firstDot] == IntToString(n);
    ParseIntOfString(n);
  }

  /** `x.strip().split(".")[1]` of `ip + "." + sub` is `sub`. */
  lemma SubSecondsOf(ip: string, sub: string)
    requires NoSpace(ip) && NoSpace(sub) && '.' !in ip && '.' !in sub
    ensures var pieces := Split(Strip(ip + "." + sub), '.'); |pieces| >= 2 && pieces[1] == sub
  {
    var x := ip + "." + sub;
    assert IsStripped(x);
    StripStripped(x);
    JoinTwo(ip, sub, '.');
    SplitJoin([ip, sub], '.');
  }

  /** Position of a name in a table of names. */
  function IndexIn(names: seq<string>, name: string): Option<nat>
  {
    if |names| == 0 then None
    else if names[0] == name then Some(0)
    else match IndexIn(names[1..], name)
      case Some(k) => Some(k + 1)
      case None => None
  }

  /** Position of the last occurrence of `c` in `s`. */
  function LastIndexOf(s: string, c: char): (r: Option<nat>)
    ensures r.Some? ==> r.value < |s| && s[r.value] == c && c !in s[r.value + 1..]
    ensures r.None? ==> c !in s
  {
    if |s| == 0 then None
    else if s[|s| - 1] == c then Some(|s| - 1)
    else
      var r := LastIndexOf(s[..|s| - 1], c);
      assert s == s[..|s| - 1] + [s[|s| - 1]];
      r
  }

  function TwoDigits(s: string): Option<int>
    requires |s| == 2
  {
    if AllDigits(s) then Some(DigitsValue(s)) else None
  }

  /**
   * The weekday, month (0-based), day, hour, minute and second of the
   * 20-character head `"%a %b %d %H:%M:%S."`.
   */
  function ReadHead(h: string): Option<(int, int, int, int, int, int)>
    requires |h| == 20
  {
    if h[3] != ' ' || h[7] != ' ' || h[10] != ' ' || h[13] != ':' || h[16] != ':' || h[19] != '.'
    then None
    else
      var wd :- IndexIn(WeekdayNames, h[0..3]);
      var mon :- IndexIn(MonthNames, h[4..7]);
      var day :- TwoDigits(h[8..10]);
      var hour :- TwoDigits(h[11..13]);
      var minute :- TwoDigits(h[14..16]);
      var second :- TwoDigits(h[17..19]);
      Some((wd, mon, day, hour, minute, second))
  }

  /** The sub-second text and the year after the head: split at the last space. */
  function ReadTail(rest: string): Option<(string, int)>
  {
    var sp :- LastIndexOf(rest, ' ');
    var year :- ParseInt(rest[sp + 1..]);
    Some((rest[..sp], year))
  }

  /**
   * Reads a Pixelman timestamp back into its calendar fields and its
   * sub-second text: the inverse of `Format` (see `ReadFormatRoundTrip`).
   */
  function ReadTimestamp(s: string): Option<(CivilTime, string)>
  {
    if |s| < 20 then None
    else
      var hd :- ReadHead(s[..20]);
      var tl :- ReadTail(s[20..]);
      Some((CivilTime(Date(tl.1, hd.1 + 1, hd.2), hd.3, hd.4, hd.5, hd.0), tl.0))
  }

  /** In a table without repeated names, a name is found at its own position. */
  lemma {:induction false} IndexInDistinct(names: seq<string>, k: nat)
    requires forall i, j :: 0 <= i < j < |names| ==> names[i] != names[j]
    requires k < |names|
    ensures IndexIn(names, names[k]) == Some(k)
  {
    if k > 0 {
      assert names[0] != names[k];
      assert names[1..][k - 1] == names[k];
      IndexInDistinct(names[1..], k - 1);
    }
  }

  /** Three letters packed into one number: equal names have equal codes. */
  function Code(name: string): int
    requires |name| == 3
  {
    (name[0] as int * 256 + name[1] as int) * 256 + name[2] as int
  }

  lemma WeekdayNameIndex(k: nat)
    requires k < 7
    ensures IndexIn(WeekdayNames, WeekdayNames[k]) == Some(k)
  {
    WeekdayNamesDistinct();
    IndexInDistinct(WeekdayNames, k);
  }

  lemma MonthNameIndex(k: nat)
    requires k < 12
    ensures IndexIn(MonthNames, MonthNames[k]) == Some(k)
  {
    MonthNamesDistinct();
    IndexInDistinct(MonthNames, k);
  }

  /** No weekday name is repeated: their codes differ. */
  lemma WeekdayNamesDistinct()
    ensures forall i, j :: 0 <= i < j < |WeekdayNames| ==> WeekdayNames[i] != WeekdayNames[j]
  {
    var codes := [Code("Sun"), Code("Mon"), Code("Tue"), Code("Wed"), Code("Thu"), Code("Fri"), Code("Sat")];
    assert forall i :: 0 <= i < 7 ==> |WeekdayNames[i]| == 3 && Code(WeekdayNames[i]) == codes[i];
  }

  /** No month name is repeated: their codes differ. */
  lemma MonthNamesDistinct()
    ensures forall i, j :: 0 <= i < j < |MonthNames| ==> MonthNames[i] != MonthNames[j]
  {
    var codes := [Code("Jan"), Code("Feb"), Code("Mar"), Code("Apr"), Code("May"), Code("Jun"),
                  Code("Jul"), Code("Aug"), Code("Sep"), Code("Oct"), Code("Nov"), Code("Dec")];
    assert forall i :: 0 <= i < 12 ==> |MonthNames[i]| == 3 && Code(MonthNames[i]) == codes[i];
  }

  lemma TwoDigitsPad2(n: int)
    requires 0 <= n < 100
    ensures TwoDigits(Pad2(n)) == Some(n)
  {
  }

  /** Where each field sits in the 20-character head. */
  lemma HeadLayout(t: CivilTime)
    requires ValidTime(t)
    ensures var h := Head(t);
      h[0..3] == WeekdayNames[t.weekday] && h[4..7] == MonthNames[t.date.month - 1]
      && h[8..10] == Pad2(t.date.day) && h[11..13] == Pad2(t.hour)
      && h[14..16] == Pad2(t.minute) && h[17..19] == Pad2(t.second)
      && h[3] == ' ' && h[7] == ' ' && h[10] == ' ' && h[13] == ':' && h[16] == ':' && h[19] == '.'
  {
    var h := Head(t);
    NamesHaveThreeLetters();
    var wn := WeekdayNames[t.weekday];
    var mn := MonthNames[t.date.month - 1];
    assert h[0..3] == wn;
    assert h[4..7] == mn;
    var d, hh, mm, ss := Pad2(t.date.day), Pad2(t.hour), Pad2(t.minute), Pad2(t.second);
    assert h[8..10] == d;
    assert h[11..13] == hh;
    assert h[14..16] == mm;
    assert h[17..19] == ss;
  }

  lemma NamesHaveThreeLetters()
    ensures forall k :: 0 <= k < |WeekdayNames| ==> |WeekdayNames[k]| == 3
    ensures forall k :: 0 <= k < |MonthNames| ==> |MonthNames[k]| == 3
  {
  }

  /** The sub-second text ends at the last space; the year follows it. */
  lemma TailLayout(sub: string, year: int)
    requires ' ' !in sub
    ensures var rest := sub + " " + IntToString(year);
      LastIndexOf(rest, ' ') == Some(|sub|) && rest[..|sub|] == sub && rest[|sub| + 1..] == IntToString(year)
  {
    var y := IntToString(year);
    var rest := sub + " " + y;
    IntToStringNoSpace(year);
    assert rest[|sub| + 1..] == y;
    assert rest[|sub|] == ' ';
  }

  /**
   * The layout is unambiguous: every field of the calendar time and the
   * sub-second text can be read back from the timestamp, as long as the
   * sub-second text holds no space.
   */
  lemma ReadFormatRoundTrip(t: CivilTime, sub: string)
    requires ValidTime(t) && ' ' !in sub
    ensures ReadTimestamp(Format(t, sub)) == Some((t, sub))
  {
    HeadLayout(t);
    ReadHeadOf(Head(t), t.weekday, t.date.month, t.date.day, t.hour, t.minute, t.second);
    ReadTailOf(sub, t.date.year);
    ReadJoined(Head(t), sub, IntToString(t.date.year), t.date.year);
  }

  lemma ReadJoined(h: string, sub: string, y: string, year: int)
    requires |h| == 20 && ReadHead(h).Some? && ReadTail(sub + " " + y) == Some((sub, year))
    ensures var hd := ReadHead(h).value;
      ReadTimestamp(h + sub + " " + y)
        == Some((CivilTime(Date(year, hd.1 + 1, hd.2), hd.3, hd.4, hd.5, hd.0), sub))
  {
    var rest := sub + " " + y;
    assert h + sub + " " + y == h + rest;
    ReadAssembled(h, rest);
  }

  /** `ReadTimestamp` reads the head from the first 20 characters and the tail from the rest. */
  lemma ReadAssembled(h: string, rest: string)
    requires |h| == 20 && ReadHead(h).Some? && ReadTail(rest).Some?
    ensures var hd := ReadHead(h).value; var tl := ReadTail(rest).value;
      ReadTimestamp(h + rest) == Some((CivilTime(Date(tl.1, hd.1 + 1, hd.2), hd.3, hd.4, hd.5, hd.0), tl.0))
  {
    var s := h + rest;
    assert s[..20] == h;
    assert s[20..] == rest;
    var hd := ReadHead(h).value;
    var tl := ReadTail(rest).value;
    assert ReadHead(s[..20]) == Some(hd);
    assert ReadTail(s[20..]) == Some(tl);
  }

  lemma ReadHeadOf(h: string, wd: int, mon: int, day: int, hour: int, minute: int, second: int)
    requires 0 <= wd < 7 && 1 <= mon <= 12 && 0 <= day < 100 && 0 <= hour < 100 && 0 <= minute < 100 && 0 <= second < 100
    requires |h| == 20
    requires h[0..3] == WeekdayNames[wd] && h[4..7] == MonthNames[mon - 1]
      && h[8..10] == Pad2(day) && h[11..13] == Pad2(hour)
      && h[14..16] == Pad2(minute) && h[17..19] == Pad2(second)
      && h[3] == ' ' && h[7] == ' ' && h[10] == ' ' && h[13] == ':' && h[16] == ':' && h[19] == '.'
    ensures ReadHead(h) == Some((wd, mon - 1, day, hour, minute, second))
  {
    WeekdayNameIndex(wd);
    MonthNameIndex(mon - 1);
    TwoDigitsPad2(day);
    TwoDigitsPad2(hour);
    TwoDigitsPad2(minute);
    TwoDigitsPad2(second);
  }

  lemma ReadTailOf(sub: string, year: int)
    requires ' ' !in sub
    ensures ReadTail(sub + " " + IntToString(year)) == Some((sub, year))
  {
    TailLayout(sub, year);
    ParseIntOfString(year);
  }

  lemma HeadEpoch()
    ensures Head(CivilTime(Date(1970, 1, 1), 0, 0, 0, 4)) == "Thu Jan 01 00:00:00."
  {
    assert Pad2(0) == "00" && Pad2(1) == "01";
    assert WeekdayNames[4] == "Thu" && MonthNames[0] == "Jan";
  }

  lemma FormatAtEpoch(t: CivilTime, sub: string)
    requires t == CivilTime(Date(1970, 1, 1), 0, 0, 0, 4)
    ensures Format(t, sub) == "Thu Jan 01 00:00:00." + sub + " 1970"
  {
    HeadEpoch();
    assert IntToString(1970) == "1970";
  }

  /** The epoch prints as `Thu Jan 01 00:00:00.<sub> 1970`. */
  lemma FormatEpoch(sub: string)
    ensures Format(Gmtime(0), sub) == "Thu Jan 01 00:00:00." + sub + " 1970"
  {
    GmtimeEpoch();
    FormatAtEpoch(Gmtime(0), sub);
  }

  lemma FormatAtBillennium(t: CivilTime)
    requires t == CivilTime(Date(2001, 9, 9), 1, 46, 40, 0) && ValidTime(t)
    ensures Format(t, "123456") == "Sun Sep 09 01:46:40.123456 2001"
  {
    assert Pad2(9) == "09" && Pad2(1) == "01" && Pad2(46) == "46" && Pad2(40) == "40";
    assert WeekdayNames[0] == "Sun" && MonthNames[8] == "Sep";
    assert Head(t) == "Sun Sep 09 01:46:40.";
    assert IntToString(2001) == "2001";
  }

  /** One billion seconds with fraction `123456` prints as `Sun Sep 09 01:46:40.123456 2001`. */
  lemma FormatBillennium()
    ensures Format(Gmtime(1000000000), "123456") == "Sun Sep 09 01:46:40.123456 2001"
  {
    GmtimeBillennium();
    FormatAtBillennium(Gmtime(1000000000));
  }
}
