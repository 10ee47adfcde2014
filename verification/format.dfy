/** The two duration formatters of the stopwatch page: the stopwatch's
    `HH:MM:SS.cc0` (centiseconds followed by a literal zero) and the
    timer's `HH:MM:SS`. Each comes with a parser that reads the text back,
    and the round-trip lemmas say that the text denotes the duration it
    was made from (down to the centisecond for the stopwatch). */
module Format {
  import opened JsNumber
  import opened JsString
  import opened Optional

  /** Hours, minutes and seconds as both formatters compute them. */
  datatype Hms = Hms(hours: int, minutes: int, seconds: int)

  /** A stopwatch reading: a clock split plus centiseconds. */
  datatype Reading = Reading(hms: Hms, centis: int)

  /** Minutes and seconds below sixty, hours unbounded. */
  predicate Normal(f: Hms) {
    f.hours >= 0 && 0 <= f.minutes < 60 && 0 <= f.seconds < 60
  }

  function TotalSeconds(f: Hms): int {
    f.hours * 3600 + f.minutes * 60 + f.seconds
  }

  /** The split of a second count into hours, minutes and seconds, with
      JavaScript's `Math.floor` and truncating `%`. For a non-negative
      count it is the normal split that adds back up to the count. */
  function SplitSeconds(sec: int): (f: Hms)
    ensures sec >= 0 ==> Normal(f) && TotalSeconds(f) == sec
  {
    var f := Hms(FloorDiv(sec, 3600), FloorDiv(Rem(sec, 3600), 60), Rem(sec, 60));
    if sec >= 0 then
      assert f == Hms(sec / 3600, (sec % 3600) / 60, sec % 60);
      DivModSplit(sec);
      f
    else
      f
  }

  /** The split by Dafny's own division of a non-negative count. */
  lemma DivModSplit(sec: nat)
    ensures Normal(Hms(sec / 3600, (sec % 3600) / 60, sec % 60))
    ensures TotalSeconds(Hms(sec / 3600, (sec % 3600) / 60, sec % 60)) == sec
  {
    var r := sec % 3600;
    assert sec == (sec / 3600) * 3600 + r;
    assert r % 60 == sec % 60;
    assert r == (r / 60) * 60 + r % 60;
  }

  /** The split of a millisecond count made by the stopwatch formatter:
      whole seconds split as above, then centiseconds. For a non-negative
      count the fields add back up to the count with the last millisecond
      digit dropped. */
  function SplitMillis(ms: int): (r: Reading)
    ensures ms >= 0 ==> Normal(r.hms) && 0 <= r.centis < 100
    ensures ms >= 0 ==> TotalSeconds(r.hms) * 1000 + r.centis * 10 == ms - ms % 10
  {
    var totalSeconds := FloorDiv(ms, 1000);
    var r := Reading(SplitSeconds(totalSeconds), FloorDiv(Rem(ms, 1000), 10));
    if ms >= 0 then
      var k := ms % 1000;
      assert ms == totalSeconds * 1000 + k;
      assert k % 10 == ms % 10;
      assert k == r.centis * 10 + k % 10;
      r
    else
      r
  }

  /** `HH:MM:SS`, each field padded to two digits. */
  function RenderHms(f: Hms): string {
    Field2(f.hours) + ":" + Field2(f.minutes) + ":" + Field2(f.seconds)
  }

  /** Three fields joined with colons, the last two of two characters,
      put the colons third and sixth from the end. */
  lemma ColonsJoin(a: string, b: string, c: string)
    requires |b| == 2 && |c| == 2
    ensures |a + ":" + b + ":" + c| == |a| + 6
    ensures (a + ":" + b + ":" + c)[|a| + 3] == ':' && (a + ":" + b + ":" + c)[|a|] == ':'
  {
  }

  /** A normal split renders with its two colons third and sixth from the
      end, in eight characters exactly when the hours fit in two digits. */
  lemma RenderHmsShape(f: Hms)
    requires Normal(f)
    ensures |RenderHms(f)| >= 8
    ensures RenderHms(f)[|RenderHms(f)| - 3] == ':' && RenderHms(f)[|RenderHms(f)| - 6] == ':'
    ensures (|RenderHms(f)| == 8) == (f.hours < 100)
  {
    var a, b, c := Field2(f.hours), Field2(f.minutes), Field2(f.seconds);
    Field2Length(f.hours);
    Field2Length(f.minutes);
    Field2Length(f.seconds);
    ColonsJoin(a, b, c);
    assert RenderHms(f) == a + ":" + b + ":" + c;
  }

  /** The length facts of a non-negative field alone. */
  lemma Field2Length(n: nat)
    ensures |Field2(n)| >= 2 && (|Field2(n)| == 2) == (n < 100)
  {
    Field2Reads(n);
  }

  /** The hours of a non-negative count fit in two digits exactly below
      360000 seconds. */
  lemma TwoDigitHours(sec: int)
    requires sec >= 0
    ensures (SplitSeconds(sec).hours < 100) == (sec < 360000)
  {
    var h := SplitSeconds(sec).hours;
    assert h * 3600 <= sec < h * 3600 + 3600;
  }

  /** `formatTimerTime`: for a non-negative count, `HH:MM:SS` with the
      colons third and sixth from the end, and eight characters exactly
      below one hundred hours. */
  function FormatTimerTime(sec: int): (t: string)
    ensures sec >= 0 ==> |t| >= 8 && t[|t| - 3] == ':' && t[|t| - 6] == ':'
    ensures sec >= 0 ==> (|t| == 8 <==> sec < 360000)
  {
    if sec >= 0 then
      TimerShape(sec);
      RenderHms(SplitSeconds(sec))
    else
      RenderHms(SplitSeconds(sec))
  }

  /** The shape of the timer text, proved apart from the formatter. */
  lemma TimerShape(sec: int)
    requires sec >= 0
    ensures var t := RenderHms(SplitSeconds(sec));
      |t| >= 8 && t[|t| - 3] == ':' && t[|t| - 6] == ':' && (|t| == 8 <==> sec < 360000)
  {
    RenderHmsShape(SplitSeconds(sec));
    TwoDigitHours(sec);
  }

  /** `formatStopwatchTime`: the clock fields, a dot, two centisecond
      digits and a literal `0`. For a non-negative count the text ends in
      `0`, has the dot fourth from the end and the colons seventh and
      tenth, and is twelve characters exactly below one hundred hours. */
  function FormatStopwatchTime(ms: int): (t: string)
    ensures ms >= 0 ==> |t| >= 12 && t[|t| - 1] == '0' && t[|t| - 4] == '.'
    ensures ms >= 0 ==> t[|t| - 7] == ':' && t[|t| - 10] == ':'
    ensures ms >= 0 ==> (|t| == 12 <==> ms < 360000000)
  {
    var r := SplitMillis(ms);
    var clock := RenderHms(r.hms);
    var cc := Field2(r.centis);
    if ms >= 0 then
      RenderHmsShape(r.hms);
      Field2Reads(r.centis);
      TwoDigitHours(ms / 1000);
      DotJoin(clock, cc);
      clock + "." + cc + "0"
    else
      clock + "." + cc + "0"
  }

  /** Clock text, a dot, two characters and a zero: the dot is fourth
      from the end and the clock's last ten characters keep their place. */
  lemma DotJoin(clock: string, cc: string)
    requires |cc| == 2 && |clock| >= 8
    ensures |clock + "." + cc + "0"| == |clock| + 4
    ensures (clock + "." + cc + "0")[|clock| + 3] == '0'
    ensures (clock + "." + cc + "0")[|clock|] == '.'
    ensures forall i :: 0 <= i < |clock| ==> (clock + "." + cc + "0")[i] == clock[i]
  {
  }

  /** Splitting the total of a normal split gives the split back: the
      formatter's split is the only normal one with that total. */
  lemma SplitOfNormal(f: Hms)
    requires Normal(f)
    ensures SplitSeconds(TotalSeconds(f)) == f
  {
    var g := SplitSeconds(TotalSeconds(f));
    assert g.hours * 3600 + (g.minutes * 60 + g.seconds) == f.hours * 3600 + (f.minutes * 60 + f.seconds);
    assert g.hours == f.hours;
    assert g.minutes * 60 + g.seconds == f.minutes * 60 + f.seconds;
    assert g.minutes == f.minutes;
  }

  /** Splits `t` at a separator standing third from the end, into the
      text before it and the two characters after it. */
  function SplitLast2(t: string, sep: char): Option<(string, string)> {
    if |t| >= 3 && t[|t| - 3] == sep then Some((t[..|t| - 3], t[|t| - 2..])) else None
  }

  /** Reads a field of at least `width` digits. */
  function ParseField(t: string, width: nat): Option<int> {
    if |t| >= width && AllDigits(t) then Some(DigitsValue(t)) else None
  }

  /** Reads `H..H:MM:SS` back: at least two hour digits, then exactly two
      minute and two second digits. */
  function ParseHms(t: string): Option<Hms> {
    match SplitLast2(t, ':')
    case None => None
    case Some((rest, ss)) =>
      match SplitLast2(rest, ':')
      case None => None
      case Some((hh, mm)) =>
        match (ParseField(hh, 2), ParseField(mm, 2), ParseField(ss, 2))
        case (Some(h), Some(m), Some(s)) => Some(Hms(h, m, s))
        case _ => None
  }

  /** Reads `H..H:MM:SS.CC0` back as a reading. */
  function ParseReading(t: string): Option<Reading> {
    if |t| >= 1 && t[|t| - 1] == '0' then
      match SplitLast2(t[..|t| - 1], '.')
      case None => None
      case Some((clock, cc)) =>
        match (ParseHms(clock), ParseField(cc, 2))
        case (Some(f), Some(c)) => Some(Reading(f, c))
        case _ => None
    else None
  }

  /** Splitting undoes joining at a separator followed by two characters. */
  lemma SplitJoin(a: string, sep: char, b: string)
    requires |b| == 2
    ensures SplitLast2(a + [sep] + b, sep) == Some((a, b))
  {
    var t := a + [sep] + b;
    assert t[..|t| - 3] == a;
    assert t[|t| - 2..] == b;
  }

  /** A non-negative field below one hundred reads back from its
      two-digit rendering; any non-negative one from its rendering of at
      least two digits. */
  lemma FieldRoundTrip(n: nat)
    ensures ParseField(Field2(n), 2) == Some(n)
    ensures n < 100 ==> |Field2(n)| == 2
  {
    Field2Reads(n);
  }

  /** The millisecond count a stopwatch reading denotes. */
  function ReadingMillis(r: Reading): int {
    TotalSeconds(r.hms) * 1000 + r.centis * 10
  }

  /** Parsing undoes joining three readable fields with colons. */
  lemma HmsJoin(a: string, b: string, c: string, f: Hms)
    requires |b| == 2 && |c| == 2
    requires ParseField(a, 2) == Some(f.hours)
    requires ParseField(b, 2) == Some(f.minutes)
    requires ParseField(c, 2) == Some(f.seconds)
    ensures ParseHms(a + ":" + b + ":" + c) == Some(f)
  {
    SplitJoin(a + ":" + b, ':', c);
    SplitJoin(a, ':', b);
  }

  /** Parsing undoes appending a dot, a readable centisecond field and
      the trailing zero to readable clock text. */
  lemma ReadingJoin(h: string, c: string, r: Reading)
    requires |c| == 2
    requires ParseHms(h) == Some(r.hms)
    requires ParseField(c, 2) == Some(r.centis)
    ensures ParseReading(h + "." + c + "0") == Some(r)
  {
    var inner := h + "." + c;
    var t := inner + "0";
    assert t[..|t| - 1] == inner;
    SplitJoin(h, '.', c);
  }

  /** Rendering a normal split and parsing it gives the split back. */
  lemma HmsRoundTrip(f: Hms)
    requires Normal(f)
    ensures ParseHms(RenderHms(f)) == Some(f)
  {
    FieldRoundTrip(f.hours);
    FieldRoundTrip(f.minutes);
    FieldRoundTrip(f.seconds);
    HmsJoin(Field2(f.hours), Field2(f.minutes), Field2(f.seconds), f);
  }

  /** Rendering a normal reading and parsing it gives the reading back. */
  lemma ReadingRoundTrip(r: Reading)
    requires Normal(r.hms) && 0 <= r.centis < 100
    ensures ParseReading(RenderHms(r.hms) + "." + Field2(r.centis) + "0") == Some(r)
  {
    HmsRoundTrip(r.hms);
    FieldRoundTrip(r.centis);
    ReadingJoin(RenderHms(r.hms), Field2(r.centis), r);
  }

  /** The timer text of a non-negative second count reads back as a
      normal split totalling exactly that count. */
  lemma TimerTextRoundTrip(sec: int)
    requires sec >= 0
    ensures ParseHms(FormatTimerTime(sec)).Some?
    ensures Normal(ParseHms(FormatTimerTime(sec)).value)
    ensures TotalSeconds(ParseHms(FormatTimerTime(sec)).value) == sec
    ensures ParseHms(FormatTimerTime(sec)) == Some(SplitSeconds(sec))
  {
    HmsRoundTrip(SplitSeconds(sec));
  }

  /** The stopwatch text of a non-negative millisecond count reads back
      as the formatter's own split, a normal reading that denotes the
      count truncated to whole centiseconds. */
  lemma StopwatchTextRoundTrip(ms: int)
    requires ms >= 0
    ensures ParseReading(FormatStopwatchTime(ms)) == Some(SplitMillis(ms))
    ensures Normal(ParseReading(FormatStopwatchTime(ms)).value.hms)
    ensures 0 <= ParseReading(FormatStopwatchTime(ms)).value.centis < 100
    ensures ReadingMillis(ParseReading(FormatStopwatchTime(ms)).value) == ms - ms % 10
    ensures FormatStopwatchTime(ms)[|FormatStopwatchTime(ms)| - 1] == '0'
  {
    ReadingRoundTrip(SplitMillis(ms));
  }

  /** The five-minute default the timer shows after a reset. */
  lemma FiveMinutesText()
    ensures FormatTimerTime(300) == "00:05:00"
  {
    assert SplitSeconds(300) == Hms(0, 5, 0);
    assert Field2(0) == "00";
    assert Field2(5) == "05";
  }
}
