/** The display settings of the main page: the 12/24-hour and seconds
    toggles, the removal of the seconds field from the formatted time, and
    the choice of time zone from the custom input and the zone list. The
    `Intl` formatter is not modelled: whether it accepts a zone name is
    the parameter `valid`, and the text it produces is the parameter
    `formatted`. */
module DisplaySettings {
  import opened JsString
  import opened Optional

  datatype Prefs = Prefs(use12: bool, showSeconds: bool)

  /** 24-hour clock with seconds when the page loads. */
  const InitialPrefs := Prefs(false, true)

  /** The 12H/24H button. */
  function ToggleUse12(p: Prefs): (r: Prefs)
    ensures r.use12 != p.use12 && r.showSeconds == p.showSeconds
  {
    p.(use12 := !p.use12)
  }

  /** The SECONDS button. */
  function ToggleSeconds(p: Prefs): (r: Prefs)
    ensures r.showSeconds != p.showSeconds && r.use12 == p.use12
  {
    p.(showSeconds := !p.showSeconds)
  }

  /** Each toggle undoes itself, and the two toggles commute. */
  lemma TogglesInvolutive(p: Prefs)
    ensures ToggleUse12(ToggleUse12(p)) == p
    ensures ToggleSeconds(ToggleSeconds(p)) == p
    ensures ToggleUse12(ToggleSeconds(p)) == ToggleSeconds(ToggleUse12(p))
  {
  }

  /** The pattern `/:\d{2}(\s|$)/` matches at `i`: a colon, two digits,
      then a `\s` character or the end of the text. */
  predicate SecondsFieldAt(s: string, i: int) {
    && 0 <= i && i + 3 <= |s|
    && s[i] == ':' && IsDigit(s[i + 1]) && IsDigit(s[i + 2])
    && (i + 3 == |s| || IsSpace(s[i + 3]))
  }

  /** The leftmost match at or after `from`, as the regular-expression
      search finds it. */
  function FindSecondsField(s: string, from: nat): (r: Option<nat>)
    requires from <= |s|
    ensures r.None? ==> forall i :: from <= i < |s| ==> !SecondsFieldAt(s, i)
    ensures r.Some? ==> from <= r.value && SecondsFieldAt(s, r.value)
    ensures r.Some? ==> forall i :: from <= i < r.value ==> !SecondsFieldAt(s, i)
    decreases |s| - from
  {
    if from == |s| then None
    else if SecondsFieldAt(s, from) then Some(from)
    else FindSecondsField(s, from + 1)
  }

  /** `s.replace(/:\d{2}(\s|$)/, '$1')`: the first match loses its colon
      and two digits and keeps the whitespace after them; without a match
      the text is unchanged. */
  function StripSeconds(s: string): (r: string)
    ensures (forall i :: 0 <= i < |s| ==> !SecondsFieldAt(s, i)) ==> r == s
    ensures forall i ::
      (0 <= i < |s| && SecondsFieldAt(s, i) && (forall j :: 0 <= j < i ==> !SecondsFieldAt(s, j)))
      ==> r == s[..i] + s[i + 3..]
  {
    match FindSecondsField(s, 0)
    case None => s
    case Some(i) => s[..i] + s[i + 3..]
  }

  /** The tail of `formatTime`: the formatter's text, with the seconds
      removed when they are hidden. */
  function TimeText(formatted: string, p: Prefs): (r: string)
    ensures p.showSeconds ==> r == formatted
    ensures !p.showSeconds ==> r == StripSeconds(formatted)
  {
    if p.showSeconds then formatted else StripSeconds(formatted)
  }

  /** For a time of the shape `h:mm:ss` followed by nothing or by text
      starting with whitespace (such as ` PM`), hiding the seconds gives
      `h:mm` followed by the same text. */
  lemma StripClockSeconds(h: string, mm: string, ss: string, suffix: string)
    requires |h| >= 1 && AllDigits(h)
    requires |mm| == 2 && AllDigits(mm) && |ss| == 2 && AllDigits(ss)
    requires suffix == [] || IsSpace(suffix[0])
    ensures StripSeconds(h + ":" + mm + ":" + ss + suffix) == h + ":" + mm + suffix
  {
    var s := h + ":" + mm + ":" + ss + suffix;
    var k := |h| + 3;
    assert s[..k] == h + ":" + mm;
    assert s[k + 3..] == suffix;
    assert SecondsFieldAt(s, k);
    forall j | 0 <= j < k
      ensures !SecondsFieldAt(s, j)
    {
      if j < |h| {
        assert s[j] == h[j];
      } else if j == |h| {
        assert s[j + 3] == ':';
      } else {
        assert s[j] == mm[j - |h| - 1];
      }
    }
  }

  /** The 12-hour shape: `12:34:56 PM` becomes `12:34 PM`. */
  lemma StripExample12()
    ensures StripSeconds("12:34:56 PM") == "12:34 PM"
  {
    StripClockSeconds("12", "34", "56", " PM");
    assert "12" + ":" + "34" + ":" + "56" + " PM" == "12:34:56 PM";
    assert "12" + ":" + "34" + " PM" == "12:34 PM";
  }

  /** The 24-hour shape: `12:34:56` becomes `12:34`. */
  lemma StripExample24()
    ensures StripSeconds("12:34:56") == "12:34"
  {
    StripClockSeconds("12", "34", "56", "");
    assert "12" + ":" + "34" + ":" + "56" + "" == "12:34:56";
    assert "12" + ":" + "34" + "" == "12:34";
  }

  /** The zone sentinel meaning the browser's own time zone. */
  const LocalZone := "local"

  /** The committed zone and the text of the custom zone input. */
  datatype ZoneState = ZoneState(tz: string, customField: string)

  /** The zone when the page loads. */
  function InitialZone(customField: string): ZoneState {
    ZoneState(LocalZone, customField)
  }

  /** The zone the APPLY button tries: the trimmed custom input if not
      empty, else the selected list entry if not empty, else the local
      sentinel. */
  function Candidate(customField: string, selectValue: string): (c: string)
    ensures c != []
    ensures Trim(customField) != [] ==> c == Trim(customField)
    ensures Trim(customField) == [] && selectValue != [] ==> c == selectValue
    ensures Trim(customField) == [] && selectValue == [] ==> c == LocalZone
  {
    var custom := Trim(customField);
    if custom != [] then custom else if selectValue != [] then selectValue else LocalZone
  }

  datatype ApplyResult = ApplyResult(next: ZoneState, applied: bool)

  /** The APPLY button: the local sentinel is taken without a check; any
      other candidate only if the formatter accepts it. On success the
      candidate becomes the zone and a non-empty custom input is cleared;
      on rejection nothing changes. */
  function ApplyZone(z: ZoneState, selectValue: string, valid: string -> bool): (r: ApplyResult)
    ensures var c := Candidate(z.customField, selectValue);
      r.applied <==> (c == LocalZone || valid(c))
    ensures r.applied ==> r.next.tz == Candidate(z.customField, selectValue)
    ensures r.applied && Trim(z.customField) != [] ==> r.next.customField == []
    ensures r.applied && Trim(z.customField) == [] ==> r.next.customField == z.customField
    ensures !r.applied ==> r.next == z
  {
    var custom := Trim(z.customField);
    var c := Candidate(z.customField, selectValue);
    if c != LocalZone && !valid(c) then ApplyResult(z, false)
    else ApplyResult(ZoneState(c, if custom != [] then [] else z.customField), true)
  }

  /** The committed zone is always the local sentinel or a zone the
      formatter accepts, whatever is applied. */
  predicate ZoneOk(z: ZoneState, valid: string -> bool) {
    z.tz == LocalZone || valid(z.tz)
  }

  lemma ApplyKeepsZoneOk(z: ZoneState, selectValue: string, valid: string -> bool)
    requires ZoneOk(z, valid)
    ensures ZoneOk(ApplyZone(z, selectValue, valid).next, valid)
  {
  }

  /** An invalid custom zone such as `Not/AZone` is rejected and the zone
      in use stays, so the next display still formats with it. */
  lemma InvalidZoneRejected(z: ZoneState, selectValue: string, valid: string -> bool)
    requires Trim(z.customField) == "Not/AZone" && !valid("Not/AZone")
    ensures !ApplyZone(z, selectValue, valid).applied
    ensures ApplyZone(z, selectValue, valid).next.tz == z.tz
  {
  }
}
