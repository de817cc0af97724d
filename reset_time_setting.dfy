/**
 * The settings handler's logic: the `reset_time` text a PUT accepts
 * (trimmed, then matched against `^\d{2}:\d{2}$`) and the default.
 */
module ResetTimeSetting {
  import opened Wrappers
  import opened Json
  import opened JsText
  import opened Numerals

  /** The value the settings row is created with, and what a read falls back to. */
  const DefaultResetTime: string := "06:00"

  /** `/^\d{2}:\d{2}$/`: two ASCII digits, a colon, two ASCII digits; no range check. */
  predicate IsHHMM(t: string)
    ensures IsHHMM(t) ==> Trimmed(t)
  {
    |t| == 5 && IsDigit(t[0]) && IsDigit(t[1]) && t[2] == ':' && IsDigit(t[3]) && IsDigit(t[4])
  }

  /** `String(body.resetTime || '').trim()`. */
  function RequestedResetTime(v: Option<Json>): string {
    Trim(TextOrEmpty(v))
  }

  /** What a PUT stores and echoes, or None for the 400 answer. */
  function ValidateResetTime(v: Option<Json>): (r: Option<string>)
    ensures r.Some? ==> IsHHMM(r.value) && Trimmed(r.value)
  {
    var t := RequestedResetTime(v);
    if IsHHMM(t) then Some(t) else None
  }

  /** A well-formed time with white space around it is accepted as the bare time. */
  lemma AcceptsPaddedTime(pre: string, t: string, post: string)
    requires AllSpace(pre) && AllSpace(post) && IsHHMM(t)
    ensures ValidateResetTime(Some(JStr(pre + t + post))) == Some(t)
  {
    TrimPadding(pre, t, post);
    AcceptsWhatTrimsToTime(pre + t + post, t);
  }

  /** A text whose trimmed form is a well-formed time is accepted as that time. */
  lemma AcceptsWhatTrimsToTime(s: string, t: string)
    requires Trim(s) == t && IsHHMM(t)
    ensures ValidateResetTime(Some(JStr(s))) == Some(t)
  {
    assert TextOrEmpty(Some(JStr(s))) == s;
  }

  /** The check is only on the shape: `99:99` is accepted as it is. */
  lemma AcceptsOutOfRangeTime()
    ensures ValidateResetTime(Some(JStr("99:99"))) == Some("99:99")
  {
    var t := "99:99";
    assert IsHHMM(t);
    AcceptsPaddedTime("", t, "");
    assert "" + t + "" == t;
  }

  /** A missing value becomes the empty string and is refused. */
  lemma RejectsMissingTime()
    ensures ValidateResetTime(None) == None
    ensures ValidateResetTime(Some(JStr(""))) == None
  {
    assert TextOrEmpty(None) == "" && TextOrEmpty(Some(JStr(""))) == "";
    TrimOfTrimmed("");
    assert RequestedResetTime(None) == "" && RequestedResetTime(Some(JStr(""))) == "";
  }

  /** Numbers, booleans, `null` and objects never pass: their text has no colon in the middle. */
  lemma OnlyTextOrArrayAccepted(j: Json)
    ensures !j.JStr? && !j.JArr? ==> ValidateResetTime(Some(j)) == None
  {
    var text := TextOrEmpty(Some(j));
    if j.JNum? && j.n != 0 {
      assert text == IntText(j.n);
      assert forall i :: 0 <= i < |text| ==> text[i] == '-' || IsDigit(text[i]);
      TrimOfTrimmed(text);
    } else if j.JObj? {
      assert text == "[object Object]";
      TrimOfTrimmed(text);
    } else if j.JBool? && j.b {
      assert text == "true";
      TrimOfTrimmed(text);
    } else if !j.JStr? && !j.JArr? {
      assert text == "";
      TrimOfTrimmed(text);
    }
  }
}
