/**
 * The recording-duration label: `formatTime` turns elapsed milliseconds into "MM:SS", whole
 * minutes zero-padded to at least two digits, then the seconds within the minute as two digits.
 */
module AudioRecorder {
  import opened Wrappers
  import opened Decimal

  function FormatTime(milliseconds: nat): (r: string)
    ensures |r| >= 5 && r[|r| - 3] == ':'
    ensures forall k :: 0 <= k < |r| && k != |r| - 3 ==> IsDigit(r[k])
    ensures |r| - 3 == Max(2, |NatToString(milliseconds / 1000 / 60)|)
  {
    var seconds := milliseconds / 1000;
    var minutes := seconds / 60;
    var remainingSeconds := seconds % 60;
    NatToStringBelow100(remainingSeconds);
    PadStart(NatToString(minutes), 2, '0') + ":" + PadStart(NatToString(remainingSeconds), 2, '0')
  }

  /**
   * Reads a label back as whole seconds: at least two minute digits, a colon, and two second
   * digits below 60.
   */
  function DecodeTime(s: string): Option<nat> {
    if |s| >= 5 && s[|s| - 3] == ':' && AllDigits(s[..|s| - 3]) && AllDigits(s[|s| - 2..])
       && DigitsValue(s[|s| - 2..]) < 60
    then Some(DigitsValue(s[..|s| - 3]) * 60 + DigitsValue(s[|s| - 2..]))
    else None
  }

  /** The label denotes the elapsed time in whole seconds; the sub-second remainder is dropped. */
  lemma FormatTimeRoundTrip(milliseconds: nat)
    ensures DecodeTime(FormatTime(milliseconds)) == Some(milliseconds / 1000)
  {
    var seconds := milliseconds / 1000;
    var minutesField := PadStart(NatToString(seconds / 60), 2, '0');
    var secondsField := PadStart(NatToString(seconds % 60), 2, '0');
    NatToStringBelow100(seconds % 60);
    PaddedValue(seconds / 60, 2);
    PaddedValue(seconds % 60, 2);
    var r := FormatTime(milliseconds);
    assert r == minutesField + ":" + secondsField;
    assert r[..|r| - 3] == minutesField;
    assert r[|r| - 2..] == secondsField;
  }

  /** Two durations get the same label exactly when they fall in the same whole second. */
  lemma FormatTimeSameSecond(a: nat, b: nat)
    ensures FormatTime(a) == FormatTime(b) <==> a / 1000 == b / 1000
  {
    FormatTimeRoundTrip(a);
    FormatTimeRoundTrip(b);
  }

  /** A longer duration never reads as fewer seconds. */
  lemma FormatTimeMonotone(a: nat, b: nat)
    requires a <= b
    ensures DecodeTime(FormatTime(a)).Some? && DecodeTime(FormatTime(b)).Some?
    ensures DecodeTime(FormatTime(a)).value <= DecodeTime(FormatTime(b)).value
  {
    FormatTimeRoundTrip(a);
    FormatTimeRoundTrip(b);
  }

  /** The label for 2500 ms is "00:02". */
  lemma FormatTimeExample()
    ensures FormatTime(2500) == "00:02"
  {
    assert NatToString(0) == "0" && NatToString(2) == "2";
  }
}
