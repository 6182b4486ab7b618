/**
 * formatTime: the elapsed-time display "MM:SS". The minutes are the whole
 * minutes of the count, written in decimal and padded to at least two
 * digits; the seconds are the rest, always two digits. Reading the display
 * back gives the count it was made from.
 */
module Clock {
  import opened Wrappers

  predicate IsDigit(ch: char)
  {
    '0' <= ch <= '9'
  }

  predicate AllDigits(s: string)
  {
    forall i :: 0 <= i < |s| ==> IsDigit(s[i])
  }

  function DigitChar(d: int): (ch: char)
    requires 0 <= d < 10
    ensures IsDigit(ch) && ch as int - '0' as int == d
  {
    ('0' as int + d) as char
  }

  /** String(n): the decimal digits of n, without leading zeros. */
  function NatToString(n: nat): (s: string)
    ensures 1 <= |s| && AllDigits(s)
    ensures n < 10 ==> |s| == 1
    ensures 10 <= n < 100 ==> |s| == 2
    ensures |s| == 1 || s[0] != '0'
  {
    if n < 10 then [DigitChar(n)] else NatToString(n / 10) + [DigitChar(n % 10)]
  }

  /** The number a string of decimal digits denotes. */
  function DigitsValue(s: string): nat
    requires AllDigits(s)
  {
    if s == [] then 0 else DigitsValue(s[..|s| - 1]) * 10 + (s[|s| - 1] as int - '0' as int)
  }

  /** padStart(2, '0'): zeros in front up to a length of two; longer strings are left as they are. */
  function PadStart2(s: string): (t: string)
    ensures |t| == if |s| < 2 then 2 else |s|
    ensures t[|t| - |s|..] == s && forall i :: 0 <= i < |t| - |s| ==> t[i] == '0'
  {
    if |s| >= 2 then s else seq(2 - |s|, _ => '0') + s
  }

  /**
   * formatTime(seconds): the minutes, a colon and the seconds as two
   * digits; five characters long below 100 minutes.
   */
  function FormatTime(seconds: nat): (r: string)
    ensures |r| >= 5 && r[|r| - 3] == ':'
    ensures seconds < 6000 ==> |r| == 5
  {
    var q, rem := seconds / 60, seconds % 60;
    assert q * 60 + rem == seconds && 0 <= rem < 60;
    var mins, secs := PadStart2(NatToString(q)), PadStart2(NatToString(rem));
    assert |secs| == 2 && |mins| >= 2 && (q < 100 ==> |mins| == 2);
    var r := mins + ":" + secs;
    assert |r| == |mins| + 3 && r[|mins|] == ':';
    r
  }

  /** Reads a display back: digits, a colon, two digits of seconds below 60. */
  function ParseTime(t: string): Option<nat>
  {
    if |t| >= 5 && t[|t| - 3] == ':' then ParseFields(t[..|t| - 3], t[|t| - 2..]) else None
  }

  /** The count a minutes field and a seconds field stand for. */
  function ParseFields(mins: string, secs: string): Option<nat>
  {
    if AllDigits(mins) && AllDigits(secs) && DigitsValue(secs) < 60 then
      Some(DigitsValue(mins) * 60 + DigitsValue(secs))
    else
      None
  }

  /** Decimal digits read back as the number they came from. */
  lemma {:induction false} NatToStringValue(n: nat)
    ensures DigitsValue(NatToString(n)) == n
    decreases n
  {
    if n >= 10 {
      var s := NatToString(n);
      assert s[..|s| - 1] == NatToString(n / 10);
      NatToStringValue(n / 10);
    }
  }

  /** Leading zeros do not change the value. */
  lemma {:induction false} LeadingZeros(z: string, s: string)
    requires AllDigits(s) && forall i :: 0 <= i < |z| ==> z[i] == '0'
    ensures AllDigits(z + s) && DigitsValue(z + s) == DigitsValue(s)
    decreases |s|
  {
    if s == [] {
      assert z + s == z;
      ZerosValue(z);
    } else {
      var u := z + s;
      assert u[..|u| - 1] == z + s[..|s| - 1];
      LeadingZeros(z, s[..|s| - 1]);
    }
  }

  /** A string of zeros denotes 0. */
  lemma {:induction false} ZerosValue(z: string)
    requires forall i :: 0 <= i < |z| ==> z[i] == '0'
    ensures AllDigits(z) && DigitsValue(z) == 0
    decreases |z|
  {
    if z != [] {
      ZerosValue(z[..|z| - 1]);
    }
  }

  /** Padding keeps the digits and their value. */
  lemma PadValue(s: string)
    requires AllDigits(s)
    ensures AllDigits(PadStart2(s)) && DigitsValue(PadStart2(s)) == DigitsValue(s)
  {
    var t := PadStart2(s);
    var k := |t| - |s|;
    assert t == t[..k] + s;
    LeadingZeros(t[..k], s);
  }

  /** A display cut at its colon gives back its two fields. */
  lemma ParseJoin(mins: string, secs: string)
    requires |mins| >= 2 && |secs| == 2
    ensures ParseTime(mins + ":" + secs) == ParseFields(mins, secs)
  {
    var t := mins + ":" + secs;
    assert t[..|t| - 3] == mins && t[|t| - 2..] == secs;
  }

  /** A padded decimal field reads back as the number it was made from. */
  lemma FieldValue(n: nat)
    ensures AllDigits(PadStart2(NatToString(n))) && DigitsValue(PadStart2(NatToString(n))) == n
  {
    NatToStringValue(n);
    PadValue(NatToString(n));
  }

  /** Two fields that read back as q and rem < 60 stand for q minutes and rem seconds. */
  lemma FieldsValue(mins: string, secs: string, q: nat, rem: nat)
    requires AllDigits(mins) && DigitsValue(mins) == q
    requires AllDigits(secs) && DigitsValue(secs) == rem && rem < 60
    ensures ParseFields(mins, secs) == Some(q * 60 + rem)
  {
  }

  /** Reading the display back gives the count it was made from. */
  lemma FormatTimeRoundTrip(seconds: nat)
    ensures ParseTime(FormatTime(seconds)) == Some(seconds)
  {
    var q, rem := seconds / 60, seconds % 60;
    assert q * 60 + rem == seconds && 0 <= rem < 60;
    var mins, secs := PadStart2(NatToString(q)), PadStart2(NatToString(rem));
    assert FormatTime(seconds) == mins + ":" + secs;
    FieldValue(q);
    FieldValue(rem);
    ParseJoin(mins, secs);
    FieldsValue(mins, secs, q, rem);
  }
}
