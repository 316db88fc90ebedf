/**
 The digital readout of `updateDigital` (app.js lines 132-137): each field is
 `String(n).padStart(2, "0")` and the three fields are joined with colons.
 `ParseReadout` reads such a string back, so the format can be shown to lose
 nothing.
 */
module Digital {
  import opened ClockTime

  datatype Option<T> = None | Some(value: T)

  predicate IsDigit(c: char) {
    '0' <= c <= '9'
  }

  predicate AllDigits(s: string) {
    forall i :: 0 <= i < |s| ==> IsDigit(s[i])
  }

  function DigitChar(d: int): (c: char)
    requires 0 <= d < 10
    ensures IsDigit(c) && DigitValue(c) == d
  {
    ('0' as int + d) as char
  }

  function DigitValue(c: char): (d: int)
    requires IsDigit(c)
    ensures 0 <= d < 10
  {
    c as int - '0' as int
  }

  /** The number a string of decimal digits denotes. */
  function Value(s: string): nat
    requires AllDigits(s)
  {
    if |s| == 0 then 0 else 10 * Value(s[..|s| - 1]) + DigitValue(s[|s| - 1])
  }

  /**
   `String(n)` for a non-negative integer: its decimal digits, with no
   leading zero except for 0 itself.
   */
  function DecimalString(n: nat): (r: string)
    ensures |r| >= 1 && AllDigits(r) && Value(r) == n
    ensures r[0] == '0' ==> n == 0
    ensures n < 10 <==> |r| == 1
    decreases n
  {
    if n < 10 then [DigitChar(n)]
    else
      var r := DecimalString(n / 10) + [DigitChar(n % 10)];
      assert r[..|r| - 1] == DecimalString(n / 10);
      r
  }

  /**
   JavaScript's `s.padStart(targetLength, fill)` for a one-character fill:
   `s` unchanged if it is long enough, otherwise `s` preceded by enough fill
   characters to reach the target length.
   */
  function PadStart(s: string, targetLength: nat, fill: char): (r: string)
    ensures |s| >= targetLength ==> r == s
    ensures |s| < targetLength ==> |r| == targetLength
    ensures |r| >= |s| && r[|r| - |s|..] == s
    ensures forall i :: 0 <= i < |r| - |s| ==> r[i] == fill
  {
    if |s| >= targetLength then s else seq(targetLength - |s|, _ => fill) + s
  }

  /** One field of the readout: `String(n).padStart(2, "0")`. */
  function Field(n: nat): string {
    PadStart(DecimalString(n), 2, '0')
  }

  /** A field below 100 is exactly two digits that denote it. */
  lemma FieldTwoDigits(n: nat)
    requires n < 100
    ensures |Field(n)| == 2 && AllDigits(Field(n)) && Value(Field(n)) == n
  {
    var d := DecimalString(n);
    var f := Field(n);
    if n < 10 {
      assert f == ['0', d[0]];
      ValueOfTwo(f);
      assert Value(d) == 10 * Value(d[..0]) + DigitValue(d[0]);
    } else {
      assert f == d;
    }
  }

  /** Larger numbers are not truncated: the field is the full decimal string. */
  lemma FieldWide(n: nat)
    requires n >= 100
    ensures Field(n) == DecimalString(n) && |Field(n)| > 2
  {
    assert |DecimalString(n / 10)| >= 2;
  }

  lemma ValueOfTwo(d: string)
    requires |d| == 2 && AllDigits(d)
    ensures Value(d) == 10 * DigitValue(d[0]) + DigitValue(d[1])
  {
    var first := d[..1];
    assert first[..0] == [];
    assert Value(first) == 10 * Value(first[..0]) + DigitValue(first[0]);
    assert Value(first) == DigitValue(d[0]);
  }

  lemma DigitRoundTrip(c: char)
    requires IsDigit(c)
    ensures DigitChar(DigitValue(c)) == c
  {
  }

  /** A two-digit string is the field of the number it denotes. */
  lemma FieldOfValue(d: string)
    requires |d| == 2 && AllDigits(d)
    ensures Field(Value(d)) == d
  {
    var v := Value(d);
    ValueOfTwo(d);
    DigitRoundTrip(d[0]);
    DigitRoundTrip(d[1]);
    var hi, lo := DigitValue(d[0]), DigitValue(d[1]);
    if hi == 0 {
      assert d[0] == '0';
      assert v == lo;
      assert DecimalString(v) == [d[1]];
      assert Field(v) == ['0'] + [d[1]];
    } else {
      DivMod(v, 10, hi, lo);
      assert DecimalString(hi) == [d[0]];
      assert DecimalString(v) == [d[0]] + [d[1]];
      assert Field(v) == DecimalString(v);
    }
    assert d == [d[0]] + [d[1]];
  }

  /**
   `updateDigital`'s `${h}:${m}:${s}`: eight characters, colons at positions
   2 and 5, digits elsewhere, and each two-digit field denotes its part of the
   reading.
   */
  function Readout(t: TimeOfDay): (r: string)
    requires Valid(t)
    ensures |r| == 8 && r[2] == ':' && r[5] == ':'
    ensures AllDigits(r[0..2]) && AllDigits(r[3..5]) && AllDigits(r[6..8])
    ensures Value(r[0..2]) == t.hours && Value(r[3..5]) == t.minutes && Value(r[6..8]) == t.seconds
  {
    FieldTwoDigits(t.hours);
    FieldTwoDigits(t.minutes);
    FieldTwoDigits(t.seconds);
    Join(Field(t.hours), Field(t.minutes), Field(t.seconds))
  }

  /** Three two-character fields joined by colons, and where each can be found again. */
  function Join(a: string, b: string, c: string): (r: string)
    requires |a| == 2 && |b| == 2 && |c| == 2
    ensures |r| == 8 && r[2] == ':' && r[5] == ':'
    ensures r[0..2] == a && r[3..5] == b && r[6..8] == c
  {
    a + ":" + b + ":" + c
  }

  /** A string with colons at positions 2 and 5 is the join of its three fields. */
  lemma JoinOfSplit(s: string)
    requires |s| == 8 && s[2] == ':' && s[5] == ':'
    ensures s == Join(s[0..2], s[3..5], s[6..8])
  {
    var j := Join(s[0..2], s[3..5], s[6..8]);
    forall i | 0 <= i < 8
      ensures s[i] == j[i]
    {
      if i < 2 {
        assert s[i] == s[0..2][i];
      } else if 3 <= i < 5 {
        assert s[i] == s[3..5][i - 3] && j[i] == j[3..5][i - 3];
      } else if 6 <= i {
        assert s[i] == s[6..8][i - 6] && j[i] == j[6..8][i - 6];
      }
    }
  }

  /** Reads an `HH:MM:SS` readout back; anything else, or an out-of-range field, is `None`. */
  function ParseReadout(s: string): (r: Option<TimeOfDay>)
    ensures r.Some? ==> Valid(r.value)
  {
    if |s| == 8 && s[2] == ':' && s[5] == ':'
       && AllDigits(s[0..2]) && AllDigits(s[3..5]) && AllDigits(s[6..8])
    then
      var t := TimeOfDay(Value(s[0..2]), Value(s[3..5]), Value(s[6..8]));
      if Valid(t) then Some(t) else None
    else None
  }

  /** Decoding the readout gives back the reading it was formatted from. */
  lemma ParseReadoutOfReadout(t: TimeOfDay)
    requires Valid(t)
    ensures ParseReadout(Readout(t)) == Some(t)
  {
  }

  /** Whatever decodes was produced by formatting what it decodes to: the readout format is a bijection. */
  lemma ReadoutOfParseReadout(s: string)
    requires ParseReadout(s).Some?
    ensures Readout(ParseReadout(s).value) == s
  {
    var hh, mm, ss := s[0..2], s[3..5], s[6..8];
    var t := ParseReadout(s).value;
    assert t == TimeOfDay(Value(hh), Value(mm), Value(ss));
    FieldOfValue(hh);
    FieldOfValue(mm);
    FieldOfValue(ss);
    assert Readout(t) == Join(hh, mm, ss);
    JoinOfSplit(s);
  }

  /** The sample readings 00:00:00 and 14:05:09. */
  lemma ReadoutExamples()
    ensures Readout(TimeOfDay(0, 0, 0)) == "00:00:00"
    ensures Readout(TimeOfDay(14, 5, 9)) == "14:05:09"
  {
    assert DecimalString(0) == "0";
    assert DecimalString(5) == "5";
    assert DecimalString(9) == "9";
    assert DecimalString(1) == "1";
    assert DecimalString(14) == "14";
  }
}
