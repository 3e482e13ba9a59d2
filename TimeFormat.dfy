/**
 * The countdown display `m:ss`: whole minutes in plain decimal, a colon,
 * and the remaining seconds zero-padded to two digits. `ParseTime` reads
 * such a display back, and the two are proved to be exact inverses.
 */
module TimeFormat {
  import opened Optional

  predicate IsDigit(c: char) {
    '0' <= c <= '9'
  }

  predicate AllDigits(s: string) {
    forall i :: 0 <= i < |s| ==> IsDigit(s[i])
  }

  function DigitChar(d: int): (c: char)
    requires 0 <= d < 10
    ensures IsDigit(c) && DigitValue(c) == d
  {
    (('0' as int) + d) as char
  }

  function DigitValue(c: char): (d: int)
    requires IsDigit(c)
    ensures 0 <= d < 10
  {
    (c as int) - ('0' as int)
  }

  /** The value of a string of decimal digits; leading zeros are allowed. */
  function ParseDecimal(s: string): nat
    requires AllDigits(s)
  {
    if s == [] then 0 else 10 * ParseDecimal(s[..|s| - 1]) + DigitValue(s[|s| - 1])
  }

  /** A decimal numeral as a number's `toString()` writes it: digits only, no leading zero. */
  predicate IsCanonicalDecimal(s: string) {
    |s| >= 1 && AllDigits(s) && (|s| > 1 ==> s[0] != '0')
  }

  /** `Number.prototype.toString()` on a non-negative integer small enough to be written without an exponent. */
  function DecimalString(n: nat): (s: string)
    ensures IsCanonicalDecimal(s)
    ensures s[0] == '0' <==> n == 0
  {
    if n < 10 then [DigitChar(n)] else DecimalString(n / 10) + [DigitChar(n % 10)]
  }

  /** Reading back the rendering of a number gives the number. */
  lemma {:induction false} DecimalStringParses(n: nat)
    ensures ParseDecimal(DecimalString(n)) == n
  {
    var s := DecimalString(n);
    if n < 10 {
      assert s[..0] == [];
    } else {
      var p := DecimalString(n / 10);
      assert s[..|s| - 1] == p;
      DecimalStringParses(n / 10);
    }
  }

  /** `String.prototype.padStart(width, pad)` with a one-character pad string. */
  function PadStart(s: string, width: nat, pad: char): (r: string)
    ensures |r| == if |s| >= width then |s| else width
    ensures r[|r| - |s|..] == s
    ensures forall i :: 0 <= i < |r| - |s| ==> r[i] == pad
  {
    if |s| >= width then s else seq(width - |s|, _ => pad) + s
  }

  /**
   * `formatTime(seconds)`: the minutes numeral, a colon, then the tens and
   * the units digit of the seconds within the minute.
   */
  function FormatTime(seconds: nat): (r: string)
    ensures |r| >= 4 && r[|r| - 3] == ':'
    ensures r[..|r| - 3] == DecimalString(seconds / 60)
    ensures r[|r| - 2..] == [DigitChar(seconds % 60 / 10), DigitChar(seconds % 60 % 10)]
  {
    var mins := DecimalString(seconds / 60);
    var ss := PadStart(DecimalString(seconds % 60), 2, '0');
    TwoDigits(seconds % 60);
    var r := mins + ":" + ss;
    assert r[..|r| - 3] == mins;
    assert r[|r| - 2..] == ss;
    r
  }

  /** A number below 100, padded to width two, is its two decimal digits. */
  lemma TwoDigits(n: nat)
    requires n < 100
    ensures PadStart(DecimalString(n), 2, '0') == [DigitChar(n / 10), DigitChar(n % 10)]
  {
    if n < 10 {
      assert DecimalString(n) == [DigitChar(n)];
      assert PadStart(DecimalString(n), 2, '0') == ['0'] + [DigitChar(n)];
    } else {
      assert DecimalString(n / 10) == [DigitChar(n / 10)];
    }
  }

  /** The tens and units digits of a number below 100 read back as that number. */
  lemma TwoDigitsParse(n: nat)
    requires n < 100
    ensures AllDigits([DigitChar(n / 10), DigitChar(n % 10)])
    ensures ParseDecimal([DigitChar(n / 10), DigitChar(n % 10)]) == n
  {
    var two := [DigitChar(n / 10), DigitChar(n % 10)];
    assert two[..1] == [DigitChar(n / 10)];
    assert [DigitChar(n / 10)][..0] == [];
    assert ParseDecimal(two[..1]) == n / 10;
  }

  /**
   * Reads a countdown display back: a canonical minutes numeral, a colon
   * and exactly two digits below 60. Anything else is rejected.
   */
  function ParseTime(s: string): Option<nat> {
    if |s| >= 4 && s[|s| - 3] == ':' && IsCanonicalDecimal(s[..|s| - 3])
       && AllDigits(s[|s| - 2..]) && ParseDecimal(s[|s| - 2..]) < 60
    then Some(ParseDecimal(s[..|s| - 3]) * 60 + ParseDecimal(s[|s| - 2..]))
    else None
  }

  /** Every canonical numeral is the rendering of its own value. */
  lemma {:induction false} CanonicalDecimalRoundTrip(s: string)
    requires IsCanonicalDecimal(s)
    ensures DecimalString(ParseDecimal(s)) == s
  {
    var n := ParseDecimal(s);
    if |s| == 1 {
      assert s[..0] == [];
      assert ParseDecimal(s[..0]) == 0;
      assert n == DigitValue(s[0]);
      assert s == [DigitChar(n)];
    } else {
      var p := s[..|s| - 1];
      assert p[0] == s[0];
      assert IsCanonicalDecimal(p);
      CanonicalDecimalRoundTrip(p);
      var m := ParseDecimal(p);
      assert m != 0;
      assert n == 10 * m + DigitValue(s[|s| - 1]);
      assert n / 10 == m && n % 10 == DigitValue(s[|s| - 1]);
      assert s == p + [s[|s| - 1]];
    }
  }

  /** Reading a formatted countdown gives back the number of seconds. */
  lemma FormatTimeRoundTrip(seconds: nat)
    ensures ParseTime(FormatTime(seconds)) == Some(seconds)
  {
    var r := FormatTime(seconds);
    DecimalStringParses(seconds / 60);
    TwoDigitsParse(seconds % 60);
    assert ParseDecimal(r[..|r| - 3]) == seconds / 60;
    assert ParseDecimal(r[|r| - 2..]) == seconds % 60;
  }

  /** Whole minutes and seconds below 60 are recovered by division by 60. */
  lemma MinutesSeconds(m: nat, v: nat)
    requires v < 60
    ensures (m * 60 + v) / 60 == m && (m * 60 + v) % 60 == v
  {
  }

  /** A tens digit and a units digit are recovered by division by 10. */
  lemma TensUnits(a: nat, b: nat)
    requires a < 10 && b < 10
    ensures (10 * a + b) / 10 == a && (10 * a + b) % 10 == b
  {
  }

  /** Two digits are the tens and the units of the number they spell. */
  lemma TwoDigitSplit(ss: string)
    requires |ss| == 2 && AllDigits(ss)
    ensures ParseDecimal(ss) < 100
    ensures ss == [DigitChar(ParseDecimal(ss) / 10), DigitChar(ParseDecimal(ss) % 10)]
  {
    assert ss[..1] == [ss[0]];
    assert [ss[0]][..0] == [];
    assert ParseDecimal(ss[..1]) == DigitValue(ss[0]);
    var a, b := DigitValue(ss[0]), DigitValue(ss[1]);
    assert ParseDecimal(ss) == 10 * a + b;
    TensUnits(a, b);
    assert DigitChar(a) == ss[0] && DigitChar(b) == ss[1];
  }

  /** Two canonical numerals with the same value are the same text. */
  lemma CanonicalDecimalInjective(a: string, b: string)
    requires IsCanonicalDecimal(a) && IsCanonicalDecimal(b) && ParseDecimal(a) == ParseDecimal(b)
    ensures a == b
  {
    CanonicalDecimalRoundTrip(a);
    CanonicalDecimalRoundTrip(b);
  }

  /** Two displays that `ParseTime` accepts with the same value are the same text. */
  lemma ParseTimeInjective(s: string, t: string)
    requires ParseTime(s).Some? && ParseTime(s) == ParseTime(t)
    ensures s == t
  {
    var ms, ss := s[..|s| - 3], s[|s| - 2..];
    var mt, st := t[..|t| - 3], t[|t| - 2..];
    MinutesSeconds(ParseDecimal(ms), ParseDecimal(ss));
    MinutesSeconds(ParseDecimal(mt), ParseDecimal(st));
    CanonicalDecimalInjective(ms, mt);
    TwoDigitSplit(ss);
    TwoDigitSplit(st);
    assert s == ms + [':'] + ss;
    assert t == mt + [':'] + st;
  }

  /** Every display that `ParseTime` accepts is exactly what `FormatTime` writes for its value. */
  lemma ParseTimeExact(s: string)
    requires ParseTime(s).Some?
    ensures FormatTime(ParseTime(s).value) == s
  {
    FormatTimeRoundTrip(ParseTime(s).value);
    ParseTimeInjective(FormatTime(ParseTime(s).value), s);
  }

  /** Distinct countdown values never show the same text. */
  lemma FormatTimeInjective(a: nat, b: nat)
    requires FormatTime(a) == FormatTime(b)
    ensures a == b
  {
    FormatTimeRoundTrip(a);
    FormatTimeRoundTrip(b);
  }

  /** Sample displays: 0, 60 and 125 seconds, each read back and rewritten. */
  lemma FormatTimeExamples()
    ensures FormatTime(0) == "0:00"
    ensures FormatTime(60) == "1:00"
    ensures FormatTime(125) == "2:05"
  {
    assert "0"[..0] == "" && "1"[..0] == "" && "2"[..0] == "";
    assert "00"[..1] == "0" && "05"[..1] == "0";
    assert ParseTime("0:00") == Some(0) by {
      assert "0:00"[..1] == "0" && "0:00"[2..] == "00";
    }
    assert ParseTime("1:00") == Some(60) by {
      assert "1:00"[..1] == "1" && "1:00"[2..] == "00";
    }
    assert ParseTime("2:05") == Some(125) by {
      assert "2:05"[..1] == "2" && "2:05"[2..] == "05";
    }
    ParseTimeExact("0:00");
    ParseTimeExact("1:00");
    ParseTimeExact("2:05");
  }

  /** The last second of a minute keeps both digits of the seconds. */
  lemma FormatTimeFiftyNine()
    ensures FormatTime(59) == "0:59"
  {
    assert "0"[..0] == "" && "5"[..0] == "" && "59"[..1] == "5";
    assert ParseTime("0:59") == Some(59) by {
      assert "0:59"[..1] == "0" && "0:59"[2..] == "59";
    }
    ParseTimeExact("0:59");
  }

  /** The two clock starts of the session read 15:00 and 20:00. */
  lemma FormatTimeSectionStarts()
    ensures FormatTime(15 * 60) == "15:00" && FormatTime(20 * 60) == "20:00"
  {
    assert "00"[..1] == "0" && "0"[..0] == "" && "1"[..0] == "" && "2"[..0] == "";
    assert "15"[..1] == "1" && "20"[..1] == "2";
    assert ParseTime("15:00") == Some(900) by {
      assert "15:00"[..2] == "15" && "15:00"[3..] == "00";
    }
    assert ParseTime("20:00") == Some(1200) by {
      assert "20:00"[..2] == "20" && "20:00"[3..] == "00";
    }
    ParseTimeExact("15:00");
    ParseTimeExact("20:00");
  }
}
