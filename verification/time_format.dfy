/**
 * The `M:SS` rendering of a count of seconds shown on the key, and a reader
 * for it. The renderer follows the JavaScript expression it models: minutes
 * by `Math.floor(seconds / 60)`, seconds by the truncating `%`, and the
 * seconds field left-padded with '0' to two characters by `padStart`.
 */
module TimeFormat {
  import opened Wrappers
  import opened Decimal

  /** JavaScript's `%` on integers: the remainder of the division truncated toward
      zero. It differs from `a` by a multiple of `b`, is smaller than `b` in magnitude,
      and never has the opposite sign of `a`. */
  function JsRem(a: int, b: int): (r: int)
    requires b > 0
    ensures -b < r < b
    ensures (a - r) % b == 0
    ensures a >= 0 ==> r >= 0
    ensures a <= 0 ==> r <= 0
  {
    if a >= 0 then
      var q := a / b;
      assert a - a % b == q * b;
      MultipleMod(q, b);
      a % b
    else
      var q := (-a) / b;
      assert a + (-a) % b == (-q) * b;
      MultipleMod(-q, b);
      -((-a) % b)
  }

  /** A product with a factor of at least 1 is at least the other, positive factor. */
  lemma MulAtLeast(d: int, b: int)
    requires d >= 1 && b > 0
    ensures d * b >= b
  {
    assert d * b == (d - 1) * b + b;
  }

  /** Euclidean remainders are unique: writing `x` as `q * b + r` with `0 <= r < b` fixes `r`. */
  lemma ModUnique(x: int, q: int, b: int, r: int)
    requires b > 0 && 0 <= r < b && x == q * b + r
    ensures x % b == r
  {
    var q' := x / b;
    var r' := x % b;
    assert x == q' * b + r';
    assert (q - q') * b == r' - r;
    if q - q' >= 1 {
      MulAtLeast(q - q', b);
    } else if q' - q >= 1 {
      MulAtLeast(q' - q, b);
    }
  }

  /** A multiple of `b` leaves no remainder. */
  lemma MultipleMod(k: int, b: int)
    requires b > 0
    ensures (k * b) % b == 0
  {
    ModUnique(k * b, k, b, 0);
  }

  /** The three properties single out JavaScript's remainder: any value that has
      them is the truncated remainder, for a non-negative dividend the ordinary one. */
  lemma JsRemDetermined(a: int, b: int, r: int)
    requires b > 0
    requires -b < r < b && (a - r) % b == 0
    requires a >= 0 ==> r >= 0
    requires a <= 0 ==> r <= 0
    ensures r == JsRem(a, b)
    ensures a >= 0 ==> r == a % b
  {
    var k := (a - r) / b;
    assert a - r == k * b;
    if a >= 0 {
      ModUnique(a, k, b, r);
    } else {
      // -a = (-k) * b + (-r) with 0 <= -r < b
      assert -a == (-k) * b + (-r);
      ModUnique(-a, -k, b, -r);
    }
  }

  /** JavaScript's `String.prototype.padStart(width, fill)` for a one-character fill. */
  function PadStart(s: string, width: nat, fill: char): (r: string)
    ensures |r| == if |s| >= width then |s| else width
    ensures r[|r| - |s|..] == s
    ensures forall i :: 0 <= i < |r| - |s| ==> r[i] == fill
  {
    if |s| >= width then s else seq(width - |s|, _ => fill) + s
  }

  /** Two digits for a seconds field: tens then units. */
  function TwoDigits(sec: nat): string
    requires sec < 60
  {
    [DigitChar(sec / 10), DigitChar(sec % 10)]
  }

  /** The key title for a count of seconds (see FormatTimeShape for its form). */
  function FormatTime(seconds: int): string {
    // For a positive divisor, Dafny's `/` is the floor that Math.floor computes.
    var m := seconds / 60;
    var s := JsRem(seconds, 60);
    IntToString(m) + ":" + PadStart(IntToString(s), 2, '0')
  }

  /** For a non-negative count the title reads `m:ss`: whole minutes unpadded,
      then the leftover seconds as exactly two digits. */
  lemma FormatTimeShape(seconds: nat)
    ensures FormatTime(seconds) == Shape(seconds)
  {
    var m: nat := seconds / 60;
    var sec: nat := seconds % 60;
    JsRemDetermined(seconds, 60, JsRem(seconds, 60));
    assert IntToString(m) == NatToString(m);
    PaddedSeconds(sec);
  }

  /** Padding the rendering of a seconds field gives its two digits. */
  lemma PaddedSeconds(sec: nat)
    requires sec < 60
    ensures PadStart(IntToString(sec), 2, '0') == TwoDigits(sec)
  {
    if sec >= 10 {
      assert NatToString(sec) == NatToString(sec / 10) + [DigitChar(sec % 10)];
    }
  }

  /** Reads a title of the form `m:ss` (canonical minutes, seconds field below 60)
      back to a count of seconds; any other text is rejected. */
  function ParseTime(t: string): Option<nat> {
    if |t| < 4 || t[|t| - 3] != ':' then None
    else
      var minutes := ParseNat(t[..|t| - 3]);
      var tens := t[|t| - 2];
      var units := t[|t| - 1];
      if minutes.None? || !IsDigit(tens) || !IsDigit(units) || DigitValue(tens) >= 6 then None
      else Some(minutes.value * 60 + DigitValue(tens) * 10 + DigitValue(units))
  }

  /** The `m:ss` text of a count, built from its parts. */
  function Shape(n: nat): string {
    NatToString(n / 60) + ":" + TwoDigits(n % 60)
  }

  /** Reading the `m:ss` text of a count gives the count back. */
  lemma ParseShape(n: nat)
    ensures ParseTime(Shape(n)) == Some(n)
  {
    var t := Shape(n);
    var m := NatToString(n / 60);
    var sec := n % 60;
    assert t == m + [':', DigitChar(sec / 10), DigitChar(sec % 10)];
    assert |t| >= 4 && t[|t| - 3] == ':';
    assert t[..|t| - 3] == m;
    ParseNatIff(m, n / 60);
    assert DigitValue(t[|t| - 2]) == sec / 10;
    assert DigitValue(t[|t| - 1]) == sec % 10;
  }

  /** Reading a rendered count gives the count back. */
  lemma ParseFormatRoundTrip(n: nat)
    ensures ParseTime(FormatTime(n)) == Some(n)
  {
    FormatTimeShape(n);
    ParseShape(n);
  }

  /** Every text the reader accepts is the `m:ss` text of the count it yields. */
  lemma ParsedIsShape(t: string, n: nat)
    requires ParseTime(t) == Some(n)
    ensures Shape(n) == t
  {
    var mins := t[..|t| - 3];
    var m := ParseNat(mins).value;
    ParseNatIff(mins, m);
    var sec := DigitValue(t[|t| - 2]) * 10 + DigitValue(t[|t| - 1]);
    assert n == m * 60 + sec && sec < 60;
    assert n / 60 == m && n % 60 == sec;
    assert DigitChar(sec / 10) == t[|t| - 2] && DigitChar(sec % 10) == t[|t| - 1];
    assert t == mins + [':', t[|t| - 2], t[|t| - 1]];
  }

  /** Every text the reader accepts is exactly the rendering of the count it yields. */
  lemma FormatParseRoundTrip(t: string, n: nat)
    requires ParseTime(t) == Some(n)
    ensures FormatTime(n) == t
  {
    ParsedIsShape(t, n);
    FormatTimeShape(n);
  }

  /** The reader and the renderer are inverse: a text reads as `n` exactly when it is the rendering of `n`. */
  lemma ParseTimeIff(t: string, n: nat)
    ensures ParseTime(t) == Some(n) <==> t == FormatTime(n)
  {
    if t == FormatTime(n) {
      ParseFormatRoundTrip(n);
    }
    if ParseTime(t) == Some(n) {
      FormatParseRoundTrip(t, n);
    }
  }

  /** Distinct non-negative counts never share a title. */
  lemma FormatTimeInjective(a: nat, b: nat)
    ensures FormatTime(a) == FormatTime(b) <==> a == b
  {
    ParseFormatRoundTrip(a);
    ParseFormatRoundTrip(b);
  }

  /** The `m:ss` text assembled from a minutes numeral and two seconds digits. */
  lemma ShapeFromParts(n: nat, minutes: string, tens: char, units: char)
    requires NatToString(n / 60) == minutes
    requires DigitChar(n % 60 / 10) == tens && DigitChar(n % 60 % 10) == units
    ensures Shape(n) == minutes + [':', tens, units]
  {
    assert TwoDigits(n % 60) == [tens, units];
    assert ":" + [tens, units] == [':', tens, units];
  }

  /** 754 seconds are written "12:34". */
  lemma Shape754()
    ensures Shape(754) == "12:34"
  {
    assert 754 / 60 == 12 && 754 % 60 == 34;
    assert 34 / 10 == 3 && 34 % 10 == 4;
    assert NatToString(12) == "12" by {
      assert 12 / 10 == 1 && 12 % 10 == 2;
      assert NatToString(1) == [DigitChar(1)] == "1";
      assert NatToString(12) == NatToString(1) + [DigitChar(2)];
    }
    assert DigitChar(3) == '3' && DigitChar(4) == '4';
    ShapeFromParts(754, "12", '3', '4');
  }

  /** 754 seconds render as "12:34". */
  lemma FormatTime754()
    ensures FormatTime(754) == "12:34"
  {
    FormatTimeShape(754);
    Shape754();
  }

  /** 59 seconds are written "0:59". */
  lemma Shape59()
    ensures Shape(59) == "0:59"
  {
    assert 59 / 60 == 0 && 59 % 60 == 59;
    assert 59 / 10 == 5 && 59 % 10 == 9;
    assert NatToString(0) == "0";
    assert DigitChar(5) == '5' && DigitChar(9) == '9';
    ShapeFromParts(59, "0", '5', '9');
  }

  /** 59 seconds render as "0:59". */
  lemma FormatTime59()
    ensures FormatTime(59) == "0:59"
  {
    FormatTimeShape(59);
    Shape59();
  }

  /** Zero seconds are written "0:00". */
  lemma Shape0()
    ensures Shape(0) == "0:00"
  {
    assert NatToString(0) == "0";
    assert DigitChar(0) == '0';
    ShapeFromParts(0, "0", '0', '0');
  }

  /** Zero seconds render as "0:00". */
  lemma FormatTime0()
    ensures FormatTime(0) == "0:00"
  {
    FormatTimeShape(0);
    Shape0();
  }

  /** The full 25 minutes are written "25:00". */
  lemma Shape1500()
    ensures Shape(1500) == "25:00"
  {
    assert 1500 / 60 == 25 && 1500 % 60 == 0;
    assert NatToString(25) == "25" by {
      assert 25 / 10 == 2 && 25 % 10 == 5;
      assert NatToString(2) == [DigitChar(2)] == "2";
      assert NatToString(25) == NatToString(2) + [DigitChar(5)];
    }
    assert DigitChar(0) == '0';
    ShapeFromParts(1500, "25", '0', '0');
  }

  /** The full 25 minutes render as "25:00". */
  lemma FormatTime1500()
    ensures FormatTime(1500) == "25:00"
  {
    FormatTimeShape(1500);
    Shape1500();
  }

  /** A negative count renders with a signed minutes field and a signed,
      unpadded seconds field, as the JavaScript arithmetic does. */
  lemma FormatTimeNegative()
    ensures FormatTime(-1) == "-1:-1"
    ensures FormatTime(-61) == "-2:-1"
    ensures FormatTime(-60) == "-1:00"
  {
    assert JsRem(-1, 60) == -1 && -1 / 60 == -1;
    assert IntToString(-1) == "-1";
    assert JsRem(-61, 60) == -1 && -61 / 60 == -2;
    assert IntToString(-2) == "-2";
    assert JsRem(-60, 60) == 0 && -60 / 60 == -1;
    assert PadStart(IntToString(0), 2, '0') == "00";
  }
}
