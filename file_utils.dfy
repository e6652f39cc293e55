/**
 * The metadata parsers of the upload flow: `parseInt(s, 10)`, the
 * "WIDTHxHEIGHT" resolution parser, the "N fps" frame-rate parser and the
 * frame count of a clip, together with the two strings the upload screen
 * formats for them.
 */
module FileUtils {
  import opened Wrappers
  import opened JsText

  // ---------------------------------------------------------------------
  // parseInt(s, 10)
  // ---------------------------------------------------------------------

  /** `s` without its leading white space. */
  function TrimStart(s: string): (t: string)
    ensures |t| <= |s|
    ensures t == [] || !IsWhiteSpace(t[0])
    decreases |s|
  {
    if s != [] && IsWhiteSpace(s[0]) then TrimStart(s[1..]) else s
  }

  /** The longest run of digits at the start of `s`. */
  function DigitPrefix(s: string): (d: string)
    ensures |d| <= |s| && AllDigits(d)
    ensures |d| == |s| || !IsDigit(s[|d|])
    decreases |s|
  {
    if s != [] && IsDigit(s[0]) then [s[0]] + DigitPrefix(s[1..]) else []
  }

  /** The leading digits of `u` as a number; `None` stands for `NaN` (no digit there). */
  function ParseDigits(u: string): (r: Option<int>)
    ensures r.Some? <==> u != [] && IsDigit(u[0])
    ensures r.Some? ==> r.value >= 0
  {
    var digits := DigitPrefix(u);
    if digits == [] then None else Some(DigitsValue(digits))
  }

  /** Reads an optional sign, then the digits; a minus sign before zero gives zero. */
  function ParseSigned(t: string): (r: Option<int>)
    ensures r.Some? && r.value < 0 ==> t != [] && t[0] == '-'
  {
    if |t| > 0 && t[0] == '-' then
      match ParseDigits(t[1..])
      case None => None
      case Some(v) => Some(-v)
    else if |t| > 0 && t[0] == '+' then ParseDigits(t[1..])
    else ParseDigits(t)
  }

  /**
   * `parseInt(s, 10)`: skip white space, read an optional sign, then the
   * longest run of decimal digits; `None` stands for `NaN`.
   */
  function ParseInt(s: string): (r: Option<int>)
    ensures NoDigits(s) ==> r == None
  {
    assert NoDigits(s) ==> ParseSigned(TrimStart(s)) == None by {
      if NoDigits(s) {
        SignedWithoutDigits(s);
      }
    }
    ParseSigned(TrimStart(s))
  }

  /** Without a digit anywhere, what is left after the white space reads as `NaN`. */
  lemma SignedWithoutDigits(s: string)
    requires NoDigits(s)
    ensures ParseSigned(TrimStart(s)) == None
  {
    var t := TrimStart(s);
    TrimStartSkipsWhiteSpace(s);
    if |t| > 1 {
      assert t[1] == s[|s| - |t| + 1];
    }
    if |t| > 0 {
      assert t[0] == s[|s| - |t|];
    }
  }

  /** What TrimStart removes is white space, and what it keeps is the rest of `s`. */
  lemma {:induction false} TrimStartSkipsWhiteSpace(s: string)
    ensures var t := TrimStart(s);
            && AllWhiteSpace(s[..|s| - |t|]) && s[|s| - |t|..] == t
    decreases |s|
  {
    if s != [] && IsWhiteSpace(s[0]) {
      var t := TrimStart(s[1..]);
      TrimStartSkipsWhiteSpace(s[1..]);
      assert s[1..][|s| - 1 - |t|..] == s[|s| - |t|..];
      assert s[..|s| - |t|] == [s[0]] + s[1..][..|s| - 1 - |t|];
    }
  }

  /** White space followed by anything that is not white space trims to exactly that rest. */
  lemma {:induction false} TrimStartOf(ws: string, t: string)
    requires AllWhiteSpace(ws)
    requires t == [] || !IsWhiteSpace(t[0])
    ensures TrimStart(ws + t) == t
    decreases |ws|
  {
    if ws == [] {
      assert ws + t == t;
    } else {
      assert (ws + t)[0] == ws[0];
      assert (ws + t)[1..] == ws[1..] + t;
      TrimStartOf(ws[1..], t);
    }
  }

  /** DigitPrefix returns a prefix of `s`. */
  lemma {:induction false} DigitPrefixIsPrefix(s: string)
    ensures DigitPrefix(s) == s[..|DigitPrefix(s)|]
    decreases |s|
  {
    if s != [] && IsDigit(s[0]) {
      DigitPrefixIsPrefix(s[1..]);
      assert s[..|DigitPrefix(s)|] == [s[0]] + s[1..][..|DigitPrefix(s[1..])|];
    }
  }

  /** Digits followed by anything that is not a digit yield exactly those digits. */
  lemma {:induction false} DigitPrefixOf(d: string, rest: string)
    requires AllDigits(d)
    requires rest == [] || !IsDigit(rest[0])
    ensures DigitPrefix(d + rest) == d
    decreases |d|
  {
    if d == [] {
      assert d + rest == rest;
    } else {
      assert (d + rest)[0] == d[0];
      assert (d + rest)[1..] == d[1..] + rest;
      DigitPrefixOf(d[1..], rest);
      assert d == [d[0]] + d[1..];
    }
  }

  /** The optional sign in front of the digits. */
  datatype Sign = Unsigned | Plus | Minus {
    function Text(): string {
      match this
      case Unsigned => ""
      case Plus => "+"
      case Minus => "-"
    }
  }

  /** A sign character is passed over, and the digits after it are read; `-` negates them. */
  lemma ParseSignedOfSign(sign: Sign, u: string)
    requires u != [] && IsDigit(u[0])
    ensures var t := sign.Text() + u;
            && t != [] && !IsWhiteSpace(t[0])
            && ParseSigned(t) == if sign == Minus then
                                   (match ParseDigits(u) case None => None case Some(v) => Some(-v))
                                 else ParseDigits(u)
  {
    var t := sign.Text() + u;
    match sign {
      case Unsigned =>
        assert t == u;
      case Plus =>
        assert t[0] == '+' && t[1..] == u;
      case Minus =>
        assert t[0] == '-' && t[1..] == u;
    }
  }

  /** After the white space: the sign, then the digits up to the first non-digit. */
  lemma ParseSignedOf(sign: Sign, digits: string, rest: string)
    requires digits != [] && AllDigits(digits)
    requires rest == [] || !IsDigit(rest[0])
    ensures var t := sign.Text() + digits + rest;
            && t != [] && !IsWhiteSpace(t[0])
            && ParseSigned(t) == Some(if sign == Minus then -(DigitsValue(digits) as int) else DigitsValue(digits))
  {
    var u := digits + rest;
    assert sign.Text() + digits + rest == sign.Text() + u;
    DigitPrefixOf(digits, rest);
    assert ParseDigits(u) == Some(DigitsValue(digits) as int);
    ParseSignedOfSign(sign, u);
  }

  /**
   * Every string that starts, after white space and an optional sign, with
   * a digit parses to the value of its leading digits, negated after `-`;
   * whatever follows the digits is ignored.
   */
  lemma ParseIntDecomposed(ws: string, sign: Sign, digits: string, rest: string)
    requires AllWhiteSpace(ws)
    requires digits != [] && AllDigits(digits)
    requires rest == [] || !IsDigit(rest[0])
    ensures ParseInt(ws + sign.Text() + digits + rest)
         == Some(if sign == Minus then -(DigitsValue(digits) as int) else DigitsValue(digits))
  {
    var t := sign.Text() + digits + rest;
    assert ws + sign.Text() + digits + rest == ws + t;
    ParseSignedOf(sign, digits, rest);
    TrimStartOf(ws, t);
  }

  /**
   * A string with no digit right after its white space and optional sign
   * parses to `NaN`.
   */
  lemma ParseIntNaN(ws: string, sign: Sign, rest: string)
    requires AllWhiteSpace(ws)
    requires rest == [] || !IsDigit(rest[0])
    requires sign == Unsigned ==> rest == [] || (!IsWhiteSpace(rest[0]) && rest[0] != '+' && rest[0] != '-')
    ensures ParseInt(ws + sign.Text() + rest) == None
  {
    var t := sign.Text() + rest;
    assert ws + sign.Text() + rest == ws + t;
    ParseSignedNaN(sign, rest);
    TrimStartOf(ws, t);
  }

  /** After the white space: a sign, or none, with no digit after it reads as `NaN`. */
  lemma ParseSignedNaN(sign: Sign, rest: string)
    requires rest == [] || !IsDigit(rest[0])
    requires sign == Unsigned ==> rest == [] || (!IsWhiteSpace(rest[0]) && rest[0] != '+' && rest[0] != '-')
    ensures var t := sign.Text() + rest;
            && (t == [] || !IsWhiteSpace(t[0]))
            && ParseSigned(t) == None
  {
    var t := sign.Text() + rest;
    DigitPrefixOf([], rest);
    assert [] + rest == rest;
    match sign {
      case Unsigned =>
        assert t == rest;
      case Plus =>
        assert t[0] == '+' && t[1..] == rest;
      case Minus =>
        assert t[0] == '-' && t[1..] == rest;
    }
  }

  /** A bare run of digits (what the frame-rate regex captures) parses to its value. */
  lemma ParseIntOfDigits(digits: string)
    requires digits != [] && AllDigits(digits)
    ensures ParseInt(digits) == Some(DigitsValue(digits))
  {
    ParseIntDecomposed("", Unsigned, digits, "");
    assert "" + Unsigned.Text() + digits + "" == digits;
  }

  // ---------------------------------------------------------------------
  // parseVideoResolution
  // ---------------------------------------------------------------------

  datatype Resolution = Resolution(width: int, height: int)

  const NoResolution := Resolution(0, 0)

  /**
   * parseVideoResolution: "" and "Unknown" are rejected, the string must
   * split on a lower-case `x` into exactly two pieces, and both pieces must
   * parse (`parseInt`) to positive numbers; every rejection gives 0x0.
   */
  function ParseVideoResolution(resolution: string): (r: Resolution)
    ensures r == NoResolution || (r.width > 0 && r.height > 0)
  {
    if resolution == "" || resolution == "Unknown" then NoResolution
    else
      var parts := Split(resolution, 'x');
      if |parts| != 2 then NoResolution
      else
        var width := ParseInt(parts[0]);
        var height := ParseInt(parts[1]);
        if width.None? || height.None? || width.value <= 0 || height.value <= 0 then NoResolution
        else Resolution(width.value, height.value)
  }

  /** The resolution string of the upload screen: `${videoWidth}x${videoHeight}`. */
  function FormatResolution(width: nat, height: nat): (s: string)
    ensures Count(s, 'x') == 1
  {
    var a, b := NatToString(width), NatToString(height);
    NoXInDigits(a);
    NoXInDigits(b);
    assert multiset(a + "x" + b) == multiset(a) + multiset{'x'} + multiset(b);
    a + "x" + b
  }

  /** Anything but exactly one lower-case `x` is rejected. */
  lemma ResolutionNeedsOneX(resolution: string)
    requires Count(resolution, 'x') != 1
    ensures ParseVideoResolution(resolution) == NoResolution
  {
    SplitCount(resolution, 'x');
  }

  /**
   * With exactly one `x`, the result is the pair of numbers the two sides
   * parse to when both are positive, and 0x0 otherwise.
   */
  lemma ResolutionOfSides(a: string, b: string)
    requires 'x' !in a && 'x' !in b
    ensures var r := ParseVideoResolution(a + "x" + b);
            && (r != NoResolution <==>
                 ParseInt(a).Some? && ParseInt(b).Some? && ParseInt(a).value > 0 && ParseInt(b).value > 0)
            && (r != NoResolution ==> r.width == ParseInt(a).value && r.height == ParseInt(b).value)
  {
    var s := a + "x" + b;
    assert s != "Unknown" by { assert 'x' in s; }
    SplitOnce(a, b, 'x');
    assert a + ['x'] + b == s;
  }

  lemma NoXInDigits(s: string)
    requires AllDigits(s)
    ensures 'x' !in s
  {
  }

  /**
   * The string the upload screen formats parses back to the same pair when
   * both sides are positive; a zero side (no video metadata) gives 0x0.
   */
  lemma ResolutionRoundTrip(width: nat, height: nat)
    ensures ParseVideoResolution(FormatResolution(width, height))
         == if width > 0 && height > 0 then Resolution(width, height) else NoResolution
  {
    var a, b := NatToString(width), NatToString(height);
    NoXInDigits(a);
    NoXInDigits(b);
    ResolutionOfSides(a, b);
    ParseIntOfDigits(a);
    ParseIntOfDigits(b);
    NatToStringValue(width);
    NatToStringValue(height);
  }

  /** A string without a lower-case `x` is rejected. */
  lemma ResolutionWithoutX(resolution: string)
    requires 'x' !in resolution
    ensures ParseVideoResolution(resolution) == NoResolution
  {
    assert 'x' !in multiset(resolution);
    ResolutionNeedsOneX(resolution);
  }

  /** A string with two `x`s, such as "1920x1080x1", is rejected. */
  lemma ResolutionRejectsTwoX(a: string, b: string, c: string)
    requires 'x' !in a && 'x' !in b && 'x' !in c
    ensures ParseVideoResolution(a + "x" + b + "x" + c) == NoResolution
  {
    var s := a + "x" + b + "x" + c;
    assert multiset(s) == multiset(a) + multiset{'x'} + multiset(b) + multiset{'x'} + multiset(c);
    assert 'x' !in multiset(a) && 'x' !in multiset(b) && 'x' !in multiset(c);
    ResolutionNeedsOneX(s);
  }

  /** The empty string, "Unknown", a bare number and an upper-case `X` are all rejected. */
  lemma ResolutionRejectsShape()
    ensures ParseVideoResolution("") == NoResolution
    ensures ParseVideoResolution("Unknown") == NoResolution
    ensures ParseVideoResolution("1920") == NoResolution
    ensures ParseVideoResolution("1920X1080") == NoResolution
  {
    ResolutionWithoutX("1920");
    ResolutionWithoutX("1920X1080");
  }

  lemma ParseIntOfNegative(digits: string)
    requires digits != [] && AllDigits(digits)
    ensures ParseInt("-" + digits) == Some(-(DigitsValue(digits) as int))
  {
    ParseIntDecomposed("", Minus, digits, "");
    assert "" + Minus.Text() + digits + "" == "-" + digits;
  }

  /** A negative width, such as "-5x10", is rejected whatever the height. */
  lemma ResolutionRejectsNegativeWidth(width: nat, height: string)
    requires 'x' !in height
    ensures ParseVideoResolution("-" + NatToString(width) + "x" + height) == NoResolution
  {
    var digits := NatToString(width);
    NoXInDigits(digits);
    ParseIntOfNegative(digits);
    ResolutionOfSides("-" + digits, height);
  }

  /** A width with no digit, such as "abcx1080", "x1080" or "-x1080", is rejected. */
  lemma ResolutionRejectsNonNumericWidth(width: string, height: string)
    requires 'x' !in width && 'x' !in height
    requires NoDigits(width)
    ensures ParseVideoResolution(width + "x" + height) == NoResolution
  {
    ResolutionOfSides(width, height);
  }

  /** The decimal text of any integer, negative ones included, parses back to it. */
  lemma IntToStringRoundTrip(i: int)
    ensures ParseInt(IntToString(i)) == Some(i)
  {
    if i < 0 {
      NatToStringValue(-i);
      ParseIntOfNegative(NatToString(-i));
    } else {
      NatToStringValue(i);
      ParseIntOfDigits(NatToString(i));
    }
  }

  // ---------------------------------------------------------------------
  // parseVideoFPS
  // ---------------------------------------------------------------------

  /** The capture of `/(\d+)/`: the first maximal run of digits, if any. */
  function FirstDigitRun(s: string): (m: Option<string>)
    ensures m.None? <==> NoDigits(s)
    ensures m.Some? ==> m.value != [] && AllDigits(m.value)
    decreases |s|
  {
    if s == [] then None
    else if IsDigit(s[0]) then Some(DigitPrefix(s))
    else
      var m := FirstDigitRun(s[1..]);
      assert NoDigits(s[1..]) ==> NoDigits(s) by {
        if NoDigits(s[1..]) {
          forall i | 0 <= i < |s| ensures !IsDigit(s[i]) {
            if i > 0 { assert s[i] == s[1..][i - 1]; }
          }
        }
      }
      m
  }

  /**
   * parseVideoFPS: the value of the first run of digits (parsed with
   * `parseInt`, see ParseIntOfDigits), or 30 when the string has no digit.
   */
  function ParseVideoFPS(fps: string): (r: int)
    ensures r >= 0
    ensures NoDigits(fps) ==> r == 30
  {
    match FirstDigitRun(fps)
    case None => 30
    case Some(run) => DigitsValue(run)
  }

  /** The frame-rate string of the upload screen: `${fps} fps`. */
  function FormatFPS(fps: nat): (s: string)
    ensures s != [] && IsDigit(s[0])
  {
    NatToString(fps) + " fps"
  }

  /**
   * The text before the first digit is skipped, the digit run is read to
   * its end, and whatever follows is ignored.
   */
  lemma {:induction false} FpsOfFirstRun(before: string, run: string, after: string)
    requires NoDigits(before)
    requires run != [] && AllDigits(run)
    requires after == [] || !IsDigit(after[0])
    ensures ParseVideoFPS(before + run + after) == DigitsValue(run)
    decreases |before|
  {
    var s := before + run + after;
    if before == [] {
      assert s == run + after;
      DigitPrefixOf(run, after);
    } else {
      assert !IsDigit(before[0]);
      assert s[1..] == before[1..] + run + after;
      FpsOfFirstRun(before[1..], run, after);
    }
  }

  lemma FpsRoundTrip(fps: nat)
    ensures ParseVideoFPS(FormatFPS(fps)) == fps
  {
    var run := NatToString(fps);
    assert FormatFPS(fps) == "" + run + " fps";
    FpsOfFirstRun("", run, " fps");
    NatToStringValue(fps);
  }

  /** The shortcut through DigitsValue is what `parseInt` makes of the captured run. */
  lemma FpsUsesParseInt(fps: string)
    requires FirstDigitRun(fps).Some?
    ensures ParseInt(FirstDigitRun(fps).value) == Some(ParseVideoFPS(fps))
  {
    ParseIntOfDigits(FirstDigitRun(fps).value);
  }

  /** A string without digits, such as "Unknown", gives the default of 30. */
  lemma FpsDefault()
    ensures ParseVideoFPS("Unknown") == 30
  {
    assert NoDigits("Unknown");
  }

  /** A fractional rate is cut at the dot, and the upload screen's text reads back. */
  lemma FpsExamples()
    ensures ParseVideoFPS("29.97 fps") == 29
    ensures ParseVideoFPS("60 fps") == 60
  {
    assert "29.97 fps" == "" + "29" + ".97 fps";
    FpsOfFirstRun("", "29", ".97 fps");
    FpsRoundTrip(60);
    assert FormatFPS(60) == "60 fps";
  }

  // ---------------------------------------------------------------------
  // calculateFrameNumber
  // ---------------------------------------------------------------------

  /** calculateFrameNumber: the whole number of frames in `duration` seconds at `fps`. */
  function CalculateFrameNumber(duration: real, fps: real): (r: int)
    ensures r as real <= duration * fps < r as real + 1.0
  {
    (duration * fps).Floor
  }

  /** With a whole number of seconds and frames per second, nothing is rounded away. */
  lemma FrameNumberOfWholeNumbers(duration: int, fps: int)
    ensures CalculateFrameNumber(duration as real, fps as real) == duration * fps
  {
    assert (duration as real) * (fps as real) == (duration * fps) as real;
  }
}
