/** The timestamp code that ttml2srt.py and its older copy ttml_srt.py hold
    in identical form: the retiming ratio `calc_scale`, the tick arithmetic
    of `ticks_to_ms`, `frames_to_ms`, the hours/minutes/seconds list both
    `timestamp_to_ms` build, and the SubRip formatter `ms_to_subrip`. */
module SubRipTime {
  import opened PyNum
  import opened PyStr

  /** `calc_scale(sdur, tdur)`: the target duration over the source
      duration, as a float. */
  function CalcScale(sdur: int, tdur: int): (r: Result<Num>)
    ensures sdur == 0 <==> r == Err(ZeroDivisionError)
    ensures r.Ok? ==> r.value.Float? && r.value.Value() * (sdur as real) == tdur as real
  {
    if sdur == 0 then Err(ZeroDivisionError) else Ok(Float((tdur as real * 1.0) / sdur as real))
  }

  /** `((1.0 / tickrate) * ticks) * 1000`: the ticks over the rate, in
      milliseconds. */
  function TickMs(n: int, tr: int): (ms: real)
    requires tr != 0
    ensures ms * (tr as real) == (n * 1000) as real
  {
    TickProduct(tr as real, n as real);
    ((1.0 / tr as real) * n as real) * 1000.0
  }

  lemma TickProduct(d: real, x: real)
    requires d != 0.0
    ensures ((1.0 / d) * x) * 1000.0 * d == x * 1000.0
  {
    assert (1.0 / d) * d == 1.0;
  }

  /** `int(frames * (1000 / fps))` once `frames` is an int: with an int
      rate `1000 / fps` is a floor division, with a float rate a true one,
      and `int()` truncates the product. */
  function FrameCountToMs(frames: int, fps: Num): (r: Result<int>)
    ensures r.Err? <==> fps.Value() == 0.0
    ensures r.Err? ==> r.error == ZeroDivisionError
  {
    match fps
    case Int(f) => if f == 0 then Err(ZeroDivisionError) else Ok(frames * FloorDiv(1000, f))
    case Float(f) => if f == 0.0 then Err(ZeroDivisionError) else Ok(FloatFramesMs(frames, f))
  }

  /** `int(frames * (1000 / fps))` with a float rate. */
  function FloatFramesMs(frames: int, f: real): int
    requires f != 0.0
  {
    Trunc(frames as real * (1000.0 / f))
  }

  /** `frames_to_ms(frames, fps)`: the frame field is read with `int()`
      before the rate is used. */
  function FramesToMs(frames: string, fps: Num): (r: Result<int>)
    ensures ParseInt(frames).Err? ==> r == Err(ParseInt(frames).error)
    ensures |frames| > 0 && AllDigits(frames) ==> r == FrameCountToMs(DigitsValue(frames), fps)
  {
    match ParseInt(frames)
    case Err(e) => Err(e)
    case Ok(n) => FrameCountToMs(n, fps)
  }

  /** With an int rate every frame adds the same whole number of
      milliseconds, `1000 / fps` rounded down; the result never overshoots
      the exact time and falls short of it by less than one millisecond
      per frame. */
  lemma {:induction false} FramesIntRate(frames: int, fps: int)
    requires fps > 0
    ensures FrameCountToMs(frames, Int(fps)) == Ok(frames * (1000 / fps))
    ensures frames >= 1 ==>
      var ms := FrameCountToMs(frames, Int(fps)).value;
      ms * fps <= frames * 1000 < (ms + frames) * fps
  {
    var q := 1000 / fps;
    assert q * fps <= 1000 < (q + 1) * fps;
    if frames >= 1 {
      MulLe(frames, q * fps, 1000);
      MulLt(frames, 1000, (q + 1) * fps);
      assert (frames * q) * fps == frames * (q * fps);
      assert (frames * q + frames) * fps == frames * ((q + 1) * fps);
    }
  }

  lemma MulLe(k: int, a: int, b: int)
    requires k >= 0 && a <= b
    ensures k * a <= k * b
  {
  }

  lemma MulLt(k: int, a: int, b: int)
    requires k >= 1 && a < b
    ensures k * a < k * b
  {
  }

  /** With a float rate the conversion is the exact time rounded down. */
  lemma FramesFloatRate(frames: nat, fps: real)
    requires fps > 0.0
    ensures FrameCountToMs(frames, Float(fps)).Ok?
    ensures var ms := FrameCountToMs(frames, Float(fps)).value;
      ms as real <= (frames as real) * 1000.0 / fps < (ms + 1) as real
  {
    var t := (frames as real) * (1000.0 / fps);
    FloatFrameValue(frames, fps);
    assert t >= 0.0 by {
      NonNegProduct(frames as real, 1000.0 / fps);
    }
    TruncBounds(t);
    assert t == (frames as real) * 1000.0 / fps;
  }

  lemma NonNegProduct(a: real, b: real)
    requires a >= 0.0 && b >= 0.0
    ensures a * b >= 0.0
  {
  }

  /** The float branch of `FrameCountToMs`, unfolded on its own. */
  lemma FloatFrameValue(frames: int, fps: real)
    requires fps != 0.0
    ensures FrameCountToMs(frames, Float(fps)).value == Trunc(frames as real * (1000.0 / fps))
  {
  }

  /** For a fixed positive rate, more frames never give fewer milliseconds. */
  lemma FramesMonotone(a: int, b: int, fps: Num)
    requires a <= b && fps.Value() > 0.0
    ensures FrameCountToMs(a, fps).Ok? && FrameCountToMs(b, fps).Ok?
    ensures FrameCountToMs(a, fps).value <= FrameCountToMs(b, fps).value
  {
    match fps
    case Int(f) =>
      var q := FloorDiv(1000, f);
      assert q >= 0;
      MulLeRight(a, b, q);
    case Float(f) =>
      FramesMonotoneFloat(a, b, f);
  }

  lemma FramesMonotoneFloat(a: int, b: int, f: real)
    requires a <= b && f > 0.0
    ensures FrameCountToMs(a, Float(f)).value <= FrameCountToMs(b, Float(f)).value
  {
    FloatFrameValue(a, f);
    FloatFrameValue(b, f);
    assert 1000.0 / f > 0.0;
    TruncScaleMonotone(a as real, b as real, 1000.0 / f);
  }

  lemma TruncScaleMonotone(a: real, b: real, k: real)
    requires a <= b && k >= 0.0
    ensures Trunc(a * k) <= Trunc(b * k)
  {
    ScaleMonotone(a, b, k);
    TruncMonotone(a * k, b * k);
  }

  lemma ScaleMonotone(a: real, b: real, k: real)
    requires a <= b && k >= 0.0
    ensures a * k <= b * k
  {
  }

  lemma MulLeRight(a: int, b: int, q: int)
    requires a <= b && q >= 0
    ensures a * q <= b * q
  {
  }

  /** The list `[int(f[0]) * 3600 * 1000, int(f[1]) * 60 * 1000,
      int(f[2]) * 1000]` both copies of `timestamp_to_ms` build from the
      `:`-separated fields `f`, summed. Python evaluates the list left to
      right, so a field that is not a number or is missing raises at the
      first such field; fields after the third are ignored. */
  function HmsToMs(f: seq<string>): (r: Result<int>)
    requires |f| >= 1
    ensures r.Ok? <==> |f| >= 3 && ParseInt(f[0]).Ok? && ParseInt(f[1]).Ok? && ParseInt(f[2]).Ok?
    ensures r.Ok? ==> r.value == ParseInt(f[0]).value * 3600000 + ParseInt(f[1]).value * 60000 + ParseInt(f[2]).value * 1000
    ensures r.Err? && (forall i :: 0 <= i < |f| ==> ParseInt(f[i]).Ok?) ==> r == Err(IndexError)
  {
    match ParseInt(f[0])
    case Err(e) => Err(e)
    case Ok(h) =>
      if |f| < 2 then Err(IndexError) else
      match ParseInt(f[1])
      case Err(e) => Err(e)
      case Ok(m) =>
        if |f| < 3 then Err(IndexError) else
        match ParseInt(f[2])
        case Err(e) => Err(e)
        case Ok(sec) => Ok(h * 3600 * 1000 + m * 60 * 1000 + sec * 1000)
  }

  /** Hours, minutes and seconds written in decimal, in milliseconds. */
  function HmsValue(h: string, m: string, s: string): int
    requires AllDigits(h) && AllDigits(m) && AllDigits(s)
  {
    DigitsValue(h) * 3600000 + DigitsValue(m) * 60000 + DigitsValue(s) * 1000
  }

  /** Three decimal fields give hours, minutes and seconds in milliseconds. */
  lemma HmsDigits(f: seq<string>)
    requires |f| == 3 && |f[0]| > 0 && |f[1]| > 0 && |f[2]| > 0
    requires AllDigits(f[0]) && AllDigits(f[1]) && AllDigits(f[2])
    ensures HmsToMs(f) == Ok(HmsValue(f[0], f[1], f[2]))
  {
    ParseDigits(f[0]);
    ParseDigits(f[1]);
    ParseDigits(f[2]);
  }

  /** `'{:02d}:{:02d}:{:02d},{:03d}'.format(h, m, s, x)`. */
  function Fields(h: int, m: int, s: int, x: int): string {
    FormatD(h, 2) + ":" + FormatD(m, 2) + ":" + FormatD(s, 2) + "," + FormatD(x, 3)
  }

  /** `ms_to_subrip(ms)`: hours `ms / 3600000`, minutes `ms / 60000` (not
      reduced modulo 60), seconds `(ms % 60000) / 1000` and milliseconds
      `(ms % 60000) % 1000`, each through `int()`. On an int the divisions
      are floor divisions; on a float they are true divisions, `%` is the
      floored float remainder, and `int()` truncates. */
  function MsToSubRip(ms: Num): string {
    match ms
    case Int(n) => Fields(n / 3600000, n / 60000, (n % 60000) / 1000, (n % 60000) % 1000)
    case Float(x) =>
      Fields(Trunc(x / 3600000.0), Trunc(x / 60000.0),
             Trunc(FloatMod(x, 60000.0) / 1000.0), Trunc(FloatMod(FloatMod(x, 60000.0), 1000.0)))
  }

  /** Reading a formatted timestamp back: split off the last `,`, then split
      the rest on `:`; each field reads back as the number it shows. */
  lemma FieldsParse(h: int, m: int, s: int, x: int)
    ensures var p := RSplit1(Fields(h, m, s, x), ',');
      |p| == 2 && p[1] == FormatD(x, 3) &&
      Split(p[0], ':') == [FormatD(h, 2), FormatD(m, 2), FormatD(s, 2)]
    ensures ParseInt(FormatD(h, 2)) == Ok(h) && ParseInt(FormatD(m, 2)) == Ok(m)
    ensures ParseInt(FormatD(s, 2)) == Ok(s) && ParseInt(FormatD(x, 3)) == Ok(x)
  {
    var H, M, S, X := FormatD(h, 2), FormatD(m, 2), FormatD(s, 2), FormatD(x, 3);
    FormatDFacts(h, 2);
    FormatDFacts(m, 2);
    FormatDFacts(s, 2);
    FormatDFacts(x, 3);
    NoSeparators(h, 2);
    NoSeparators(m, 2);
    NoSeparators(s, 2);
    NoSeparators(x, 3);
    SplitOff(H, M, S, X);
    SplitHms(H, M, S);
  }

  lemma NoSeparators(n: int, w: nat)
    ensures ':' !in FormatD(n, w) && ',' !in FormatD(n, w)
  {
    FormatDChars(n, w);
  }

  lemma SplitOff(H: string, M: string, S: string, X: string)
    requires ',' !in X
    ensures RSplit1(H + ":" + M + ":" + S + "," + X, ',') == [H + ":" + M + ":" + S, X]
  {
    var hms := H + ":" + M + ":" + S;
    RSplitCat(hms, X, ',');
  }

  lemma SplitHms(H: string, M: string, S: string)
    requires ':' !in H && ':' !in M && ':' !in S
    ensures Split(H + ":" + M + ":" + S, ':') == [H, M, S]
  {
    assert H + ":" + M + ":" + S == H + [':'] + (M + [':'] + S);
    SplitCons(H, M + [':'] + S, ':');
    SplitCons(M, S, ':');
    SplitNone(S, ':');
  }

  /** The formatted fields of an int millisecond count: hours `n / 3600000`
      (at least two places, widening past 99), minutes `n / 60000` (at
      least two places, not reduced modulo 60), seconds in [0, 59] in
      exactly two places, and `n % 1000` in exactly three. */
  lemma SubRipFields(n: int)
    ensures var p := RSplit1(MsToSubRip(Int(n)), ',');
      |p| == 2 && var f := Split(p[0], ':');
      |f| == 3 &&
      ParseInt(f[0]) == Ok(n / 3600000) && |f[0]| >= 2 &&
      ParseInt(f[1]) == Ok(n / 60000) && |f[1]| >= 2 &&
      ParseInt(f[2]) == Ok((n % 60000) / 1000) && 0 <= (n % 60000) / 1000 < 60 && |f[2]| == 2 &&
      ParseInt(p[1]) == Ok(n % 1000) && |p[1]| == 3
  {
    var h, m, sec, x := n / 3600000, n / 60000, (n % 60000) / 1000, (n % 60000) % 1000;
    FieldsParse(h, m, sec, x);
    FormatDFacts(h, 2);
    FormatDFacts(m, 2);
    MsRemainder(n);
    FormatDFits(sec, 2);
    FormatDFits(x, 3);
  }

  lemma MsRemainder(n: int)
    ensures (n % 60000) % 1000 == n % 1000
    ensures 0 <= (n % 60000) / 1000 < 60
  {
    var q := n / 60000;
    var r := n % 60000;
    assert n == 60000 * q + r;
    assert n == 1000 * (60 * q + r / 1000) + r % 1000;
    ModUnique(n, 1000, 60 * q + r / 1000, r % 1000);
  }

  /** Below one hour the timestamp is twelve characters and starts `00:`. */
  lemma SubHourShape(n: int)
    requires 0 <= n < 3600000
    ensures |MsToSubRip(Int(n))| == 12
    ensures MsToSubRip(Int(n))[..3] == "00:"
  {
    var m, sec, x := n / 60000, (n % 60000) / 1000, (n % 60000) % 1000;
    assert n / 3600000 == 0;
    ShowsFields(n, 0, m, sec, x);
    FormatDFits(0, 2);
    FormatDFits(m, 2);
    FormatDFits(sec, 2);
    FormatDFits(x, 3);
    FieldsShape(FormatD(0, 2), FormatD(m, 2), FormatD(sec, 2), FormatD(x, 3));
  }

  lemma FieldsShape(H: string, M: string, S: string, X: string)
    requires H == "00" && |M| == 2 && |S| == 2 && |X| == 3
    ensures |H + ":" + M + ":" + S + "," + X| == 12
    ensures (H + ":" + M + ":" + S + "," + X)[..3] == "00:"
  {
    var t := H + ":" + M + ":" + S + "," + X;
    assert t[0] == '0' && t[1] == '0' && t[2] == ':';
  }

  /** On a non-negative float the formatter shows the same text as on its
      whole number of milliseconds: every `int()` of a true division and
      every float `%` agrees with the floor division and `%` on the
      floor. */
  lemma FloatFormatFloors(x: real)
    requires x >= 0.0
    ensures MsToSubRip(Float(x)) == MsToSubRip(Int(x.Floor))
  {
    var f := x.Floor;
    var h, m := Trunc(x / 3600000.0), Trunc(x / 60000.0);
    var sec, ms := Trunc(FloatMod(x, 60000.0) / 1000.0), Trunc(FloatMod(FloatMod(x, 60000.0), 1000.0));
    FloatShows(x);
    FloatFieldsFloor(x);
    ShowsFields(f, h, m, sec, ms);
  }

  lemma FloatShows(x: real)
    ensures MsToSubRip(Float(x)) == Fields(Trunc(x / 3600000.0), Trunc(x / 60000.0),
      Trunc(FloatMod(x, 60000.0) / 1000.0), Trunc(FloatMod(FloatMod(x, 60000.0), 1000.0)))
  {
  }

  /** Each float field of `ms_to_subrip` is the int field of the floor. */
  lemma FloatFieldsFloor(x: real)
    requires x >= 0.0
    ensures Trunc(x / 3600000.0) == x.Floor / 3600000
    ensures Trunc(x / 60000.0) == x.Floor / 60000
    ensures Trunc(FloatMod(x, 60000.0) / 1000.0) == (x.Floor % 60000) / 1000
    ensures Trunc(FloatMod(FloatMod(x, 60000.0), 1000.0)) == (x.Floor % 60000) % 1000
  {
    var f := x.Floor;
    var y := FloatMod(x, 60000.0);
    TruncOfQuotient(x, 3600000);
    TruncOfQuotient(x, 60000);
    assert y.Floor == f % 60000 by {
      FloatModFloor(x, 60000);
    }
    TruncOfQuotient(y, 1000);
    assert Trunc(FloatMod(y, 1000.0)) == (f % 60000) % 1000 by {
      FloatModFloor(y, 1000);
      TruncBounds(FloatMod(y, 1000.0));
    }
  }

  /** `int(x / n)` on a non-negative float is the floor division of its floor. */
  lemma TruncOfQuotient(x: real, n: int)
    requires x >= 0.0 && n > 0
    ensures Trunc(x / (n as real)) == x.Floor / n
  {
    FloorDivCommute(x, n);
    NonNegQuotient(x, n as real);
  }

  lemma NonNegQuotient(x: real, d: real)
    requires x >= 0.0 && d > 0.0
    ensures x / d >= 0.0
  {
  }

  /** The float `%` by a positive whole number keeps the floor's `%`. */
  lemma FloatModFloor(x: real, d: int)
    requires x >= 0.0 && d > 0
    ensures FloatMod(x, d as real).Floor == x.Floor % d
  {
    var q := x.Floor / d;
    FloorDivCommute(x, d);
    assert FloatMod(x, d as real) == x - (d as real) * (q as real);
    RealMulCast(d, q);
    FloorShift(x, d * q);
  }

  /** Taking a whole number away moves the floor by that number. */
  lemma FloorShift(x: real, z: int)
    ensures (x - z as real).Floor == x.Floor - z
  {
    FloorUnique(x - z as real, x.Floor - z);
  }

  /** Below 100 minutes every field has its standard width, so sorting the
      formatted strings (as the writer does) puts times in numeric order,
      and two times format alike only when they are equal. */
  lemma SubRipOrder(a: int, b: int)
    requires 0 <= a < 6000000 && 0 <= b < 6000000
    ensures LexLe(MsToSubRip(Int(a)), MsToSubRip(Int(b))) <==> a <= b
    ensures MsToSubRip(Int(a)) == MsToSubRip(Int(b)) <==> a == b
  {
    var ha, ma, sa, xa := a / 3600000, a / 60000, (a % 60000) / 1000, (a % 60000) % 1000;
    var hb, mb, sb, xb := b / 3600000, b / 60000, (b % 60000) / 1000, (b % 60000) % 1000;
    PaddedFields(a);
    PaddedFields(b);
    PadOrder(ha, hb, 2);
    PadOrder(ma, mb, 2);
    PadOrder(sa, sb, 2);
    PadOrder(xa, xb, 3);
    var A1, B1, C1, D1 := Pad(ha, 2), Pad(ma, 2), Pad(sa, 2), Pad(xa, 3);
    var A2, B2, C2, D2 := Pad(hb, 2), Pad(mb, 2), Pad(sb, 2), Pad(xb, 3);
    LexJoin(A1, ":", B1, A2, B2);
    LexJoin(A1 + ":" + B1, ":", C1, A2 + ":" + B2, C2);
    LexJoin(A1 + ":" + B1 + ":" + C1, ",", D1, A2 + ":" + B2 + ":" + C2, D2);
    FieldOrder(a, b);
  }

  /** From 100 minutes on the minutes field is wider, and string order no
      longer follows time: 100 minutes sorts before 99:59.999. */
  lemma SubRipOrderBreaks(a: int, b: int)
    requires a == 5999999 && b == 6000000
    ensures a < b && LexLt(MsToSubRip(Int(b)), MsToSubRip(Int(a)))
  {
    ShowsFields(a, 1, 99, 59, 999);
    ShowsFields(b, 1, 100, 0, 0);
    BreakText();
  }

  lemma ShowsFields(n: int, h: int, m: int, s: int, x: int)
    requires n / 3600000 == h && n / 60000 == m && (n % 60000) / 1000 == s && (n % 60000) % 1000 == x
    ensures MsToSubRip(Int(n)) == Fields(h, m, s, x)
  {
  }

  lemma BreakText()
    ensures LexLt(Fields(1, 100, 0, 0), Fields(1, 99, 59, 999))
  {
    assert FormatD(100, 2) == "100";
    assert FormatD(99, 2) == "99";
    MinutesDecide(1, 100, 0, 0, 99, 59, 999);
  }

  /** With equal hours, the first character of the minutes decides. */
  lemma MinutesDecide(h: int, m1: int, s1: int, x1: int, m2: int, s2: int, x2: int)
    requires |FormatD(m1, 2)| > 0 && |FormatD(m2, 2)| > 0 && FormatD(m1, 2)[0] < FormatD(m2, 2)[0]
    ensures LexLt(Fields(h, m1, s1, x1), Fields(h, m2, s2, x2))
  {
    TextDecide(FormatD(h, 2), FormatD(m1, 2), FormatD(s1, 2), FormatD(x1, 3),
               FormatD(m2, 2), FormatD(s2, 2), FormatD(x2, 3));
  }

  lemma TextDecide(H: string, M1: string, S1: string, X1: string, M2: string, S2: string, X2: string)
    requires |M1| > 0 && |M2| > 0 && M1[0] < M2[0]
    ensures LexLt(H + ":" + M1 + ":" + S1 + "," + X1, H + ":" + M2 + ":" + S2 + "," + X2)
  {
    var t1, t2 := H + ":" + M1 + ":" + S1 + "," + X1, H + ":" + M2 + ":" + S2 + "," + X2;
    var k := |H| + 1;
    assert t1[..k] == H + ":" == t2[..k];
    assert t1[k] == M1[0] && t2[k] == M2[0];
    LexFirstDiff(t1, t2, k);
  }

  /** Below 100 minutes every field is zero-filled to its standard width. */
  lemma PaddedFields(n: int)
    requires 0 <= n < 6000000
    ensures n / 3600000 < 100 && n / 60000 < 100 && (n % 60000) / 1000 < 100 && (n % 60000) % 1000 < 1000
    ensures MsToSubRip(Int(n)) ==
      Pad(n / 3600000, 2) + ":" + Pad(n / 60000, 2) + ":" + Pad((n % 60000) / 1000, 2) + "," + Pad((n % 60000) % 1000, 3)
  {
    var h, m, sec, x := n / 3600000, n / 60000, (n % 60000) / 1000, (n % 60000) % 1000;
    MsRemainder(n);
    ShowsFields(n, h, m, sec, x);
    FormatDFits(h, 2);
    FormatDFits(m, 2);
    FormatDFits(sec, 2);
    FormatDFits(x, 3);
  }

  /** Milliseconds compare as their (hours, minutes, seconds, milliseconds)
      fields compare, first field first. */
  lemma FieldOrder(a: int, b: int)
    requires a >= 0 && b >= 0
    ensures a <= b <==>
      a / 3600000 < b / 3600000 || (a / 3600000 == b / 3600000 &&
      (a / 60000 < b / 60000 || (a / 60000 == b / 60000 &&
      ((a % 60000) / 1000 < (b % 60000) / 1000 || ((a % 60000) / 1000 == (b % 60000) / 1000 &&
      (a % 60000) % 1000 <= (b % 60000) % 1000)))))
    ensures a == b <==>
      a / 60000 == b / 60000 && (a % 60000) / 1000 == (b % 60000) / 1000 && (a % 60000) % 1000 == (b % 60000) % 1000
  {
    var ma, mb := a / 60000, b / 60000;
    var ra, rb := a % 60000, b % 60000;
    assert a == 60000 * ma + ra && b == 60000 * mb + rb;
    assert ra == 1000 * (ra / 1000) + ra % 1000;
    assert rb == 1000 * (rb / 1000) + rb % 1000;
    assert a / 3600000 == ma / 60 && b / 3600000 == mb / 60;
  }

  /** Two-place zero-filled digits of a number below 100. */
  lemma Digits2(n: int, a: nat, b: nat)
    requires a < 10 && b < 10 && n == 10 * a + b
    ensures FormatD(n, 2) == [DigitChar(a), DigitChar(b)]
  {
    FormatDFits(n, 2);
    assert n / 10 == a && n % 10 == b && (n / 10) / 10 == 0 && (n / 10) % 10 == a;
    assert Pad(n / 10, 1) == [DigitChar(a)];
  }

  /** Three-place zero-filled digits of a number below 1000. */
  lemma Digits3(n: int, a: nat, b: nat, c: nat)
    requires a < 10 && b < 10 && c < 10 && n == 100 * a + 10 * b + c
    ensures FormatD(n, 3) == [DigitChar(a), DigitChar(b), DigitChar(c)]
  {
    FormatDFits(n, 3);
    assert n / 10 == 10 * a + b && n % 10 == c;
    assert Pad(n / 10, 2) == [DigitChar(a), DigitChar(b)] by {
      var k := n / 10;
      assert k / 10 == a && k % 10 == b && (k / 10) % 10 == a && (k / 10) / 10 == 0;
      assert Pad(k / 10, 1) == [DigitChar(a)];
    }
  }

  /** 232823 ms is 3 minutes, 52 seconds and 823 ms. */
  lemma SubRipExample(n: int)
    requires n == 232823
    ensures MsToSubRip(Int(n)) == "00:03:52,823"
  {
    ShowsFields(n, 0, 3, 52, 823);
    Digits2(0, 0, 0);
    Digits2(3, 0, 3);
    Digits2(52, 5, 2);
    Digits3(823, 8, 2, 3);
  }

  /** 1001 ms is one second and one millisecond. */
  lemma SubRipExampleSmall(n: int)
    requires n == 1001
    ensures MsToSubRip(Int(n)) == "00:00:01,001"
  {
    ShowsFields(n, 0, 0, 1, 1);
    Digits2(0, 0, 0);
    Digits2(1, 0, 1);
    Digits3(1, 0, 0, 1);
  }

  lemma HourFields()
    ensures Fields(1, 61, 0, 0) == "01:61:00,000"
  {
    Digits2(1, 0, 1);
    Digits2(61, 6, 1);
    Digits2(0, 0, 0);
    Digits3(0, 0, 0, 0);
  }

  /** One hour and one minute shows 61 in the minutes field: the minutes
      are not reduced modulo 60. */
  lemma SubRipExampleHour(n: int)
    requires n == 3660000
    ensures MsToSubRip(Int(n)) == "01:61:00,000"
  {
    ShowsFields(n, 1, 61, 0, 0);
    HourFields();
  }

  /** A negative int time gets minus-signed hour and minute fields: the
      int divisions round toward minus infinity. */
  lemma NegativeIntTime(n: int)
    requires n == -500
    ensures MsToSubRip(Int(n)) == "-1:-1:59,500"
  {
    ShowsFields(n, -1, -1, 59, 500);
    MinusOne();
    NegativeFields();
  }

  lemma MinusOne()
    ensures FormatD(-1, 2) == "-1"
  {
    assert NumDigits(1) == 1;
    assert Pad(1, 1) == "1";
  }

  lemma NegativeFields()
    ensures FormatD(59, 2) == "59" && FormatD(500, 3) == "500" && FormatD(0, 2) == "00"
  {
    Digits2(59, 5, 9);
    Digits3(500, 5, 0, 0);
    Digits2(0, 0, 0);
  }

  /** A float time just below zero has no sign: `int()` truncates the
      hours and minutes to 0 and the float `%` wraps the rest to 59500. */
  lemma NegativeFloatWraps(x: real)
    requires x == -500.0
    ensures MsToSubRip(Float(x)) == "00:00:59,500"
  {
    FloatShows(x);
    NegativeFloatFields(x);
    NegativeFields();
  }

  lemma NegativeFloatFields(x: real)
    requires x == -500.0
    ensures Trunc(x / 3600000.0) == 0 && Trunc(x / 60000.0) == 0
    ensures Trunc(FloatMod(x, 60000.0) / 1000.0) == 59
    ensures Trunc(FloatMod(FloatMod(x, 60000.0), 1000.0)) == 500
  {
    assert (x / 60000.0).Floor == -1;
    assert FloatMod(x, 60000.0) == 59500.0;
    assert (59500.0 / 1000.0).Floor == 59;
    assert FloatMod(59500.0, 1000.0) == 500.0;
  }
}
