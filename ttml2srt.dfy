/** The timestamp pipeline of ttml2srt.py: a TTML `begin`/`end` value is
    classified by its last non-digit character, converted to milliseconds
    (offset ticks `Nt`, or clock time `HH:MM:SS<d>FF` whose trailing field
    counts frames), scaled, shifted and formatted as a SubRip timestamp. */
module Ttml2Srt {
  import opened PyNum
  import opened PyStr
  import opened SubRipTime

  /** `scaler(time, scale)`: `scale * time`, int only when both are. */
  function Scaler(time: Num, scale: Num): (r: Num)
    ensures r.Value() == scale.Value() * time.Value()
    ensures r.Int? <==> time.Int? && scale.Int?
  {
    Mul(scale, time)
  }

  /** `ticks_to_ms(tickrate, ticks, scale)`: `1.0 / tickrate` is taken
      first (no rate raises TypeError, a zero rate ZeroDivisionError), then
      the trailing `t`s are stripped and the rest read with `int()`; the
      product is a float. */
  function TicksToMs(tickRate: Option<int>, ticks: string, scale: Num): (r: Result<Num>)
    ensures tickRate.None? ==> r == Err(TypeError)
    ensures tickRate == Some(0) ==> r == Err(ZeroDivisionError)
    ensures tickRate.Some? && tickRate.value != 0 ==>
      (r.Ok? <==> ParseInt(RStripChar(ticks, 't')).Ok?)
    ensures tickRate.Some? && tickRate.value != 0 && ParseInt(RStripChar(ticks, 't')).Err? ==>
      r == Err(ParseInt(RStripChar(ticks, 't')).error)
    ensures r.Ok? ==> r.value.Float?
  {
    match tickRate
    case None => Err(TypeError)
    case Some(tr) =>
      if tr == 0 then Err(ZeroDivisionError)
      else
        match ParseInt(RStripChar(ticks, 't'))
        case Err(e) => Err(e)
        case Ok(n) => Ok(Scaler(Float(TickMs(n, tr)), scale))
  }

  /** `timestamp_to_ms(time, fps, delim, scale)`: `rsplit(delim, 1)` must
      give two parts (else the unpacking raises ValueError); the trailing
      part is a frame count, converted first; the `:`-separated fields
      before it give hours, minutes and seconds; the sum is scaled. */
  function TimestampToMs(time: string, fps: Num, delim: char, scale: Num): (r: Result<Num>)
    ensures r.Ok? ==> (r.value.Int? <==> scale.Int?)
  {
    var p := RSplit1(time, delim);
    if |p| != 2 then Err(ValueError)
    else
      match FramesToMs(p[1], fps)
      case Err(e) => Err(e)
      case Ok(ms) =>
        match HmsToMs(Split(p[0], ':'))
        case Err(e) => Err(e)
        case Ok(hms) => Ok(Scaler(Int(hms + ms), scale))
  }

  /** Without the delimiter the unpacking of `rsplit` raises ValueError. */
  lemma MissingDelimiter(time: string, fps: Num, delim: char, scale: Num)
    requires delim !in time
    ensures TimestampToMs(time, fps, delim, scale) == Err(ValueError)
  {
  }

  /** With the delimiter present, the frames after its last occurrence are
      converted first, and their error is the result. */
  lemma TimestampFramesFirst(time: string, fps: Num, c: char, scale: Num, p: string, f: string)
    requires time == p + [c] + f && c !in f
    requires FramesToMs(f, fps).Err?
    ensures TimestampToMs(time, fps, c, scale) == Err(FramesToMs(f, fps).error)
  {
    RSplitCat(p, f, c);
  }

  /** Once the frames are read, an error of the hours, minutes and
      seconds list (fewer than three fields, or one of the first three
      unreadable) is the result. */
  lemma TimestampFieldsErr(time: string, fps: Num, c: char, scale: Num, p: string, f: string)
    requires time == p + [c] + f && c !in f
    requires FramesToMs(f, fps).Ok? && HmsToMs(Split(p, ':')).Err?
    ensures TimestampToMs(time, fps, c, scale) == Err(HmsToMs(Split(p, ':')).error)
  {
    RSplitCat(p, f, c);
  }

  /** Otherwise the first three `:`-separated fields before the last
      delimiter are hours, minutes and seconds, any later field is
      ignored, the frame milliseconds are added and the sum is scaled. */
  lemma TimestampFields(time: string, fps: Num, c: char, scale: Num, p: string, f: string)
    requires time == p + [c] + f && c !in f
    requires FramesToMs(f, fps).Ok?
    requires var h := Split(p, ':');
      |h| >= 3 && ParseInt(h[0]).Ok? && ParseInt(h[1]).Ok? && ParseInt(h[2]).Ok?
    ensures TimestampToMs(time, fps, c, scale).Ok?
    ensures var h := Split(p, ':');
      TimestampToMs(time, fps, c, scale).value ==
        Scaler(Int(ParseInt(h[0]).value * 3600000 + ParseInt(h[1]).value * 60000 + ParseInt(h[2]).value * 1000
                   + FramesToMs(f, fps).value), scale)
  {
    RSplitCat(p, f, c);
    var a, b := HmsToMs(Split(p, ':')).value, FramesToMs(f, fps).value;
    TimestampParts(time, fps, c, scale, p, f, a, b, a + b);
  }

  /** `delim.lower() == 't'`. */
  predicate IsTickMark(c: char) {
    c == 't' || c == 'T'
  }

  /** `get_sb_timestamp_be(time, shift, fps, tick_rate, scale)`: the last
      non-digit character of `time` is the delimiter (a string of digits
      only has none, and indexing the empty list raises IndexError); `t`
      or `T` selects the tick branch, anything else the clock branch split
      on that character; the shift is added to the scaled time and the sum
      formatted. */
  function GetSbTimestampBe(time: string, shift: int, fps: Num, tickRate: Option<int>, scale: Num): Result<string>
  {
    var k := LastNonDigitIndex(time);
    if k < 0 then Err(IndexError)
    else
      var delim := time[k];
      var ms := if IsTickMark(delim) then TicksToMs(tickRate, time, scale) else TimestampToMs(time, fps, delim, scale);
      match ms
      case Err(e) => Err(e)
      case Ok(v) => Ok(MsToSubRip(Add(v, Int(shift))))
  }

  /** A time with no non-digit character has no delimiter to index. */
  lemma NoDelimiter(time: string, shift: int, fps: Num, tickRate: Option<int>, scale: Num)
    requires AllDigits(time)
    ensures GetSbTimestampBe(time, shift, fps, tickRate, scale) == Err(IndexError)
  {
  }

  /** Clock time `H:M:S<c>F` with decimal fields and a delimiter `c` that
      is neither a digit nor `t`/`T` (`:`, `.` and `,` among them): hours,
      minutes and seconds in milliseconds plus the frames converted at
      `fps`, scaled, then shifted. */
  lemma ClockForm(time: string, h: string, m: string, s: string, c: char, f: string,
                  shift: int, fps: Num, tickRate: Option<int>, scale: Num, ms: int)
    requires time == h + ":" + m + ":" + s + [c] + f
    requires |h| > 0 && |m| > 0 && |s| > 0 && |f| > 0
    requires AllDigits(h) && AllDigits(m) && AllDigits(s) && AllDigits(f)
    requires !IsDigit(c) && !IsTickMark(c) && fps.Value() != 0.0
    requires ms == HmsValue(h, m, s) + FrameCountToMs(DigitsValue(f), fps).value
    ensures GetSbTimestampBe(time, shift, fps, tickRate, scale) == Ok(MsToSubRip(Add(Scaler(Int(ms), scale), Int(shift))))
  {
    var hms := h + ":" + m + ":" + s;
    assert LastNonDigitIndex(time) == |hms| by {
      LastNonDigitAt(hms, c, f);
    }
    assert time[|hms|] == c;
    TimestampForm(time, h, m, s, c, f, fps, scale, ms);
  }

  /** `timestamp_to_ms` on clock time `H:M:S<c>F`: the frames converted
      first, added to the hours, minutes and seconds in milliseconds, and
      the sum scaled. */
  lemma TimestampForm(time: string, h: string, m: string, s: string, c: char, f: string, fps: Num, scale: Num, ms: int)
    requires time == h + ":" + m + ":" + s + [c] + f
    requires |h| > 0 && |m| > 0 && |s| > 0 && |f| > 0
    requires AllDigits(h) && AllDigits(m) && AllDigits(s) && AllDigits(f)
    requires !IsDigit(c) && fps.Value() != 0.0
    requires ms == HmsValue(h, m, s) + FrameCountToMs(DigitsValue(f), fps).value
    ensures TimestampToMs(time, fps, c, scale) == Ok(Scaler(Int(ms), scale))
  {
    var a, b := HmsValue(h, m, s), FrameCountToMs(DigitsValue(f), fps).value;
    HmsOf(h, m, s);
    FramesOfDigits(f, fps);
    TimestampAt(time, h + ":" + m + ":" + s, c, f, fps, scale, a, b, ms);
  }

  lemma HmsOf(h: string, m: string, s: string)
    requires |h| > 0 && |m| > 0 && |s| > 0
    requires AllDigits(h) && AllDigits(m) && AllDigits(s)
    ensures HmsToMs(Split(h + ":" + m + ":" + s, ':')) == Ok(HmsValue(h, m, s))
  {
    assert ':' !in h && ':' !in m && ':' !in s;
    SplitHms(h, m, s);
    HmsDigits(Split(h + ":" + m + ":" + s, ':'));
  }

  lemma TimestampAt(time: string, p: string, c: char, f: string, fps: Num, scale: Num, a: int, b: int, ms: int)
    requires time == p + [c] + f && !IsDigit(c) && AllDigits(f)
    requires FramesToMs(f, fps) == Ok(b)
    requires HmsToMs(Split(p, ':')) == Ok(a) && ms == a + b
    ensures TimestampToMs(time, fps, c, scale) == Ok(Scaler(Int(ms), scale))
  {
    CutAtDelim(time, p, c, f);
    TimestampParts(time, fps, c, scale, p, f, a, b, ms);
  }

  lemma TimestampParts(time: string, fps: Num, c: char, scale: Num, p0: string, p1: string, a: int, b: int, ms: int)
    requires RSplit1(time, c) == [p0, p1]
    requires FramesToMs(p1, fps) == Ok(b)
    requires HmsToMs(Split(p0, ':')) == Ok(a) && ms == a + b
    ensures TimestampToMs(time, fps, c, scale) == Ok(Scaler(Int(ms), scale))
  {
    var p := RSplit1(time, c);
    assert |p| == 2 && p[0] == p0 && p[1] == p1;
    TimestampUnfold(time, fps, c, scale);
  }

  /** Both parts of a cut time read: the result is their sum, scaled. */
  lemma TimestampUnfold(time: string, fps: Num, c: char, scale: Num)
    requires var p := RSplit1(time, c);
      |p| == 2 && FramesToMs(p[1], fps).Ok? && HmsToMs(Split(p[0], ':')).Ok?
    ensures var p := RSplit1(time, c);
      TimestampToMs(time, fps, c, scale)
        == Ok(Scaler(Int(HmsToMs(Split(p[0], ':')).value + FramesToMs(p[1], fps).value), scale))
  {
  }

  lemma CutAtDelim(time: string, p: string, c: char, f: string)
    requires time == p + [c] + f && !IsDigit(c) && AllDigits(f)
    ensures RSplit1(time, c) == [p, f]
  {
    assert c !in f;
    RSplitCat(p, f, c);
  }

  lemma FramesOfDigits(f: string, fps: Num)
    requires |f| > 0 && AllDigits(f) && fps.Value() != 0.0
    ensures FramesToMs(f, fps) == Ok(FrameCountToMs(DigitsValue(f), fps).value)
  {
    assert FramesToMs(f, fps) == FrameCountToMs(DigitsValue(f), fps);
  }

  /** Fewer than three `:`-separated fields before the delimiter raise
      IndexError once the frames and the fields present are read. */
  lemma TimestampTooFewFields(h: string, m: string, c: char, f: string, fps: Num, scale: Num)
    requires |h| > 0 && |m| > 0 && |f| > 0
    requires AllDigits(h) && AllDigits(m) && AllDigits(f)
    requires !IsDigit(c) && fps.Value() != 0.0
    ensures TimestampToMs(h + ":" + m + [c] + f, fps, c, scale) == Err(IndexError)
  {
    var hm := h + ":" + m;
    assert RSplit1(hm + [c] + f, c) == [hm, f] by {
      assert c !in f;
      RSplitCat(hm, f, c);
    }
    assert Split(hm, ':') == [h, m] by {
      assert ':' !in h && ':' !in m;
      SplitCons(h, m, ':');
      SplitNone(m, ':');
    }
    assert FramesToMs(f, fps) == FrameCountToMs(DigitsValue(f), fps);
  }

  /** Offset ticks `Nt` with a non-zero tick rate: the tick count read
      from the digits, over the rate, scaled, then shifted. */
  lemma TickForm(d: string, shift: int, fps: Num, tr: int, scale: Num)
    requires |d| > 0 && AllDigits(d) && tr != 0
    ensures GetSbTimestampBe(d + "t", shift, fps, Some(tr), scale) ==
      Ok(MsToSubRip(Add(Scaler(Float(TickMs(DigitsValue(d), tr)), scale), Int(shift))))
  {
    assert ParseInt(RStripChar(d + "t", 't')) == Ok(DigitsValue(d)) by {
      TickStrip(d);
    }
    assert LastNonDigitIndex(d + "t") == |d| by {
      LastNonDigitAt(d, 't', "");
      assert d + "t" == d + ['t'] + "";
    }
  }

  lemma TickStrip(d: string)
    requires |d| > 0 && AllDigits(d)
    ensures RStripChar(d + "t", 't') == d
  {
    var s := d + "t";
    assert s[..|s| - 1] == d;
    assert RStripChar(d, 't') == d by {
      assert d[|d| - 1] != 't';
    }
  }

  /** Without a tick rate the tick branch raises TypeError, whatever the
      ticks. */
  lemma TicksNeedRate(time: string, shift: int, fps: Num, scale: Num)
    requires !AllDigits(time) && IsTickMark(time[LastNonDigitIndex(time)])
    ensures GetSbTimestampBe(time, shift, fps, None, scale) == Err(TypeError)
  {
  }

  /** An upper-case `T` selects the tick branch but is not stripped, so the
      count is not a number and `int()` raises ValueError. */
  lemma UpperTickFails(d: string, shift: int, fps: Num, tr: int, scale: Num)
    requires AllDigits(d) && tr != 0
    ensures GetSbTimestampBe(d + "T", shift, fps, Some(tr), scale) == Err(ValueError)
  {
    var s := d + "T";
    LastNonDigitAt(d, 'T', "");
    assert s == d + ['T'] + "";
    assert RStripChar(s, 't') == s;
    assert !IsDigit(s[|s| - 1]);
    ParseTrailingNonDigit(s);
  }
}
