/** The older copy of the timestamp pipeline, ttml_srt.py. It differs from
    ttml2srt.py in four places: `scaler` truncates to an int, `ticks_to_ms`
    reads the tick count before it divides, `timestamp_to_ms` takes the
    trailing field as a literal millisecond count, and the clock branch of
    `get_sb_timestamp_be` converts the frames itself, writes the result back
    into the string with `str()` and reparses it. Nothing is scaled. */
module TtmlSrt {
  import opened PyNum
  import opened PyStr
  import opened SubRipTime
  import Ttml2Srt

  /** `scaler(scaling, time)`: `int(scaling * time)`. */
  function Scaler(scaling: Num, time: Num): (r: int)
    ensures scaling.Int? && time.Int? ==> r == scaling.i * time.i
  {
    ToInt(Mul(scaling, time))
  }

  /** The truncated product never passes the exact one, and misses it by
      less than one. */
  lemma ScalerBounds(scaling: Num, time: Num)
    requires scaling.Value() * time.Value() >= 0.0
    ensures 0 <= Scaler(scaling, time)
    ensures Scaler(scaling, time) as real <= scaling.Value() * time.Value() < Scaler(scaling, time) as real + 1.0
  {
    TruncBounds(Mul(scaling, time).Value());
  }

  /** `ticks_to_ms(tickrate, ticks)`: the trailing `t`s are stripped and
      the rest read with `int()` first (ValueError before any rate is
      looked at), then divided by the rate (TypeError without one,
      ZeroDivisionError for zero); no scale. */
  function TicksToMs(tickRate: Option<int>, ticks: string): (r: Result<Num>)
    ensures ParseInt(RStripChar(ticks, 't')).Err? ==> r == Err(ParseInt(RStripChar(ticks, 't')).error)
    ensures ParseInt(RStripChar(ticks, 't')).Ok? ==>
      (tickRate.None? ==> r == Err(TypeError)) && (tickRate == Some(0) ==> r == Err(ZeroDivisionError))
    ensures r.Ok? <==> ParseInt(RStripChar(ticks, 't')).Ok? && tickRate.Some? && tickRate.value != 0
    ensures r.Ok? ==> r.value == Float(TickMs(ParseInt(RStripChar(ticks, 't')).value, tickRate.value))
  {
    match ParseInt(RStripChar(ticks, 't'))
    case Err(e) => Err(e)
    case Ok(n) =>
      match tickRate
      case None => Err(TypeError)
      case Some(tr) => if tr == 0 then Err(ZeroDivisionError) else Ok(Float(TickMs(n, tr)))
  }

  /** `timestamp_to_ms(time, delim)`: `rsplit(delim, 1)` must give two
      parts; the `:`-separated fields before the delimiter are hours,
      minutes and seconds, and the part after it is added as a literal
      number of milliseconds. */
  function TimestampToMs(time: string, delim: char): Result<int>
  {
    var p := RSplit1(time, delim);
    if |p| != 2 then Err(ValueError)
    else
      match HmsToMs(Split(p[0], ':'))
      case Err(e) => Err(e)
      case Ok(hms) =>
        match ParseInt(p[1])
        case Err(e) => Err(e)
        case Ok(ms) => Ok(hms + ms)
  }

  /** Without the delimiter there is nothing to split off, which raises
      ValueError in the unpacking, both in `timestamp_to_ms` and in the
      clock branch. */
  lemma MissingDelimiter(time: string, delim: char, fps: Num)
    requires delim !in time
    ensures TimestampToMs(time, delim) == Err(ValueError)
    ensures ClockToMs(time, delim, fps) == Err(ValueError)
  {
  }

  /** Cut at the last delimiter, the hours, minutes and seconds list is
      evaluated first and its error (IndexError for fewer than three
      fields) is the result; then `int(ms)` is read and its error is the
      result; otherwise the two are added. */
  lemma TimestampOrder(time: string, c: char, p: string, x: string)
    requires time == p + [c] + x && c !in x
    ensures HmsToMs(Split(p, ':')).Err? ==> TimestampToMs(time, c) == Err(HmsToMs(Split(p, ':')).error)
    ensures HmsToMs(Split(p, ':')).Ok? && ParseInt(x).Err? ==> TimestampToMs(time, c) == Err(ParseInt(x).error)
    ensures HmsToMs(Split(p, ':')).Ok? && ParseInt(x).Ok? ==>
      TimestampToMs(time, c).Ok? && TimestampToMs(time, c).value == HmsToMs(Split(p, ':')).value + ParseInt(x).value
  {
    RSplitCat(p, x, c);
  }

  /** The clock branch of `get_sb_timestamp_be`: the part after the last
      delimiter is converted from frames to milliseconds, written back with
      `str()` behind the same delimiter, and the whole reparsed by
      `timestamp_to_ms`. */
  function ClockToMs(time: string, delim: char, fps: Num): Result<int>
  {
    var p := RSplit1(time, delim);
    if |p| != 2 then Err(ValueError)
    else
      match FramesToMs(p[1], fps)
      case Err(e) => Err(e)
      case Ok(frames) => TimestampToMs(p[0] + [delim] + IntToStr(frames), delim)
  }

  /** `get_sb_timestamp_be(time, shift, fps, tick_rate)`: the last
      non-digit character selects the branch (none raises IndexError),
      `t` or `T` the ticks, anything else the clock time; the shift is
      added before formatting. */
  function GetSbTimestampBe(time: string, shift: int, fps: Num, tickRate: Option<int>): Result<string>
  {
    var k := LastNonDigitIndex(time);
    if k < 0 then Err(IndexError)
    else
      var delim := time[k];
      var ms := if Ttml2Srt.IsTickMark(delim) then TicksToMs(tickRate, time)
                else match ClockToMs(time, delim, fps)
                     case Err(e) => Err(e)
                     case Ok(n) => Ok(Int(n));
      match ms
      case Err(e) => Err(e)
      case Ok(v) => Ok(MsToSubRip(Add(v, Int(shift))))
  }

  /** A time with no non-digit character has no delimiter to index. */
  lemma NoDelimiter(time: string, shift: int, fps: Num, tickRate: Option<int>)
    requires AllDigits(time)
    ensures GetSbTimestampBe(time, shift, fps, tickRate) == Err(IndexError)
  {
  }

  /** Reading a formatted timestamp back with `,` as the delimiter gives
      the milliseconds plus the hours counted a second time, because the
      minutes field already holds every whole minute. */
  lemma RoundTrip(n: int)
    ensures TimestampToMs(MsToSubRip(Int(n)), ',').Ok?
    ensures TimestampToMs(MsToSubRip(Int(n)), ',').value == n + (n / 3600000) * 3600000
  {
    var h, m, s, x := n / 3600000, n / 60000, (n % 60000) / 1000, (n % 60000) % 1000;
    ShowsFields(n, h, m, s, x);
    FieldsRead(h, m, s, x);
    MsRemainder(n);
    FieldsSum(n, h, m, s, x);
  }

  /** Any four fields read back as their weighted sum. */
  lemma FieldsRead(h: int, m: int, s: int, x: int)
    ensures TimestampToMs(Fields(h, m, s, x), ',').Ok?
    ensures TimestampToMs(Fields(h, m, s, x), ',').value == h * 3600000 + m * 60000 + s * 1000 + x
  {
    FormatDFacts(h, 2);
    FormatDFacts(m, 2);
    FormatDFacts(s, 2);
    FormatDFacts(x, 3);
    NoSeparators(h, 2);
    NoSeparators(m, 2);
    NoSeparators(s, 2);
    NoSeparators(x, 3);
    ReadStrings(FormatD(h, 2), FormatD(m, 2), FormatD(s, 2), FormatD(x, 3), h, m, s, x);
  }

  /** Three `:`-separated integers, a comma and an integer read back as
      their weighted sum. */
  lemma ReadStrings(H: string, M: string, S: string, X: string, h: int, m: int, s: int, x: int)
    requires ':' !in H && ':' !in M && ':' !in S && ',' !in X
    requires ParseInt(H) == Ok(h) && ParseInt(M) == Ok(m) && ParseInt(S) == Ok(s) && ParseInt(X) == Ok(x)
    ensures TimestampToMs(H + ":" + M + ":" + S + "," + X, ',').Ok?
    ensures TimestampToMs(H + ":" + M + ":" + S + "," + X, ',').value == h * 3600000 + m * 60000 + s * 1000 + x
  {
    var hms := H + ":" + M + ":" + S;
    SplitOff(H, M, S, X);
    SplitHms(H, M, S);
    HmsParsed([H, M, S], h, m, s);
    ReadBack(H + ":" + M + ":" + S + "," + X, ',', hms, X, h * 3600000 + m * 60000 + s * 1000, x);
  }

  lemma ReadBack(time: string, c: char, p0: string, p1: string, a: int, x: int)
    requires RSplit1(time, c) == [p0, p1]
    requires HmsToMs(Split(p0, ':')).Ok? && HmsToMs(Split(p0, ':')).value == a && ParseInt(p1) == Ok(x)
    ensures TimestampToMs(time, c).Ok? && TimestampToMs(time, c).value == a + x
  {
  }

  lemma HmsParsed(f: seq<string>, h: int, m: int, s: int)
    requires |f| == 3 && ParseInt(f[0]) == Ok(h) && ParseInt(f[1]) == Ok(m) && ParseInt(f[2]) == Ok(s)
    ensures HmsToMs(f).Ok? && HmsToMs(f).value == h * 3600000 + m * 60000 + s * 1000
  {
  }

  /** The fields of a timestamp add up to the milliseconds plus the hours
      once more. */
  lemma FieldsSum(n: int, h: int, m: int, s: int, x: int)
    requires h == n / 3600000 && m == n / 60000 && s == (n % 60000) / 1000 && x == n % 1000
    ensures h * 3600000 + m * 60000 + s * 1000 + x == n + h * 3600000
  {
    MsRemainder(n);
    assert n == m * 60000 + n % 60000;
    assert n % 60000 == s * 1000 + (n % 60000) % 1000;
  }

  /** So the round trip is exact precisely below one hour. */
  lemma RoundTripIff(n: int)
    ensures TimestampToMs(MsToSubRip(Int(n)), ',') == Ok(n) <==> 0 <= n < 3600000
  {
    RoundTrip(n);
    HourCarried(n, TimestampToMs(MsToSubRip(Int(n)), ',').value);
  }

  /** Adding the hours back a second time changes nothing only when there
      are none. */
  lemma HourCarried(n: int, v: int)
    requires v == n + (n / 3600000) * 3600000
    ensures v == n <==> 0 <= n < 3600000
  {
    var h := n / 3600000;
    assert n == h * 3600000 + n % 3600000;
  }

  /** Fewer than three `:`-separated fields before the delimiter raise
      IndexError once the fields present are read. */
  lemma TimestampTooFewFields(time: string, h: string, m: string, c: char, x: string)
    requires time == h + ":" + m + [c] + x
    requires |h| > 0 && |m| > 0 && AllDigits(h) && AllDigits(m) && AllDigits(x) && !IsDigit(c)
    ensures TimestampToMs(time, c) == Err(IndexError)
  {
    var hm := h + ":" + m;
    assert RSplit1(time, c) == [hm, x] by {
      assert c !in x;
      RSplitCat(hm, x, c);
    }
    assert Split(hm, ':') == [h, m] by {
      assert ':' !in h && ':' !in m;
      SplitCons(h, m, ':');
      SplitNone(m, ':');
    }
  }

  /** With any clock delimiter but `-`, writing the frame milliseconds back
      with `str()` and reparsing them loses nothing: the older copy gives
      exactly what ttml2srt.py gives at its default scale of 1. */
  lemma ClockAgrees(time: string, shift: int, fps: Num, tickRate: Option<int>)
    requires LastNonDigitIndex(time) >= 0
    requires !Ttml2Srt.IsTickMark(time[LastNonDigitIndex(time)]) && time[LastNonDigitIndex(time)] != '-'
    ensures GetSbTimestampBe(time, shift, fps, tickRate) == Ttml2Srt.GetSbTimestampBe(time, shift, fps, tickRate, Int(1))
  {
    var c := time[LastNonDigitIndex(time)];
    assert c in time;
    ClockSame(time, c, fps);
  }

  lemma ClockSame(time: string, c: char, fps: Num)
    requires c in time && !IsDigit(c) && c != '-'
    ensures match ClockToMs(time, c, fps)
            case Err(e) => Ttml2Srt.TimestampToMs(time, fps, c, Int(1)) == Err(e)
            case Ok(n) => Ttml2Srt.TimestampToMs(time, fps, c, Int(1)) == Ok(Int(n))
  {
    var p := RSplit1(time, c);
    match FramesToMs(p[1], fps)
    case Err(e) =>
    case Ok(x) =>
      ClockFrames(time, c, fps, p[0], p[1], x);
  }

  /** `ClockSame` once the frames have been read. */
  lemma ClockFrames(time: string, c: char, fps: Num, p0: string, p1: string, x: int)
    requires RSplit1(time, c) == [p0, p1] && FramesToMs(p1, fps) == Ok(x) && !IsDigit(c) && c != '-'
    ensures match ClockToMs(time, c, fps)
            case Err(e) => Ttml2Srt.TimestampToMs(time, fps, c, Int(1)) == Err(e)
            case Ok(n) => Ttml2Srt.TimestampToMs(time, fps, c, Int(1)) == Ok(Int(n))
  {
    ClockReads(p0, c, x);
    match HmsToMs(Split(p0, ':'))
    case Err(e) =>
    case Ok(a) =>
      Ttml2Srt.TimestampParts(time, fps, c, Int(1), p0, p1, a, x, a + x);
      ScaleOne(a + x);
      var t := p0 + [c] + IntToStr(x);
      assert ClockToMs(time, c, fps) == TimestampToMs(t, c);
      SameValue(TimestampToMs(t, c), Ttml2Srt.TimestampToMs(time, fps, c, Int(1)), a + x);
  }

  /** Both copies produced the same int. */
  lemma SameValue(u: Result<int>, v: Result<Num>, k: int)
    requires u.Ok? && u.value == k && v == Ok(Int(k))
    ensures match u
            case Err(e) => v == Err(e)
            case Ok(n) => v == Ok(Int(n))
  {
  }

  /** Re-reading the hours part with the frames written back as an integer. */
  lemma ClockReads(p0: string, c: char, x: int)
    requires !IsDigit(c) && c != '-'
    ensures match HmsToMs(Split(p0, ':'))
            case Err(e) => TimestampToMs(p0 + [c] + IntToStr(x), c) == Err(e)
            case Ok(a) => TimestampToMs(p0 + [c] + IntToStr(x), c).Ok? &&
                          TimestampToMs(p0 + [c] + IntToStr(x), c).value == a + x
  {
    var s := IntToStr(x);
    IntToStrParses(x);
    assert RSplit1(p0 + [c] + s, c) == [p0, s] by {
      IntToStrAvoids(x, c);
      RSplitCat(p0, s, c);
    }
    match HmsToMs(Split(p0, ':'))
    case Err(e) =>
    case Ok(a) =>
      ReadBack(p0 + [c] + s, c, p0, s, a, x);
  }

  /** The default scale of ttml2srt.py leaves an int as it is. */
  lemma ScaleOne(v: int)
    ensures Ttml2Srt.Scaler(Int(v), Int(1)) == Int(v)
  {
  }

  /** With `-` as the delimiter and a negative frame count in milliseconds
      (a negative `ttp:frameRate` read from the document), the re-joined
      string `...--N` splits at the sign instead, the seconds field becomes
      `S-`, and the older copy raises ValueError where ttml2srt.py gives a
      timestamp. */
  lemma DashRejoinFails(time: string, h: string, m: string, s: string, f: string,
                        shift: int, fps: int, tickRate: Option<int>)
    requires time == h + ":" + m + ":" + s + "-" + f
    requires |h| > 0 && |m| > 0 && |s| > 0 && |f| > 0
    requires AllDigits(h) && AllDigits(m) && AllDigits(s) && AllDigits(f)
    requires fps < 0 && DigitsValue(f) > 0
    ensures GetSbTimestampBe(time, shift, Int(fps), tickRate) == Err(ValueError)
    ensures Ttml2Srt.GetSbTimestampBe(time, shift, Int(fps), tickRate, Int(1)).Ok?
  {
    var hms := h + ":" + m + ":" + s;
    var ms := HmsValue(h, m, s) + FrameCountToMs(DigitsValue(f), Int(fps)).value;
    assert time == hms + ['-'] + f;
    Ttml2Srt.ClockForm(time, h, m, s, '-', f, shift, Int(fps), tickRate, Int(1), ms);
    assert LastNonDigitIndex(time) == |hms| by {
      LastNonDigitAt(hms, '-', f);
    }
    assert time[|hms|] == '-';
    DashClock(time, hms, h, m, s, f, fps);
  }

  lemma DashClock(time: string, hms: string, h: string, m: string, s: string, f: string, fps: int)
    requires time == hms + ['-'] + f && hms == h + ":" + m + ":" + s
    requires |h| > 0 && |m| > 0 && |s| > 0 && |f| > 0
    requires AllDigits(h) && AllDigits(m) && AllDigits(s) && AllDigits(f)
    requires fps < 0 && DigitsValue(f) > 0
    ensures ClockToMs(time, '-', Int(fps)) == Err(ValueError)
  {
    NegativeFrames(f, fps);
    assert RSplit1(time, '-') == [hms, f] by {
      assert '-' !in f;
      RSplitCat(hms, f, '-');
    }
    DashRejoin(hms, h, m, s, FramesToMs(f, Int(fps)).value);
  }

  /** A negative frame rate gives a negative number of milliseconds. */
  lemma NegativeFrames(f: string, fps: int)
    requires |f| > 0 && AllDigits(f) && fps < 0 && DigitsValue(f) > 0
    ensures FramesToMs(f, Int(fps)).Ok? && FramesToMs(f, Int(fps)).value < 0
  {
    var q := FloorDiv(1000, fps);
    assert FramesToMs(f, Int(fps)) == Ok(DigitsValue(f) * q);
    MulLt(DigitsValue(f), q, 0);
  }

  /** `H:M:S` re-joined by `-` with a negative number `x` reads the
      seconds as `S-`. */
  lemma DashRejoin(hms: string, h: string, m: string, s: string, x: int)
    requires hms == h + ":" + m + ":" + s
    requires |h| > 0 && |m| > 0 && |s| > 0
    requires AllDigits(h) && AllDigits(m) && AllDigits(s) && x < 0
    ensures TimestampToMs(hms + ['-'] + IntToStr(x), '-') == Err(ValueError)
  {
    var d := Pad(-x, NumDigits(-x));
    assert IntToStr(x) == "-" + d;
    var joined := hms + ['-'] + IntToStr(x);
    assert joined == (hms + ['-']) + ['-'] + d;
    DashSplit(joined, hms + ['-'], d);
    var s1 := s + ['-'];
    assert ':' !in s1 by {
      DigitsThen(s, '-', ':');
    }
    assert ':' !in h && ':' !in m;
    assert hms + ['-'] == h + ":" + m + ":" + s1;
    SplitHms(h, m, s1);
    ParseTrailingNonDigit(s1);
  }

  /** Digits followed by one other character hold no third character `c`. */
  lemma DigitsThen(s: string, d: char, c: char)
    requires AllDigits(s) && !IsDigit(c) && c != d
    ensures c !in s + [d]
  {
  }

  lemma DashSplit(joined: string, a: string, d: string)
    requires joined == a + ['-'] + d && AllDigits(d)
    ensures RSplit1(joined, '-') == [a, d]
  {
    assert '-' !in d;
    RSplitCat(a, d, '-');
  }

  /** An unreadable tick count and no tick rate: the older copy reads the
      count first and raises ValueError, ttml2srt.py divides first and
      raises TypeError. */
  lemma TickErrorOrder(d: string, shift: int, fps: Num)
    requires AllDigits(d)
    ensures GetSbTimestampBe(d + "T", shift, fps, None) == Err(ValueError)
    ensures Ttml2Srt.GetSbTimestampBe(d + "T", shift, fps, None, Int(1)) == Err(TypeError)
  {
    var s := d + "T";
    LastNonDigitAt(d, 'T', "");
    assert s == d + ['T'] + "";
    assert RStripChar(s, 't') == s;
    assert !IsDigit(s[|s| - 1]);
    ParseTrailingNonDigit(s);
  }

  /** With a readable tick count and a non-zero rate both copies compute
      the same float, ttml2srt.py at its default scale of 1. */
  lemma TicksAgree(tr: int, ticks: string)
    requires tr != 0
    ensures TicksToMs(Some(tr), ticks) == Ttml2Srt.TicksToMs(Some(tr), ticks, Int(1))
  {
  }
}
