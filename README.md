# ttml2srt time conversion and cue merging, in Dafny

This project models the core of a small Python 2 converter. It turns TTML
(Timed Text Markup Language) subtitle documents into SubRip (`.srt`) files.
The model covers two copies of that code:

- **`ttml2srt.py`** is the current one.
  - It classifies each `begin`/`end` time expression by its last non-digit character.
  - It converts clock time `HH:MM:SS<c>FF` (the trailing field is a frame count) or tick time `Nt` to milliseconds.
  - It scales the result, adds the shift and formats it as `HH:MM:SS,mmm`.
  - Its `subrip_writer` then converts every cue, sorts the cues on their start text and merges overlapping neighbours.
  - Finally it writes the numbered SubRip blocks.
- **`ttml_srt.py`** is the older copy. It has no scale. It writes the frame milliseconds back into the time string and reads them again as a literal millisecond count.

Python 2 semantics are modelled explicitly:

- **Numbers.** A number is an int or a float (`PyNum.Num`). Floats are exact rationals (`real`).
  - `/` on two ints is floor division; with a float it is true division.
  - `int()` of a float truncates toward zero.
  - `%` on floats is the floored remainder.
- **Exceptions.** An exception is an `Err` of `PyError` (ValueError, IndexError, TypeError, ZeroDivisionError). Where two steps can fail, the model keeps Python's evaluation order.
- **Strings.** Strings are `seq<char>`. The built-ins the code uses are modelled in `PyStr`:
  - `int()` on a string, `str()` of an int and `'{:02d}'` formatting;
  - `split`, `rsplit(c, 1)` and `rstrip`;
  - string `<=` and `max`.

Modules:

- `PyNum`: the number types and the operations on them.
- `PyStr`: the string built-ins.
- `SubRipTime`: the code the two copies share — `calc_scale`, `frames_to_ms`, `ms_to_subrip` and the hours/minutes/seconds list.
- `Ttml2Srt`: the converters and classifier of `ttml2srt.py`.
- `TtmlSrt`: the converters and classifier of `ttml_srt.py`, and how they compare with `Ttml2Srt`.
- `SubRipWriter`: `subrip_writer` and `subrip_dialogue`. `subrip_writer` works step by step in the source, so it is modelled as methods with loops.
  - Each method is proved equal to a specification function.
  - The properties of the writer are lemmas about those functions.

Behaviour of the code worth noting:

- **Minutes.** The minutes field is `ms / 60000`, not reduced modulo 60, so 3,660,000 ms is written `01:61:00,000`. The repository's own test (`tests/test01.py:126`) expects `01:01:00,000` for that time.
- **Frames.** The frame count is converted with `int()`, which truncates toward zero.
- **Time forms.** Only clock time and `t` ticks are recognised.
- **Sort order.** The sort compares the *formatted* start strings. That order is guaranteed to follow time only below 100 minutes. At 100 minutes the minutes field widens, and 6000000 ms sorts before 5999999 ms.
- **Merging.** All overlap flags are decided on the sorted list first, then applied from the back:
  - Flag `i` compares entry `i` with entry `i - 1`, and for `i == 0` Python's negative indexing makes that the last entry.
  - A single cue that ends after it starts is merged into itself and disappears.
  - Flags use the ends from before the merge, so the result can still hold overlapping neighbours.
- **Negative times.** Negative times after the shift are not clamped to zero:
  - An int time gets minus-signed fields: -500 ms is written `-1:-1:59,500`.
  - A float time in (-60000, 0) has no sign: `int()` truncates its hours and minutes to 0 and float `%` floors, so -500.0 ms is written `00:00:59,500`.
  - Clock times are floats whenever the scale is a float, and tick times are always floats.
- **Errors.** The first cue that fails to convert ends the whole run.
- **Round trip.** Reading a formatted timestamp back with `,` as the delimiter is exact only below one hour.

## Model

| member | source | states |
|---|---|---|
| PyNum.Add | ttml2srt.py:98 | `a + b` has the exact sum as its value, and is an int exactly when both operands are |
| PyNum.Mul | ttml2srt.py:53 | `a * b` has the exact product as its value, and is an int exactly when both operands are |
| PyNum.FloorDiv | ttml2srt.py:56 | Python 2 int `/` rounds toward minus infinity, for either sign of divisor |
| PyNum.TruncBounds | ttml2srt.py:56 | `int()` of a float lies within one of it, on the side of zero |
| PyNum.TruncMonotone | ttml2srt.py:56 | `int()` of a float never reverses an order |
| PyNum.ToInt | ttml_srt.py:9 | `int()` of a number is the number itself on an int, and truncation on a float |
| PyNum.FloatMod | ttml2srt.py:65 | float `%` by a positive divisor leaves a remainder in `[0, d)` that differs from `x` by a whole multiple of `d` |
| PyStr.IntToStrParses | ttml_srt.py:54 | `int(str(n)) == n`, and `str(n)` is all digits exactly when `n >= 0` |
| PyStr.IntToStrAvoids | ttml_srt.py:54 | `str(n)` holds no character other than digits and `-` |
| PyStr.FormatDFacts | ttml2srt.py:62 | `'{:0wd}'` reads back as the same int, is as wide as `w` or as `str(n)`, and holds only digits for `n >= 0` |
| PyStr.FormatDFits | ttml2srt.py:62 | a non-negative number with at most `w` digits is written in exactly `w` zero-filled places |
| PyStr.PadOrder | ttml2srt.py:116 | zero-filled numbers of one width compare as strings as the numbers compare, and are equal only when the numbers are |
| PyStr.PadWide | ttml2srt.py:62 | zero-filled digits wide enough for `n` read back as `n` |
| PyStr.ParseInt | ttml2srt.py:56 | `int(s)` on a string of digits is its decimal value; an empty string or one without a digit raises ValueError |
| PyStr.ParseForm | ttml2srt.py:72-74 | white space, an optional sign, white space after the sign, a non-empty run of digits and white space read as the digits' value, negated after `-` |
| PyStr.ParseOkForm | ttml2srt.py:72-74 | every string `int()` accepts has that form, and its value is the signed digits' value |
| PyStr.ParseStrips | ttml2srt.py:72-74 | `int()` ignores leading and trailing white space |
| PyStr.IntToStr | ttml_srt.py:54 | `str(n)`; its behaviour is stated by IntToStrParses and IntToStrAvoids |
| PyStr.FormatD | ttml2srt.py:62 | `'{:0wd}'`; its behaviour is stated by FormatDFacts, FormatDFits and PadOrder |
| PyStr.ParseDigits | ttml2srt.py:72-74 | a non-empty run of digits reads as its decimal value |
| PyStr.ParseNeedsDigit | ttml2srt.py:72-74 | `int()` of a string without a digit raises ValueError |
| PyStr.ParseTrailingNonDigit | ttml2srt.py:59 | `int()` of a string ending in a letter raises ValueError |
| PyStr.ParseNegative | ttml_srt.py:32 | `int('-' + digits)` is the negated value |
| PyStr.Split | ttml2srt.py:71 | `s.split(c)` gives at least one piece, no piece holds `c`, and joining the pieces with `c` gives `s` back |
| PyStr.SplitJoin | ttml2srt.py:71 | splitting `a + c + b` at `c` splits `a` and `b` independently and concatenates the pieces |
| PyStr.SplitNone | ttml2srt.py:71 | a string without `c` splits into itself |
| PyStr.RSplit1 | ttml2srt.py:69 | `s.rsplit(c, 1)` is `[s]` without a `c`, else the text before and after the last `c` |
| PyStr.RSplitCat | ttml2srt.py:69 | `rsplit(c, 1)` cuts at the `c` that has no `c` after it |
| PyStr.LastNonDigitIndex | ttml2srt.py:92 | the index of the last non-digit character, everything after it being digits; -1 for a string of digits |
| PyStr.LastNonDigitAt | ttml2srt.py:92 | in `p + [c] + digits` with `c` not a digit, `c` is the last non-digit |
| PyStr.RStripChar | ttml2srt.py:59 | `s.rstrip(c)` is a prefix of `s` that does not end in `c`, and only `c`s were removed |
| PyStr.LexTotal | ttml2srt.py:116 | string order is total |
| PyStr.LexAntisym | ttml2srt.py:116 | string order is antisymmetric |
| PyStr.LexTrans | ttml2srt.py:116 | string order is transitive |
| PyStr.LexNotLe | ttml2srt.py:122 | `not (a <= b)` means `b < a` on strings |
| PyStr.StrMax | ttml2srt.py:127 | `max(a, b)` on strings is one of them and is at least both |
| PyStr.LexCat | ttml2srt.py:116 | strings whose first parts have equal length compare on those parts first, then on the rest |
| PyStr.LexFirstDiff | ttml2srt.py:116 | the first differing character decides string order |
| SubRipTime.CalcScale | ttml2srt.py:49-50 | `calc_scale` raises ZeroDivisionError exactly for a zero source duration, else gives a float whose product with the source duration is the target duration |
| SubRipTime.TickMs | ttml2srt.py:59 | `((1.0 / rate) * ticks) * 1000` times the rate is `ticks * 1000` |
| SubRipTime.FrameCountToMs | ttml2srt.py:56 | `int(frames * (1000 / fps))` raises ZeroDivisionError exactly for a zero frame rate |
| SubRipTime.FramesToMs | ttml2srt.py:55-56 | `int(frames)` is read first, so an unreadable frame field raises its error before the rate is used; a digit field gives the frame-count conversion |
| SubRipTime.FramesIntRate | ttml2srt.py:55-56 | with an int rate the result is `frames * (1000 / fps)` (floor division), never above the exact time and less than one millisecond per frame below it |
| SubRipTime.FramesFloatRate | ttml2srt.py:55-56 | with a float rate the result is the exact time rounded down |
| SubRipTime.FramesMonotone | ttml2srt.py:55-56 | for a fixed positive rate, more frames never give fewer milliseconds |
| SubRipTime.HmsToMs | ttml2srt.py:72-74 | the h/m/s list succeeds exactly when there are three readable fields, sums them weighted by 3600000, 60000 and 1000, ignores later fields, and raises IndexError when all fields are readable but fewer than three |
| SubRipTime.HmsDigits | ttml2srt.py:72-74 | three digit fields give hours, minutes and seconds in milliseconds |
| SubRipTime.SubRipFields | ttml2srt.py:61-66 | the formatted int time has hours `n / 3600000` (at least two places), minutes `n / 60000` (at least two places, not reduced modulo 60), seconds in [0, 59] in two places and `n % 1000` in three; identical code at ttml_srt.py:19-24 |
| SubRipTime.MsToSubRip | ttml2srt.py:61-66 | `ms_to_subrip`, identical at ttml_srt.py:19-24; its behaviour is stated by SubRipFields, SubHourShape, FloatFormatFloors, FloatFieldsFloor and SubRipOrder |
| SubRipTime.SubHourShape | ttml2srt.py:61-66 | below one hour the timestamp is twelve characters starting `00:` |
| SubRipTime.FloatFormatFloors | ttml2srt.py:61-66 | a non-negative float time formats as its whole number of milliseconds |
| SubRipTime.FloatFieldsFloor | ttml2srt.py:63-66 | each float field (`int()` of a true division, float `%`) equals the int field of the floor |
| SubRipTime.SubRipOrder | ttml2srt.py:61-66 | below 100 minutes the formatted strings compare as the times compare, and are equal only for equal times |
| SubRipTime.SubRipOrderBreaks | ttml2srt.py:64 | at 100 minutes the unreduced minutes field widens, and 6000000 ms sorts before 5999999 ms |
| SubRipTime.PaddedFields | ttml2srt.py:61-66 | below 100 minutes every field is zero-filled to its standard width |
| SubRipTime.FieldOrder | ttml2srt.py:63-66 | times compare as their (hours, minutes, seconds, milliseconds) fields compare |
| SubRipTime.SubRipExample | tests/test01.py:121 | 232823 ms is `00:03:52,823` |
| SubRipTime.SubRipExampleSmall | tests/test01.py:123 | 1001 ms is `00:00:01,001` |
| SubRipTime.SubRipExampleHour | ttml2srt.py:64 | 3660000 ms is `01:61:00,000` |
| SubRipTime.NegativeIntTime | ttml2srt.py:61-66 | -500 ms as an int is written `-1:-1:59,500`: floor division gives minus-signed hours and minutes |
| SubRipTime.NegativeFloatWraps | ttml2srt.py:61-66 | -500.0 ms as a float is written `00:00:59,500`: `int()` truncates to 0 and float `%` wraps the rest |
| Ttml2Srt.Scaler | ttml2srt.py:52-53 | `scale * time` has the exact product as its value, and is an int only when both are |
| Ttml2Srt.TicksToMs | ttml2srt.py:58-59 | no tick rate raises TypeError and a zero one ZeroDivisionError, before the ticks are read; otherwise the result is a float exactly when the stripped ticks are a number, and the `int()` error otherwise |
| Ttml2Srt.TimestampToMs | ttml2srt.py:68-75 | a result is an int exactly when the scale is; the cases are stated by MissingDelimiter, TimestampFramesFirst, TimestampFieldsErr and TimestampFields |
| Ttml2Srt.MissingDelimiter | ttml2srt.py:69 | without the delimiter the unpacking of `rsplit` raises ValueError |
| Ttml2Srt.TimestampFramesFirst | ttml2srt.py:69-70 | with the delimiter present, the frames after its last occurrence are converted first and their error is the result |
| Ttml2Srt.TimestampFieldsErr | ttml2srt.py:71-74 | once the frames are read, the error of the h/m/s list (fewer than three fields or one of the first three unreadable) is the result |
| Ttml2Srt.TimestampFields | ttml2srt.py:68-75 | otherwise the first three `:` fields before the last delimiter weighted as hours, minutes and seconds, later fields ignored, plus the frame milliseconds, scaled |
| Ttml2Srt.TimestampParts | ttml2srt.py:68-75 | when `rsplit` gives two parts that both read, the result is their sum scaled |
| Ttml2Srt.TimestampAt | ttml2srt.py:68-75 | a time cut at a non-digit delimiter followed by digits reads as the h/m/s milliseconds plus the frames, scaled |
| Ttml2Srt.TimestampForm | ttml2srt.py:68-75 | `H:M:S<c>F` gives the h/m/s milliseconds plus the frames converted at `fps`, scaled |
| Ttml2Srt.TimestampTooFewFields | ttml2srt.py:72-74 | `H:M<c>F` raises IndexError |
| Ttml2Srt.GetSbTimestampBe | ttml2srt.py:77-98 | `get_sb_timestamp_be`, the entry point; its behaviour is stated by NoDelimiter (digits only), ClockForm (clock time), TickForm (tick time), TicksNeedRate (no tick rate) and UpperTickFails (`T` mark) |
| Ttml2Srt.NoDelimiter | ttml2srt.py:92 | a time of digits only raises IndexError |
| Ttml2Srt.ClockForm | ttml2srt.py:77-98 | clock time `H:M:S<c>F` with `c` neither a digit nor `t`/`T` is formatted as the h/m/s milliseconds plus the frames, scaled, plus the shift |
| Ttml2Srt.TickForm | ttml2srt.py:93-94 | `Nt` with a non-zero tick rate is formatted as `N * 1000 / rate`, scaled, plus the shift |
| Ttml2Srt.TicksNeedRate | ttml2srt.py:93-94 | the tick branch without a tick rate raises TypeError |
| Ttml2Srt.UpperTickFails | ttml2srt.py:59 | `NT` selects the tick branch, but `rstrip('t')` keeps the `T`, so `int()` raises ValueError |
| TtmlSrt.Scaler | ttml_srt.py:9 | `int(scaling * time)` is the exact product on two ints |
| TtmlSrt.ScalerBounds | ttml_srt.py:9 | for a non-negative product the result is the product rounded down |
| TtmlSrt.TicksToMs | ttml_srt.py:15-17 | the ticks are read first (their `int()` error comes first), then no rate raises TypeError and a zero one ZeroDivisionError; otherwise the float `ticks * 1000 / rate` |
| TtmlSrt.MissingDelimiter | ttml_srt.py:27 | without the delimiter both `timestamp_to_ms` and the clock branch raise ValueError |
| TtmlSrt.RoundTrip | ttml_srt.py:19-32 | reading a formatted int time back with `,` gives the time plus its hours counted once more |
| TtmlSrt.FieldsRead | ttml_srt.py:26-32 | any four formatted fields read back as their weighted sum |
| TtmlSrt.ReadStrings | ttml_srt.py:26-32 | three `:`-separated integers, a comma and an integer read back as their weighted sum |
| TtmlSrt.TimestampToMs | ttml_srt.py:26-32 | `timestamp_to_ms` of the older copy; its behaviour is stated by MissingDelimiter (no delimiter), TimestampOrder (the error order and the value for any delimiter) and ReadBack (the value from the two `rsplit` parts), with FieldsRead, ReadStrings, RoundTrip and RoundTripIff for the `,` read-back |
| TtmlSrt.TimestampOrder | ttml_srt.py:26-32 | cut at the last delimiter, the h/m/s list's error (IndexError for fewer than three fields) comes first, then the error of `int(ms)`; otherwise the result is their sum |
| TtmlSrt.ReadBack | ttml_srt.py:26-32 | when `rsplit` gives two parts whose h/m/s list and `int()` both read, the result is their sum |
| TtmlSrt.RoundTripIff | ttml_srt.py:19-32 | the round trip gives the time back exactly when it is in [0, 3600000) |
| TtmlSrt.TimestampTooFewFields | ttml_srt.py:28-31 | `H:M<c>X` raises IndexError |
| TtmlSrt.GetSbTimestampBe | ttml_srt.py:34-56 | `get_sb_timestamp_be` of the older copy; its behaviour is stated by NoDelimiter (digits only), ClockAgrees (clock time, any delimiter but `-`), DashRejoinFails (`-` delimiter) and TickErrorOrder (`T` mark without a rate) |
| TtmlSrt.NoDelimiter | ttml_srt.py:49 | a time of digits only raises IndexError |
| TtmlSrt.ClockAgrees | ttml_srt.py:53-54 | with any clock delimiter but `-`, writing the frame milliseconds back with `str()` and reparsing loses nothing: the older copy gives what ttml2srt.py gives at scale 1 |
| TtmlSrt.ClockSame | ttml_srt.py:53-54 | the clock branch's milliseconds, or its error, equal `timestamp_to_ms` of ttml2srt.py at scale 1 |
| TtmlSrt.ClockToMs | ttml_srt.py:53-54 | the clock branch of the older copy; its behaviour is stated by ClockAgrees, ClockSame and DashRejoinFails |
| TtmlSrt.DashRejoinFails | ttml_srt.py:53-54 | with `-` as delimiter and a negative frame rate the re-joined `...--N` splits at the sign and raises ValueError, where ttml2srt.py gives a timestamp |
| TtmlSrt.NegativeFrames | ttml_srt.py:11-13 | a negative int frame rate gives negative milliseconds for a positive frame count |
| TtmlSrt.TickErrorOrder | ttml_srt.py:50-51 | `NT` without a tick rate raises ValueError in the older copy and TypeError in ttml2srt.py |
| TtmlSrt.TicksAgree | ttml_srt.py:15-17 | with a non-zero rate both copies' tick conversions agree (ttml2srt.py at scale 1) |
| SubRipWriter.Cue | ttml2srt.py:110-113 | one `[start, end, text]` entry: the start is converted before the end, so the start's error wins over the end's; with both converted the entry keeps the line's text |
| SubRipWriter.Cues | ttml2srt.py:109-113 | one entry per line, entry `i` being line `i` converted |
| SubRipWriter.CollectOk | ttml2srt.py:109-113 | the conversion loop succeeds exactly when every entry does, and keeps every value in place |
| SubRipWriter.CollectErr | ttml2srt.py:109-113 | a failure is the error of the first entry that failed |
| SubRipWriter.ResolveAllOk | ttml2srt.py:108-113 | every line converts exactly when the list does, and then entry `i` is line `i` converted |
| SubRipWriter.ResolveAllErr | ttml2srt.py:108-113 | a failure is the error of the first line that does not convert, every earlier line converting |
| SubRipWriter.ResolveLines | ttml2srt.py:108-113 | the appending loop gives the whole converted list or the first failure |
| SubRipWriter.InsertSorted | ttml2srt.py:116 | inserting after the last entry with a start not later keeps the list sorted |
| SubRipWriter.InsertPerm | ttml2srt.py:116 | insertion adds exactly that entry |
| SubRipWriter.InsertStable | ttml2srt.py:116 | insertion puts the entry after every entry with its start |
| SubRipWriter.SortSorted | ttml2srt.py:116 | the sort orders the starts as strings |
| SubRipWriter.SortPerm | ttml2srt.py:116 | the sort only reorders |
| SubRipWriter.SortStable | ttml2srt.py:116 | entries with equal starts keep their order |
| SubRipWriter.SortByStart | ttml2srt.py:116 | `sort(key=lambda x: x[0])`; its behaviour is stated by SortSorted, SortPerm and SortStable |
| SubRipWriter.Flags | ttml2srt.py:120-122 | flag `i` is set exactly when `start[i-1] <= start[i] < end[i-1]`, index -1 being the last entry |
| SubRipWriter.OverlapPairs | ttml2srt.py:120-124 | the flagging loop and `reverse()` give the flagged pairs `(i-1, i)`, largest `i` first |
| SubRipWriter.UpDown | ttml2srt.py:124 | the reversed list of pairs collected upward is the list taken downward |
| SubRipWriter.MergeOverlaps | ttml2srt.py:120-129 | applying the reversed pairs one by one, in place, gives `Merged` of the sorted list |
| SubRipWriter.Merged | ttml2srt.py:120-129 | the merged list; its behaviour is stated by MergedShape, MergedRun, MergedShapeWrap, MergedUnchanged, SingleDropped and MergeLeavesOverlap |
| SubRipWriter.CollapseLength | ttml2srt.py:125-129 | every flagged entry after the first disappears, so the list shrinks by their number |
| SubRipWriter.CollapseStarts | ttml2srt.py:125-129 | the entries left are the first and the unflagged ones, their starts in order |
| SubRipWriter.CollapseNone | ttml2srt.py:125-129 | without a flag after the first, nothing changes |
| SubRipWriter.MergedShape | ttml2srt.py:120-129 | without the wrap-around pair, the list shrinks by the number of flags and keeps the first and unflagged starts in order |
| SubRipWriter.MaxEndIsMax | ttml2srt.py:127 | the end kept for a run is one of its ends and no end of the run is later in string order |
| SubRipWriter.CollapseRun | ttml2srt.py:125-129 | a run of flagged entries becomes one entry with the run's first start, its latest end and its texts joined by newlines in order; an unflagged entry (a run of one) is kept as it is; the rest collapses on its own |
| SubRipWriter.MergedRun | ttml2srt.py:120-129 | without the wrap-around pair, the leading run of overlapping neighbours is written as one entry with the first start, the latest end and the texts joined in order |
| SubRipWriter.MergeLeavesOverlap | ttml2srt.py:122-129 | flags use the ends before merging, so after the merge an entry can still start before the previous entry's end |
| SubRipWriter.MergedShapeWrap | ttml2srt.py:120-129 | with the wrap-around pair the list shrinks by one more; the first collapsed entry is removed and the last keeps its start, takes the later of the two ends and gets the first entry's text after a newline |
| SubRipWriter.MergedUnchanged | ttml2srt.py:120-129 | a list without overlapping neighbours is left as it is |
| SubRipWriter.SingleDropped | ttml2srt.py:121-129 | a single entry that ends after it starts is merged into itself and nothing is written |
| SubRipWriter.WrapMeansEqualStarts | ttml2srt.py:122 | on a sorted list the wrap-around pair is flagged only when all starts are equal |
| SubRipWriter.DialogueLines | ttml2srt.py:104-105 | a block split into lines is the number, the time line, the dialogue's lines and one empty line |
| SubRipWriter.SubRipDialogue | ttml2srt.py:104-105 | one SubRip block; its behaviour is stated by DialogueLines |
| SubRipWriter.Blocks | ttml2srt.py:132-136 | the numbered blocks of a list; its behaviour is stated by BlocksCat and WriteBlocks |
| SubRipWriter.BlocksCat | ttml2srt.py:132-136 | writing two lists in turn continues the numbering |
| SubRipWriter.WriteBlocks | ttml2srt.py:132-136 | the writing loop gives the blocks numbered from 1 |
| SubRipWriter.SubRipWriterRun | ttml2srt.py:107-136 | the writer gives the first conversion error, or the blocks of the sorted, merged list numbered from 1 |

## Left out

- XML handling is not modelled: minidom parsing, the encoding check, `extract_subtitle_data`, `extract_dialogue` and `get_start_end`. The writer takes `(begin, end, text)` triples instead.
- `.encode('utf8')` of the dialogue is not modelled, because text is kept as characters.
- The command line is not modelled: argparse, `__main__`, `print` and `sys.exit`.
- File output is not modelled. `f.write` is modelled as appending to the returned text, and `f.close` is left out.
- IEEE floating point is not modelled. Floats (`23.976`, `1.0 / tickrate`, float scales) are exact rationals, so binary rounding is not reproduced.
- Unicode is not modelled. `int()` on strings accepts ASCII white space, an optional sign, ASCII white space, ASCII digits and ASCII white space; Unicode digits and spaces are not modelled.
- `list.sort` is a built-in whose algorithm is not shown. It is modelled as a stable insertion sort on the start text, with sortedness, permutation and stability proved.
- The remaining tests in `tests/test01.py` are not modelled. They exercise a `Ttml2Srt` class that is not in the modelled files.
- Ttml2Srt.GetSbTimestampBe: malformed times other than those its lemmas name (digits only, a missing tick rate, an upper-case tick mark) are not characterised beyond the definition.
- TtmlSrt.GetSbTimestampBe: malformed times other than those its lemmas name (digits only, a `-` re-join, an upper-case tick mark without a rate) are not characterised beyond the definition.
- SubRipWriter.MergeOverlaps works on a sequence value that it reassigns. Python's in-place mutation of the inner `[start, end, text]` lists is modelled as replacing the entry, because no list is shared.
