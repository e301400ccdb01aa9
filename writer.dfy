/** The cue list of `subrip_writer` in ttml2srt.py: every line becomes a
    `[start, end, text]` entry with both times converted, the entries are
    sorted by their start text, overlapping neighbours are merged, and the
    rest is written out as numbered SubRip blocks. */
module SubRipWriter {
  import opened PyNum
  import opened PyStr
  import Ttml2Srt

  /** What the writer reads from one `p` element: the `begin` and `end`
      attribute values and the dialogue text. */
  datatype Line = Line(begin: string, end: string, text: string)

  /** One entry of `subs`: formatted start, formatted end, dialogue. */
  datatype Sub = Sub(start: string, end: string, text: string)

  /** The entry for one line; the start is converted before the end. */
  function Cue(line: Line, shift: int, fps: Num, tickRate: Option<int>, scale: Num): Result<Sub> {
    match Ttml2Srt.GetSbTimestampBe(line.begin, shift, fps, tickRate, scale)
    case Err(e) => Err(e)
    case Ok(start) =>
      match Ttml2Srt.GetSbTimestampBe(line.end, shift, fps, tickRate, scale)
      case Err(e) => Err(e)
      case Ok(end) => Ok(Sub(start, end, line.text))
  }

  /** The entry of every line, each converted on its own. */
  function Cues(lines: seq<Line>, shift: int, fps: Num, tickRate: Option<int>, scale: Num): (r: seq<Result<Sub>>)
    ensures |r| == |lines|
    ensures forall i :: 0 <= i < |lines| ==> r[i] == Cue(lines[i], shift, fps, tickRate, scale)
  {
    seq(|lines|, i requires 0 <= i < |lines| => Cue(lines[i], shift, fps, tickRate, scale))
  }

  /** The values in order, or the first error: what appending one entry
      per line gives when the first exception ends the loop. */
  function Collect<T>(rs: seq<Result<T>>): Result<seq<T>>
    decreases |rs|
  {
    if |rs| == 0 then Ok([])
    else
      match Collect(rs[..|rs| - 1])
      case Err(e) => Err(e)
      case Ok(vs) =>
        match rs[|rs| - 1]
        case Err(e) => Err(e)
        case Ok(v) => Ok(vs + [v])
  }

  /** The entries of all lines in order, or the first failure. */
  function ResolveAll(lines: seq<Line>, shift: int, fps: Num, tickRate: Option<int>, scale: Num): Result<seq<Sub>> {
    Collect(Cues(lines, shift, fps, tickRate, scale))
  }

  /** Collecting succeeds exactly when every entry does, and then keeps
      every value in place. */
  lemma {:induction false} CollectOk<T>(rs: seq<Result<T>>)
    ensures Collect(rs).Ok? <==> forall i :: 0 <= i < |rs| ==> rs[i].Ok?
    ensures Collect(rs).Ok? ==>
      (|Collect(rs).value| == |rs| && forall i :: 0 <= i < |rs| ==> Collect(rs).value[i] == rs[i].value)
    decreases |rs|
  {
    if |rs| > 0 {
      var init := rs[..|rs| - 1];
      CollectOk(init);
      assert forall i :: 0 <= i < |init| ==> init[i] == rs[i];
    }
  }

  /** A failure is the error of the first entry that failed. */
  lemma {:induction false} CollectErr<T>(rs: seq<Result<T>>)
    ensures Collect(rs).Err? ==>
      exists i :: 0 <= i < |rs| && rs[i] == Err(Collect(rs).error) && (forall j :: 0 <= j < i ==> rs[j].Ok?)
    decreases |rs|
  {
    if |rs| > 0 {
      var init := rs[..|rs| - 1];
      CollectErr(init);
      CollectOk(init);
      assert forall i :: 0 <= i < |init| ==> init[i] == rs[i];
    }
  }

  /** Once a prefix fails, the whole list fails the same way. */
  lemma {:induction false} CollectPrefixErr<T>(rs: seq<Result<T>>, i: nat)
    requires i <= |rs| && Collect(rs[..i]).Err?
    ensures Collect(rs) == Collect(rs[..i])
    decreases |rs| - i
  {
    if i < |rs| {
      assert rs[..i + 1][..i] == rs[..i];
      CollectPrefixErr(rs, i + 1);
    } else {
      assert rs[..i] == rs;
    }
  }

  /** Every line converts exactly when the whole list does, and then
      entry `i` is line `i` converted. */
  lemma ResolveAllOk(lines: seq<Line>, shift: int, fps: Num, tickRate: Option<int>, scale: Num)
    ensures ResolveAll(lines, shift, fps, tickRate, scale).Ok? <==>
      forall i :: 0 <= i < |lines| ==> Cue(lines[i], shift, fps, tickRate, scale).Ok?
    ensures ResolveAll(lines, shift, fps, tickRate, scale).Ok? ==>
      var subs := ResolveAll(lines, shift, fps, tickRate, scale).value;
      |subs| == |lines| && forall i :: 0 <= i < |lines| ==> Cue(lines[i], shift, fps, tickRate, scale) == Ok(subs[i])
  {
    CollectOk(Cues(lines, shift, fps, tickRate, scale));
  }

  /** A failure is the error of the first line that does not convert. */
  lemma ResolveAllErr(lines: seq<Line>, shift: int, fps: Num, tickRate: Option<int>, scale: Num)
    ensures ResolveAll(lines, shift, fps, tickRate, scale).Err? ==>
      exists i :: 0 <= i < |lines| && Cue(lines[i], shift, fps, tickRate, scale).Err? &&
        ResolveAll(lines, shift, fps, tickRate, scale).error == Cue(lines[i], shift, fps, tickRate, scale).error &&
        forall j :: 0 <= j < i ==> Cue(lines[j], shift, fps, tickRate, scale).Ok?
  {
    CollectErr(Cues(lines, shift, fps, tickRate, scale));
  }

  /** The loop that fills `subs`, one `[start, end, text]` per line. */
  method ResolveLines(lines: seq<Line>, shift: int, fps: Num, tickRate: Option<int>, scale: Num)
    returns (r: Result<seq<Sub>>)
    ensures r == ResolveAll(lines, shift, fps, tickRate, scale)
  {
    ghost var cues := Cues(lines, shift, fps, tickRate, scale);
    var subs: seq<Sub> := [];
    for i := 0 to |lines|
      invariant Collect(cues[..i]) == Ok(subs)
    {
      var cue := Cue(lines[i], shift, fps, tickRate, scale);
      CollectNext(cues, i, subs, cue);
      if cue.Err? {
        return Err(cue.error);
      }
      subs := subs + [cue.value];
    }
    CollectAll(cues, subs);
    return Ok(subs);
  }

  /** Entry `i` of `rs` is `r`, and the entries before it gave `vs`. */
  ghost predicate NextEntry<T>(rs: seq<Result<T>>, i: int, vs: seq<T>, r: Result<T>) {
    0 <= i < |rs| && Collect(rs[..i]) == Ok(vs) && rs[i] == r
  }

  /** The next entry either extends the collected values or, failing, is
      the outcome of the whole list. */
  lemma CollectNext<T>(rs: seq<Result<T>>, i: nat, vs: seq<T>, r: Result<T>)
    requires NextEntry(rs, i, vs, r)
    ensures r.Ok? ==> Collect(rs[..i + 1]) == Ok(vs + [r.value])
    ensures r.Err? ==> Collect(rs) == Err(r.error)
  {
    assert rs[..i + 1][..i] == rs[..i];
    if r.Err? {
      CollectPrefixErr(rs, i + 1);
    }
  }

  lemma CollectAll<T>(rs: seq<Result<T>>, vs: seq<T>)
    requires Collect(rs[..|rs|]) == Ok(vs)
    ensures Collect(rs) == Ok(vs)
  {
    assert rs[..|rs|] == rs;
  }

  // Sorting by start

  /** Adjacent entries are in string order of their starts. */
  predicate SortedByStart(s: seq<Sub>) {
    forall i :: 0 < i < |s| ==> LexLe(s[i - 1].start, s[i].start)
  }

  /** Entry `x` placed after the last entry whose start is not later. */
  function Insert(t: seq<Sub>, x: Sub): (r: seq<Sub>)
    ensures |r| == |t| + 1
    ensures r[|r| - 1] == x || (|t| > 0 && r[|r| - 1] == t[|t| - 1])
    decreases |t|
  {
    if |t| == 0 then [x]
    else if LexLe(t[|t| - 1].start, x.start) then t + [x]
    else Insert(t[..|t| - 1], x) + [t[|t| - 1]]
  }

  /** `subs.sort(key = lambda x: x[0])`: a stable sort on the start text. */
  function SortByStart(s: seq<Sub>): seq<Sub>
    decreases |s|
  {
    if |s| == 0 then [] else Insert(SortByStart(s[..|s| - 1]), s[|s| - 1])
  }

  /** The entries whose start is `k`, in order. */
  function WithStart(s: seq<Sub>, k: string): seq<Sub>
    decreases |s|
  {
    if |s| == 0 then []
    else WithStart(s[..|s| - 1], k) + (if s[|s| - 1].start == k then [s[|s| - 1]] else [])
  }

  lemma {:induction false} InsertSorted(t: seq<Sub>, x: Sub)
    requires SortedByStart(t)
    ensures SortedByStart(Insert(t, x))
    decreases |t|
  {
    if |t| > 0 && !LexLe(t[|t| - 1].start, x.start) {
      var init := t[..|t| - 1];
      InsertSorted(init, x);
      var r := Insert(init, x);
      LexNotLe(t[|t| - 1].start, x.start);
      assert LexLe(r[|r| - 1].start, t[|t| - 1].start);
    }
  }

  lemma {:induction false} InsertPerm(t: seq<Sub>, x: Sub)
    ensures multiset(Insert(t, x)) == multiset(t) + multiset{x}
    decreases |t|
  {
    if |t| > 0 && !LexLe(t[|t| - 1].start, x.start) {
      InsertPerm(t[..|t| - 1], x);
      assert t == t[..|t| - 1] + [t[|t| - 1]];
    }
  }

  lemma {:induction false} WithStartCat(a: seq<Sub>, b: seq<Sub>, k: string)
    ensures WithStart(a + b, k) == WithStart(a, k) + WithStart(b, k)
    decreases |b|
  {
    if |b| > 0 {
      WithStartCat(a, b[..|b| - 1], k);
      assert (a + b)[..|a + b| - 1] == a + b[..|b| - 1];
    } else {
      assert a + b == a;
    }
  }

  lemma {:induction false} InsertStable(t: seq<Sub>, x: Sub, k: string)
    ensures WithStart(Insert(t, x), k) == WithStart(t, k) + (if x.start == k then [x] else [])
    decreases |t|
  {
    if |t| == 0 {
      assert [x][..0] == [];
    } else if LexLe(t[|t| - 1].start, x.start) {
      assert (t + [x])[..|t|] == t;
    } else {
      var init, last := t[..|t| - 1], t[|t| - 1];
      InsertStable(init, x, k);
      var r := Insert(init, x) + [last];
      assert r[..|r| - 1] == Insert(init, x);
      LexRefl(x.start);
      assert last.start != x.start;
    }
  }

  /** The sort puts the starts in order. */
  lemma {:induction false} SortSorted(s: seq<Sub>)
    ensures SortedByStart(SortByStart(s))
    decreases |s|
  {
    if |s| > 0 {
      SortSorted(s[..|s| - 1]);
      InsertSorted(SortByStart(s[..|s| - 1]), s[|s| - 1]);
    }
  }

  /** The sort only reorders. */
  lemma {:induction false} SortPerm(s: seq<Sub>)
    ensures multiset(SortByStart(s)) == multiset(s)
    decreases |s|
  {
    if |s| > 0 {
      var init, last := s[..|s| - 1], s[|s| - 1];
      SortPerm(init);
      InsertPerm(SortByStart(init), last);
      MultisetSnoc(s);
    }
  }

  lemma MultisetSnoc<T>(s: seq<T>)
    requires |s| > 0
    ensures multiset(s) == multiset(s[..|s| - 1]) + multiset{s[|s| - 1]}
  {
    assert s == s[..|s| - 1] + [s[|s| - 1]];
  }

  /** The sort is stable: entries with the same start keep their order. */
  lemma {:induction false} SortStable(s: seq<Sub>, k: string)
    ensures WithStart(SortByStart(s), k) == WithStart(s, k)
    decreases |s|
  {
    if |s| > 0 {
      SortStable(s[..|s| - 1], k);
      InsertStable(SortByStart(s[..|s| - 1]), s[|s| - 1], k);
    }
  }

  // Merging overlaps

  /** The test of the flagging loop for entry `i`: the entry before it,
      the last one when `i` is 0 (index -1), starts no later than `i` and
      ends after `i` starts. */
  predicate Overlaps(s: seq<Sub>, i: int)
    requires 0 <= i < |s|
  {
    var p := if i == 0 then s[|s| - 1] else s[i - 1];
    LexLe(p.start, s[i].start) && LexLt(s[i].start, p.end)
  }

  /** The flags, all decided on the sorted list before anything changes. */
  function Flags(s: seq<Sub>): (g: seq<bool>)
    ensures |g| == |s|
    ensures forall i :: 0 <= i < |s| ==> (g[i] <==> Overlaps(s, i))
  {
    seq(|s|, i requires 0 <= i < |s| => Overlaps(s, i))
  }

  /** Entry `y` absorbed into `x`: `x`'s start, the later end, the texts
      joined by a newline. */
  function Join(x: Sub, y: Sub): Sub {
    Sub(x.start, StrMax(x.end, y.end), x.text + "\n" + y.text)
  }

  /** Every flagged entry after the first merged into the entry before it,
      working from the back, so that a run of flagged entries ends up in
      the entry that starts it. `g[0]` is not looked at. */
  function Collapse(s: seq<Sub>, g: seq<bool>): (r: seq<Sub>)
    requires |g| == |s|
    ensures |s| > 0 ==> |r| > 0 && r[0].start == s[0].start
    decreases |s|
  {
    if |s| == 0 then []
    else
      var rest := Collapse(s[1..], g[1..]);
      if |s| >= 2 && g[1] then [Join(s[0], rest[0])] + rest[1..] else [s[0]] + rest
  }

  /** The pair `(-1, 0)`: the last entry absorbs the first, which is then
      popped; with one entry left the two are the same and nothing
      remains. */
  function Wrap(c: seq<Sub>): seq<Sub>
    requires |c| > 0
  {
    if |c| == 1 then [] else c[1..|c| - 1] + [Join(c[|c| - 1], c[0])]
  }

  /** The list once every flagged pair is applied. */
  function Merged(s: seq<Sub>): seq<Sub> {
    var g := Flags(s);
    if |s| > 0 && g[0] then Wrap(Collapse(s, g)) else Collapse(s, g)
  }

  /** The number of set flags. */
  function Count(g: seq<bool>): nat
    decreases |g|
  {
    if |g| == 0 then 0 else (if g[0] then 1 else 0) + Count(g[1..])
  }

  /** The starts of the entries whose flag is not set, in order. */
  function Unflagged(s: seq<Sub>, g: seq<bool>): seq<string>
    requires |g| == |s|
    decreases |s|
  {
    if |s| == 0 then [] else (if g[0] then [] else [s[0].start]) + Unflagged(s[1..], g[1..])
  }

  function Starts(s: seq<Sub>): (r: seq<string>)
    ensures |r| == |s| && forall i :: 0 <= i < |s| ==> r[i] == s[i].start
  {
    seq(|s|, i requires 0 <= i < |s| => s[i].start)
  }

  /** Every flagged entry after the first disappears into an earlier one,
      so the list shrinks by the number of those flags. */
  lemma {:induction false} CollapseLength(s: seq<Sub>, g: seq<bool>)
    requires |g| == |s| && |s| > 0
    ensures |Collapse(s, g)| == |s| - Count(g[1..])
    decreases |s|
  {
    if |s| >= 2 {
      CollapseLength(s[1..], g[1..]);
      assert g[1..][1..] == g[2..];
    }
  }

  /** The entries left keep their starts: the first one, then every
      unflagged one, in order. */
  lemma {:induction false} CollapseStarts(s: seq<Sub>, g: seq<bool>)
    requires |g| == |s| && |s| > 0
    ensures Starts(Collapse(s, g)) == [s[0].start] + Unflagged(s[1..], g[1..])
    decreases |s|
  {
    var r := Collapse(s, g);
    if |s| == 1 {
      assert r == [s[0]] + Collapse(s[1..], g[1..]);
      assert r == [s[0]];
    } else {
      var rest := Collapse(s[1..], g[1..]);
      CollapseStarts(s[1..], g[1..]);
      assert s[1..][1..] == s[2..] && g[1..][1..] == g[2..];
      var u := Unflagged(s[2..], g[2..]);
      assert Unflagged(s[1..], g[1..]) == (if g[1] then [] else [s[1].start]) + u;
      if g[1] {
        StartsCons(Join(s[0], rest[0]), rest[1..]);
        StartsTail(rest);
      } else {
        StartsCons(s[0], rest);
      }
    }
  }

  lemma StartsCons(x: Sub, t: seq<Sub>)
    ensures Starts([x] + t) == [x.start] + Starts(t)
  {
  }

  lemma StartsTail(t: seq<Sub>)
    requires |t| > 0
    ensures Starts(t[1..]) == Starts(t)[1..]
  {
  }

  /** With no flag after the first, collapsing changes nothing. */
  lemma {:induction false} CollapseNone(s: seq<Sub>, g: seq<bool>)
    requires |g| == |s| && forall i :: 0 < i < |g| ==> !g[i]
    ensures Collapse(s, g) == s
    decreases |s|
  {
    if |s| > 0 {
      CollapseNone(s[1..], g[1..]);
      assert [s[0]] + s[1..] == s;
    }
  }

  /** The latest end of a non-empty list of entries, by string order. */
  function MaxEnd(s: seq<Sub>): string
    requires |s| > 0
    decreases |s|
  {
    if |s| == 1 then s[0].end else StrMax(s[0].end, MaxEnd(s[1..]))
  }

  /** `MaxEnd` is one of the ends, and no end is later. */
  lemma {:induction false} MaxEndIsMax(s: seq<Sub>)
    requires |s| > 0
    ensures exists i :: 0 <= i < |s| && MaxEnd(s) == s[i].end
    ensures forall i :: 0 <= i < |s| ==> LexLe(s[i].end, MaxEnd(s))
    decreases |s|
  {
    if |s| == 1 {
      LexRefl(s[0].end);
    } else {
      var t := s[1..];
      var m := MaxEnd(t);
      MaxEndIsMax(t);
      var j :| 0 <= j < |t| && m == t[j].end;
      assert MaxEnd(s) == s[0].end || MaxEnd(s) == s[j + 1].end;
      forall i | 1 <= i < |s|
        ensures LexLe(s[i].end, MaxEnd(s))
      {
        assert s[i] == t[i - 1];
        LexTrans(s[i].end, m, MaxEnd(s));
      }
    }
  }

  function Texts(s: seq<Sub>): (r: seq<string>)
    ensures |r| == |s| && forall i :: 0 <= i < |s| ==> r[i] == s[i].text
  {
    seq(|s|, i requires 0 <= i < |s| => s[i].text)
  }

  /** A run of entries `s[..k]` whose every entry after the first is
      flagged, and ended by an unflagged entry or the end of the list,
      becomes one entry: the run's first start, its latest end, and its
      texts joined by newlines in order. The rest collapses on its own. */
  lemma {:induction false} CollapseRun(s: seq<Sub>, g: seq<bool>, k: nat)
    requires |g| == |s| && 1 <= k <= |s|
    requires forall i :: 1 <= i < k ==> g[i]
    requires k == |s| || !g[k]
    ensures Collapse(s, g) ==
      [Sub(s[0].start, MaxEnd(s[..k]), JoinWith(Texts(s[..k]), '\n'))] + Collapse(s[k..], g[k..])
    decreases k
  {
    var rest := Collapse(s[1..], g[1..]);
    if k == 1 {
      assert Texts(s[..1]) == [s[0].text];
      assert s[1..] == s[k..] && g[1..] == g[k..];
      if |s| >= 2 {
        assert !g[1];
      }
    } else {
      CollapseRun(s[1..], g[1..], k - 1);
      assert s[1..][k - 1..] == s[k..] && g[1..][k - 1..] == g[k..];
      var t := s[..k];
      assert t[1..] == s[1..][..k - 1];
      assert Texts(t)[1..] == Texts(t[1..]);
      assert rest[0].end == MaxEnd(t[1..]) && rest[0].text == JoinWith(Texts(t[1..]), '\n');
    }
  }

  /** Without the wrap-around pair, every flagged entry is absorbed and
      the starts of the others survive in order. */
  lemma MergedShape(s: seq<Sub>)
    requires |s| > 0 && !Overlaps(s, 0)
    ensures |Merged(s)| == |s| - Count(Flags(s)[1..])
    ensures Starts(Merged(s)) == [s[0].start] + Unflagged(s[1..], Flags(s)[1..])
  {
    CollapseLength(s, Flags(s));
    CollapseStarts(s, Flags(s));
  }

  /** Without the wrap-around pair, the leading run `s[..k]` of
      overlapping neighbours is written as one entry: the first start, the
      latest end, the texts joined by newlines in order. Later entries
      collapse independently of it. */
  lemma MergedRun(s: seq<Sub>, k: nat)
    requires 1 <= k <= |s| && !Overlaps(s, 0)
    requires forall i :: 1 <= i < k ==> Overlaps(s, i)
    requires k == |s| || !Overlaps(s, k)
    ensures Merged(s) ==
      [Sub(s[0].start, MaxEnd(s[..k]), JoinWith(Texts(s[..k]), '\n'))] + Collapse(s[k..], Flags(s)[k..])
  {
    CollapseRun(s, Flags(s), k);
  }

  /** Flags are decided on the ends before merging, so an entry can still
      start before the end of the entry it follows: here the second entry
      is absorbed into the first, whose end `9` then covers the third
      entry's start `5`, which was only compared with the end `2`. */
  lemma MergeLeavesOverlap(s: seq<Sub>)
    requires s == [Sub("0", "9", "a"), Sub("1", "2", "b"), Sub("5", "6", "c")]
    ensures Merged(s) == [Sub("0", "9", "a\nb"), Sub("5", "6", "c")]
    ensures LexLt(Merged(s)[1].start, Merged(s)[0].end)
  {
    assert !Overlaps(s, 0) && Overlaps(s, 1) && !Overlaps(s, 2);
    MergedRun(s, 2);
    assert s[..2] == [s[0], s[1]] && s[2..] == [s[2]];
    assert MaxEnd(s[..2]) == "9";
    assert JoinWith(Texts(s[..2]), '\n') == "a\nb";
  }

  /** With the wrap-around pair, the first entry is absorbed as well. */
  lemma MergedShapeWrap(s: seq<Sub>)
    requires |s| > 0 && Overlaps(s, 0)
    ensures |Merged(s)| == |s| - 1 - Count(Flags(s)[1..])
    ensures var c, m := Collapse(s, Flags(s)), Merged(s);
      |c| >= 2 ==>
        m[..|m| - 1] == c[1..|c| - 1] &&
        m[|m| - 1].start == c[|c| - 1].start &&
        m[|m| - 1].end == StrMax(c[|c| - 1].end, c[0].end) &&
        m[|m| - 1].text == c[|c| - 1].text + "\n" + c[0].text
    ensures |Collapse(s, Flags(s))| == 1 ==> Merged(s) == []
  {
    CollapseLength(s, Flags(s));
  }

  /** A list without overlapping neighbours is left as it is. */
  lemma MergedUnchanged(s: seq<Sub>)
    requires forall i :: 0 <= i < |s| ==> !Overlaps(s, i)
    ensures Merged(s) == s
  {
    CollapseNone(s, Flags(s));
  }

  /** A single entry that ends after it starts overlaps itself through
      index -1 and is merged away: nothing is written. */
  lemma SingleDropped(x: Sub)
    requires LexLt(x.start, x.end)
    ensures Merged([x]) == []
  {
    LexRefl(x.start);
    assert Overlaps([x], 0);
    assert [x][1..] == [];
    assert Collapse([x], Flags([x])) == [x];
  }

  /** In a sorted list every start is at most the last one. */
  lemma {:induction false} SortedUpTo(s: seq<Sub>, i: nat)
    requires SortedByStart(s) && i < |s|
    ensures LexLe(s[0].start, s[i].start) && LexLe(s[i].start, s[|s| - 1].start)
    decreases i
  {
    if i == 0 {
      LexRefl(s[0].start);
      SortedToLast(s, 0);
    } else {
      SortedUpTo(s, i - 1);
      LexTrans(s[0].start, s[i - 1].start, s[i].start);
      SortedToLast(s, i);
    }
  }

  lemma {:induction false} SortedToLast(s: seq<Sub>, i: nat)
    requires SortedByStart(s) && i < |s|
    ensures LexLe(s[i].start, s[|s| - 1].start)
    decreases |s| - i
  {
    if i == |s| - 1 {
      LexRefl(s[i].start);
    } else {
      SortedToLast(s, i + 1);
      LexTrans(s[i].start, s[i + 1].start, s[|s| - 1].start);
    }
  }

  /** On a sorted list the wrap-around pair is flagged only when every
      entry has the same start. */
  lemma WrapMeansEqualStarts(s: seq<Sub>)
    requires SortedByStart(s) && |s| > 0 && Overlaps(s, 0)
    ensures forall i :: 0 <= i < |s| ==> s[i].start == s[0].start
  {
    forall i | 0 <= i < |s|
      ensures s[i].start == s[0].start
    {
      SortedUpTo(s, i);
      SortedUpTo(s, |s| - 1);
      LexAntisym(s[0].start, s[|s| - 1].start);
      LexAntisym(s[0].start, s[i].start);
    }
  }

  /** The list after every pair `(i - 1, i)` with `i > j` is applied. */
  function Stage(s: seq<Sub>, g: seq<bool>, j: nat): seq<Sub>
    requires |g| == |s| && j < |s|
  {
    s[..j] + Collapse(s[j..], g[j..])
  }

  /** `overlaps` after the `reverse()`, cut down to the pairs `(i - 1, i)`
      with `i < j`: the largest `i` first. */
  function Down(g: seq<bool>, j: nat): seq<(int, int)>
    requires j <= |g|
  {
    if j == 0 then [] else PairAt(g, j - 1) + Down(g, j - 1)
  }

  /** `overlaps` as the flagging loop builds it: smallest `i` first. */
  function Up(g: seq<bool>, j: nat): seq<(int, int)>
    requires j <= |g|
  {
    if j == 0 then [] else Up(g, j - 1) + PairAt(g, j - 1)
  }

  /** The pair `(i - 1, i)` when `i` is flagged, else nothing. */
  function PairAt(g: seq<bool>, i: nat): seq<(int, int)>
    requires i < |g|
  {
    if g[i] then [(i - 1, i)] else []
  }

  function Reversed<T>(s: seq<T>): (r: seq<T>)
    ensures |r| == |s|
    decreases |s|
  {
    if |s| == 0 then [] else [s[|s| - 1]] + Reversed(s[..|s| - 1])
  }

  lemma {:induction false} ReversedCat<T>(a: seq<T>, b: seq<T>)
    ensures Reversed(a + b) == Reversed(b) + Reversed(a)
    decreases |b|
  {
    if |b| == 0 {
      assert a + b == a;
    } else {
      var c, x, init := a + b, b[|b| - 1], b[..|b| - 1];
      ReversedCat(a, init);
      assert c[..|c| - 1] == a + init && c[|c| - 1] == x;
      assert Reversed(c) == [x] + Reversed(a + init);
      assert Reversed(b) == [x] + Reversed(init);
      CatAssoc([x], Reversed(init), Reversed(a));
    }
  }

  lemma {:induction false} UpDown(g: seq<bool>, j: nat)
    requires j <= |g|
    ensures Reversed(Up(g, j)) == Down(g, j)
    decreases j
  {
    if j > 0 {
      var u, t := Up(g, j - 1), PairAt(g, j - 1);
      assert Up(g, j) == u + t;
      assert Down(g, j) == t + Down(g, j - 1);
      UpDown(g, j - 1);
      ReversedCat(u, t);
      ReversedShort(t);
      assert Reversed(u + t) == t + Down(g, j - 1);
    }
  }

  lemma ReversedShort<T>(s: seq<T>)
    requires |s| <= 1
    ensures Reversed(s) == s
  {
    if |s| == 1 {
      assert s[..0] == [];
    }
  }

  /** The head of `Down(g, j)` is the largest flagged index below `j`. */
  lemma {:induction false} DownHead(g: seq<bool>, j: nat) returns (b: nat)
    requires j <= |g| && |Down(g, j)| > 0
    ensures b < j && g[b] && Down(g, j) == [(b - 1, b)] + Down(g, b)
    ensures Clear(g, b, j)
    decreases j
  {
    if g[j - 1] {
      b := j - 1;
    } else {
      b := DownHead(g, j - 1);
    }
  }

  /** The pair at position `k` is the head of `Down(g, j)`. */
  lemma NextPair(o: seq<(int, int)>, k: nat, g: seq<bool>, j: nat) returns (b: nat)
    requires k < |o| && j <= |g| && o[k..] == Down(g, j)
    ensures b < j && g[b] && o[k] == (b as int - 1, b as int) && o[k + 1..] == Down(g, b)
    ensures Clear(g, b, j)
  {
    b := DownHead(g, j);
    assert o[k] == o[k..][0];
    assert o[k + 1..] == o[k..][1..];
  }

  /** No index strictly between `lo` and `hi` is flagged. */
  ghost predicate Clear(g: seq<bool>, lo: nat, hi: nat)
    requires hi <= |g|
  {
    forall k :: lo < k < hi ==> !g[k]
  }

  /** With no flag in `(i, j]`, stages `i` and `j` agree. */
  lemma {:induction false} StageSkip(s: seq<Sub>, g: seq<bool>, i: nat, j: nat)
    requires |g| == |s| && i <= j < |s|
    requires forall k :: i < k <= j ==> !g[k]
    ensures Stage(s, g, i) == Stage(s, g, j)
    decreases j - i
  {
    if i < j {
      StageSkip(s, g, i + 1, j);
      assert s[i..][1..] == s[i + 1..] && g[i..][1..] == g[i + 1..];
      assert s[..i + 1] == s[..i] + [s[i]];
    }
  }

  /** Applying pair `(b - 1, b)` to stage `b` gives stage `b - 1`. */
  lemma StageStep(s: seq<Sub>, g: seq<bool>, b: nat)
    requires |g| == |s| && 1 <= b < |s| && g[b]
    ensures var t := Stage(s, g, b);
      |t| > b && t[b - 1] == s[b - 1] &&
      t[..b - 1] + [Join(t[b - 1], t[b])] + t[b + 1..] == Stage(s, g, b - 1)
  {
    var c := Collapse(s[b..], g[b..]);
    assert s[b - 1..][1..] == s[b..] && g[b - 1..][1..] == g[b..];
    assert s[..b] == s[..b - 1] + [s[b - 1]];
  }

  /** The first stage is the whole collapse. */
  lemma StageZero(s: seq<Sub>, g: seq<bool>)
    requires |g| == |s| && |s| > 0
    ensures Stage(s, g, 0) == Collapse(s, g)
  {
    assert s[0..] == s && g[0..] == g;
  }

  /** The last stage is the list itself. */
  lemma StageLast(s: seq<Sub>, g: seq<bool>)
    requires |g| == |s| && |s| > 0
    ensures Stage(s, g, |s| - 1) == s
  {
    var n := |s| - 1;
    assert s[n..] == [s[n]] && s[n..][1..] == [];
    assert Collapse(s[n..], g[n..]) == [s[n]];
    assert s[..n] + [s[n]] == s;
  }

  /** With no pair left below `j`, no entry below `j` is flagged. */
  lemma {:induction false} DownEmpty(g: seq<bool>, j: nat)
    requires j <= |g| && Down(g, j) == []
    ensures forall i :: 0 <= i < j ==> !g[i]
    decreases j
  {
    if j > 0 {
      DownEmpty(g, j - 1);
    }
  }

  /** Entry `b - 1` replaced by the joined entry, then entry `b` popped. */
  lemma PopAfter(t: seq<Sub>, b: nat, e: Sub)
    requires 1 <= b < |t|
    ensures var u := t[b - 1 := e]; u[..b] + u[b + 1..] == t[..b - 1] + [e] + t[b + 1..]
  {
    var u := t[b - 1 := e];
    assert u[..b] == t[..b - 1] + [e];
    assert u[b + 1..] == t[b + 1..];
  }

  /** The last entry replaced by the joined entry, then the first popped. */
  lemma PopFirst(c: seq<Sub>, e: Sub)
    requires |c| > 0 && e == Join(c[|c| - 1], c[0])
    ensures c[|c| - 1 := e][1..] == Wrap(c)
  {
  }

  /** The pairs `(i - 1, i)` of overlapping neighbours, collected for
      increasing `i` and then reversed. */
  method OverlapPairs(subs0: seq<Sub>) returns (overlaps: seq<(int, int)>)
    ensures overlaps == Down(Flags(subs0), |subs0|)
  {
    ghost var g := Flags(subs0);
    overlaps := [];
    for i := 0 to |subs0|
      invariant overlaps == Up(g, i)
    {
      var prev := if i == 0 then subs0[|subs0| - 1] else subs0[i - 1];
      if LexLe(prev.start, subs0[i].start) && LexLt(subs0[i].start, prev.end) {
        overlaps := overlaps + [(i - 1, i)];
      }
    }
    UpDown(g, |subs0|);
    overlaps := Reversed(overlaps);
  }

  /** The flagging loop and the merging loop of `subrip_writer`: the pairs
      are collected first, reversed, then applied one by one with Python's
      negative index for `-1`, each extending the end, joining the texts
      and popping the absorbed entry. */
  method MergeOverlaps(subs0: seq<Sub>) returns (subs: seq<Sub>)
    ensures subs == Merged(subs0)
  {
    ghost var g := Flags(subs0);
    var overlaps := OverlapPairs(subs0);
    subs := subs0;
    ghost var n: nat := |subs0|;
    MergeStart(subs0, g);
    var k := 0;
    while k < |overlaps|
      invariant 0 <= k <= |overlaps| && n <= |subs0|
      invariant overlaps[k..] == Down(g, n)
      invariant MergeInv(subs0, g, subs, n)
    {
      ghost var pair := NextStep(subs0, g, subs, n, overlaps, k);
      var a, b := overlaps[k].0, overlaps[k].1;
      var ai := if a < 0 then |subs| + a else a;
      var entry := subs[ai];
      entry := entry.(end := StrMax(entry.end, subs[b].end));
      entry := entry.(text := entry.text + "\n" + subs[b].text);
      StepInv(subs0, g, subs, n, b, ai, entry);
      subs := subs[ai := entry];
      subs := subs[..b] + subs[b + 1..];
      n := b;
      k := k + 1;
    }
    MergeDone(subs0, g, subs, n);
  }

  lemma MergeStart(s: seq<Sub>, g: seq<bool>)
    requires g == Flags(s)
    ensures MergeInv(s, g, s, |s|)
  {
    if |s| > 0 {
      StageLast(s, g);
    }
  }

  /** With no pair left below `n`, the loop has produced `Merged(s)`. */
  lemma MergeDone(s: seq<Sub>, g: seq<bool>, subs: seq<Sub>, n: nat)
    requires g == Flags(s) && n <= |s| && MergeInv(s, g, subs, n) && Down(g, n) == []
    ensures subs == Merged(s)
  {
    if n > 0 {
      DownEmpty(g, n);
      StageSkip(s, g, 0, n - 1);
      StageZero(s, g);
    }
  }

  /** What the merging loop keeps: the pairs at or above `n` are applied. */
  ghost predicate MergeInv(s: seq<Sub>, g: seq<bool>, subs: seq<Sub>, n: nat)
    requires |g| == |s| && n <= |s|
  {
    if n > 0 then subs == Stage(s, g, n - 1) else subs == Merged(s)
  }

  /** Both indices of the next pair are in range. */
  lemma StepBounds(s: seq<Sub>, g: seq<bool>, subs: seq<Sub>, n: nat, b: nat)
    requires |g| == |s| && n <= |s| && MergeInv(s, g, subs, n)
    requires b < n && g[b] && Clear(g, b, n)
    ensures b < |subs|
  {
    StageSkip(s, g, b, n - 1);
    if b >= 1 {
      StageStep(s, g, b);
    } else {
      StageZero(s, g);
    }
  }

  /** Before applying pair `(b - 1, b)`: the stages above `n` are applied,
      `b` is the next flagged index below `n`, and it is in range. */
  ghost predicate Ready(s: seq<Sub>, g: seq<bool>, subs: seq<Sub>, n: nat, b: nat) {
    g == Flags(s) && n <= |s| && MergeInv(s, g, subs, n) &&
    b < n && g[b] && Clear(g, b, n) && b < |subs|
  }

  /** The pair at position `k` of the reversed list is the next one. */
  lemma NextStep(s: seq<Sub>, g: seq<bool>, subs: seq<Sub>, n: nat, o: seq<(int, int)>, k: nat) returns (b: nat)
    requires g == Flags(s) && n <= |s| && MergeInv(s, g, subs, n)
    requires k < |o| && o[k..] == Down(g, n)
    ensures Ready(s, g, subs, n, b) && o[k] == (b as int - 1, b as int) && o[k + 1..] == Down(g, b)
  {
    b := NextPair(o, k, g, n);
    StepBounds(s, g, subs, n, b);
  }

  /** One pair applied: the entry at `ai` (index `b - 1`, or the last one
      for `b = 0`) absorbs entry `b`, which is popped. */
  lemma StepInv(s: seq<Sub>, g: seq<bool>, subs: seq<Sub>, n: nat, b: nat, ai: int, e: Sub)
    requires Ready(s, g, subs, n, b) && ai == (if b >= 1 then b - 1 else |subs| - 1)
    requires e == Join(subs[ai], subs[b])
    ensures MergeInv(s, g, subs[ai := e][..b] + subs[ai := e][b + 1..], b)
  {
    StageSkip(s, g, b, n - 1);
    StepAt(s, g, subs, b, ai, e);
  }

  lemma StepAt(s: seq<Sub>, g: seq<bool>, subs: seq<Sub>, b: nat, ai: int, e: Sub)
    requires g == Flags(s) && b < |s| && g[b] && subs == Stage(s, g, b)
    requires b < |subs| && ai == (if b >= 1 then b - 1 else |subs| - 1)
    requires e == Join(subs[ai], subs[b])
    ensures MergeInv(s, g, subs[ai := e][..b] + subs[ai := e][b + 1..], b)
  {
    if b >= 1 {
      StepAfter(s, g, subs, b, e);
    } else {
      StepFirst(s, g, subs, e);
    }
  }

  lemma StepAfter(s: seq<Sub>, g: seq<bool>, subs: seq<Sub>, b: nat, e: Sub)
    requires |g| == |s| && 1 <= b < |s| && g[b] && subs == Stage(s, g, b)
    requires b < |subs| && e == Join(subs[b - 1], subs[b])
    ensures subs[b - 1 := e][..b] + subs[b - 1 := e][b + 1..] == Stage(s, g, b - 1)
  {
    StageStep(s, g, b);
    PopAfter(subs, b, e);
  }

  lemma StepFirst(s: seq<Sub>, g: seq<bool>, subs: seq<Sub>, e: Sub)
    requires g == Flags(s) && |s| > 0 && g[0] && subs == Stage(s, g, 0)
    requires |subs| > 0 && e == Join(subs[|subs| - 1], subs[0])
    ensures subs[|subs| - 1 := e][1..] == Merged(s)
  {
    StageZero(s, g);
    PopFirst(subs, e);
  }

  // Writing

  /** `subrip_dialogue(count, start, end, dialogue)`: one SubRip block. */
  function SubRipDialogue(count: int, start: string, end: string, dialogue: string): string {
    IntToStr(count) + "\n" + start + " --> " + end + "\n" + dialogue + "\n\n"
  }

  /** The blocks for `subs`, numbered from `first`. */
  function Blocks(subs: seq<Sub>, first: int): string
    decreases |subs|
  {
    if |subs| == 0 then ""
    else SubRipDialogue(first, subs[0].start, subs[0].end, subs[0].text) + Blocks(subs[1..], first + 1)
  }

  /** Split into lines, a block is its number, the time line, the lines of
      the dialogue and one empty line. */
  lemma DialogueLines(count: int, start: string, end: string, dialogue: string)
    requires '\n' !in start && '\n' !in end
    ensures Split(SubRipDialogue(count, start, end, dialogue), '\n') ==
      [IntToStr(count), start + " --> " + end] + Split(dialogue, '\n') + ["", ""]
  {
    var num, times := IntToStr(count), start + " --> " + end;
    IntToStrAvoids(count, '\n');
    assert '\n' !in times;
    var d := Split(dialogue, '\n');
    var tail := dialogue + ['\n'] + "\n";
    assert Split("\n", '\n') == ["", ""] by {
      assert "\n" == "" + ['\n'] + "";
      SplitJoin("", "", '\n');
    }
    assert Split(tail, '\n') == d + ["", ""] by {
      SplitJoin(dialogue, "\n", '\n');
    }
    assert Split(times + ['\n'] + tail, '\n') == [times] + (d + ["", ""]) by {
      SplitCons(times, tail, '\n');
    }
    BlockShape(num, start, end, dialogue);
    SplitCons(num, times + ['\n'] + tail, '\n');
    LinesShape(num, times, d, ["", ""]);
  }

  lemma BlockShape(n: string, s: string, e: string, d: string)
    ensures n + "\n" + s + " --> " + e + "\n" + d + "\n\n" ==
      n + ['\n'] + ((s + " --> " + e) + ['\n'] + (d + ['\n'] + "\n"))
  {
    var t := s + " --> " + e;
    assert "\n\n" == ['\n'] + "\n";
    CatAssoc(d, ['\n'], "\n");
    CatAssoc(t + ['\n'], d, ['\n'] + "\n");
    CatAssoc(t, ['\n'], d + (['\n'] + "\n"));
    CatAssoc(n + ['\n'], t, ['\n'] + (d + (['\n'] + "\n")));
  }

  lemma DropCat<T>(a: seq<T>, b: seq<T>)
    requires |a| > 0
    ensures (a + b)[0] == a[0] && (a + b)[1..] == a[1..] + b
  {
  }

  lemma LinesShape<T>(x: T, y: T, d: seq<T>, e: seq<T>)
    ensures [x] + ([y] + (d + e)) == [x, y] + d + e
  {
  }

  /** Writing two lists one after the other continues the numbering. */
  lemma {:induction false} BlocksCat(a: seq<Sub>, b: seq<Sub>, first: int)
    ensures Blocks(a + b, first) == Blocks(a, first) + Blocks(b, first + |a|)
    decreases |a|
  {
    if |a| == 0 {
      assert a + b == b;
    } else {
      BlocksCat(a[1..], b, first + 1);
      DropCat(a, b);
      CatAssoc(SubRipDialogue(first, a[0].start, a[0].end, a[0].text), Blocks(a[1..], first + 1),
               Blocks(b, first + |a|));
    }
  }

  /** The writing loop: `lcount` counts the blocks from 1. */
  method WriteBlocks(subs: seq<Sub>) returns (out: string)
    ensures out == Blocks(subs, 1)
  {
    out := "";
    var lcount := 0;
    for i := 0 to |subs|
      invariant lcount == i
      invariant out + Blocks(subs[i..], lcount + 1) == Blocks(subs, 1)
    {
      lcount := lcount + 1;
      var dialg := SubRipDialogue(lcount, subs[i].start, subs[i].end, subs[i].text);
      BlocksHead(subs, i, lcount, dialg);
      CatAssoc(out, dialg, Blocks(subs[i + 1..], lcount + 1));
      out := out + dialg;
    }
  }

  lemma BlocksHead(subs: seq<Sub>, i: nat, k: int, d: string)
    requires i < |subs| && d == SubRipDialogue(k, subs[i].start, subs[i].end, subs[i].text)
    ensures Blocks(subs[i..], k) == d + Blocks(subs[i + 1..], k + 1)
  {
    assert subs[i..][1..] == subs[i + 1..];
  }

  /** `subrip_writer` without the XML and the file: convert, sort, merge,
      write. */
  method SubRipWriterRun(lines: seq<Line>, shift: int, fps: Num, tickRate: Option<int>, scale: Num)
    returns (r: Result<string>)
    ensures r == match ResolveAll(lines, shift, fps, tickRate, scale)
                 case Err(e) => Err(e)
                 case Ok(subs) => Ok(Blocks(Merged(SortByStart(subs)), 1))
  {
    var subs := ResolveLines(lines, shift, fps, tickRate, scale);
    if subs.Err? {
      return Err(subs.error);
    }
    var sorted := SortByStart(subs.value);
    var merged := MergeOverlaps(sorted);
    var out := WriteBlocks(merged);
    return Ok(out);
  }
}
