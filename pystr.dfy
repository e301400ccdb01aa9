/** The Python 2 string operations the converter relies on: `int()` on a
    string, `str()` and `'{:0Nd}'.format` on an int, `split`, `rsplit(c, 1)`,
    `rstrip(c)`, `join`, the digit test behind the delimiter search, and the
    ordering Python uses to compare (and `max`) two strings. Strings are
    sequences of characters; only ASCII digits and ASCII white space are
    treated specially. */
module PyStr {
  import opened PyNum

  predicate IsDigit(c: char) {
    '0' <= c <= '9'
  }

  predicate AllDigits(s: string) {
    forall i :: 0 <= i < |s| ==> IsDigit(s[i])
  }

  /** White space as Python 2's `int()` skips it. */
  predicate IsSpace(c: char) {
    c == ' ' || c == '\t' || c == '\n' || c == '\r' || c as int == 11 || c as int == 12
  }

  function DigitValue(c: char): nat
    requires IsDigit(c)
  {
    (c as int) - ('0' as int)
  }

  function DigitChar(d: nat): (c: char)
    requires d < 10
    ensures IsDigit(c) && DigitValue(c) == d
  {
    (('0' as int) + d) as char
  }

  function Pow10(k: nat): (p: nat)
    ensures p >= 1
  {
    if k == 0 then 1 else 10 * Pow10(k - 1)
  }

  lemma {:induction false} Pow10Monotone(j: nat, k: nat)
    requires j <= k
    ensures Pow10(j) <= Pow10(k)
  {
    if j < k {
      Pow10Monotone(j, k - 1);
    }
  }

  /** The value of a string of decimal digits, read most significant first. */
  function DigitsValue(s: string): (v: nat)
    requires AllDigits(s)
    ensures v < Pow10(|s|)
  {
    if |s| == 0 then 0 else DigitsValue(s[..|s| - 1]) * 10 + DigitValue(s[|s| - 1])
  }

  /** Leading zeros do not change the value of a digit string. */
  lemma {:induction false} DigitsValueZeros(z: string, s: string)
    requires forall i :: 0 <= i < |z| ==> z[i] == '0'
    requires AllDigits(s)
    ensures AllDigits(z + s) && DigitsValue(z + s) == DigitsValue(s)
    decreases |z| + |s|
  {
    if |s| == 0 {
      assert z + s == z;
      if |z| > 0 {
        assert z[..|z| - 1] + [] == z[..|z| - 1];
        DigitsValueZeros(z[..|z| - 1], []);
      }
    } else {
      assert (z + s)[..|z + s| - 1] == z + s[..|s| - 1];
      DigitsValueZeros(z, s[..|s| - 1]);
    }
  }

  lemma ModStep(n: nat, w: nat)
    requires w >= 1
    ensures ((n / 10) % Pow10(w - 1)) * 10 + n % 10 == n % Pow10(w)
  {
    var p := Pow10(w - 1);
    var q, r := n / 10, n % 10;
    var a, b := q / p, q % p;
    assert n == 10 * q + r;
    assert q == p * a + b;
    assert n == (10 * p) * a + (10 * b + r);
    assert 0 <= 10 * b + r < 10 * p;
    ModUnique(n, 10 * p, a, 10 * b + r);
  }

  lemma ModUnique(n: int, m: int, a: int, b: int)
    requires m > 0 && n == m * a + b && 0 <= b < m
    ensures n % m == b && n / m == a
  {
    var q, r := n / m, n % m;
    assert n == m * q + r && 0 <= r < m;
    assert m * (a - q) == r - b;
    if a - q >= 1 {
      MulAtLeast(m, a - q);
    } else if a - q <= -1 {
      MulAtLeast(m, q - a);
    }
  }

  lemma MulAtLeast(m: int, k: int)
    requires m > 0 && k >= 1
    ensures m * k >= m
  {
  }

  /** The `w` lowest decimal digits of `n`, most significant first. */
  function Pad(n: nat, w: nat): (s: string)
    ensures |s| == w && AllDigits(s)
  {
    if w == 0 then "" else Pad(n / 10, w - 1) + [DigitChar(n % 10)]
  }

  /** The digits read back as `n` modulo `10^w`. */
  lemma {:induction false} PadValue(n: nat, w: nat)
    ensures DigitsValue(Pad(n, w)) == n % Pow10(w)
  {
    if w > 0 {
      var s := Pad(n, w);
      assert s[..|s| - 1] == Pad(n / 10, w - 1);
      PadValue(n / 10, w - 1);
      ModStep(n, w);
    }
  }

  /** The number of decimal digits of `n` (one for zero). */
  function NumDigits(n: nat): (k: nat)
    ensures k >= 1 && n < Pow10(k)
  {
    if n < 10 then 1 else 1 + NumDigits(n / 10)
  }

  function Max(a: int, b: int): int {
    if a >= b then a else b
  }

  /** Digits of `n` zero-filled to at least `w` places: the value is kept. */
  lemma PadWide(n: nat, w: nat)
    requires w >= NumDigits(n)
    ensures DigitsValue(Pad(n, w)) == n
  {
    PadValue(n, w);
    Pow10Monotone(NumDigits(n), w);
  }

  /** A number below `10^k` has at most `k` digits. */
  lemma {:induction false} NumDigitsAtMost(n: nat, k: nat)
    requires k >= 1 && n < Pow10(k)
    ensures NumDigits(n) <= k
  {
    if n >= 10 {
      NumDigitsAtMost(n / 10, k - 1);
    }
  }

  /** Zero-filled digit strings of one width compare as the numbers do. */
  lemma {:induction false} PadOrder(a: nat, b: nat, w: nat)
    requires a < Pow10(w) && b < Pow10(w)
    ensures LexLe(Pad(a, w), Pad(b, w)) <==> a <= b
    ensures Pad(a, w) == Pad(b, w) <==> a == b
  {
    if w > 0 {
      PadOrder(a / 10, b / 10, w - 1);
      LexCat(Pad(a / 10, w - 1), [DigitChar(a % 10)], Pad(b / 10, w - 1), [DigitChar(b % 10)]);
      PadValue(a, w);
      PadValue(b, w);
      assert Pad(a, w) == Pad(b, w) ==> DigitsValue(Pad(a, w)) == DigitsValue(Pad(b, w));
    }
  }

  /** A string whose first and last characters are not white space is
      its own stripped form. */
  lemma StripNoSpace(s: string)
    requires |s| > 0 && !IsSpace(s[0]) && !IsSpace(s[|s| - 1])
    ensures Strip(s) == s
  {
  }

  /** Python `str(n)` on an int. */
  function IntToStr(n: int): string {
    if n < 0 then "-" + Pad(-n, NumDigits(-n)) else Pad(n, NumDigits(n))
  }

  /** `int(str(n)) == n`, and `str(n)` is all digits exactly for `n >= 0`. */
  lemma IntToStrParses(n: int)
    ensures ParseInt(IntToStr(n)) == Ok(n)
    ensures |IntToStr(n)| >= 1 && (n >= 0 <==> AllDigits(IntToStr(n)))
  {
    if n < 0 {
      PadWide(-n, NumDigits(-n));
      ParseNegative(Pad(-n, NumDigits(-n)));
    } else {
      PadWide(n, NumDigits(n));
    }
  }

  /** `str(n)` holds digits and at most a minus sign. */
  lemma IntToStrAvoids(n: int, c: char)
    requires !IsDigit(c) && c != '-'
    ensures c !in IntToStr(n)
  {
    var s := IntToStr(n);
    if n < 0 {
      var d := Pad(-n, NumDigits(-n));
      assert s == "-" + d;
      assert forall i :: 1 <= i < |s| ==> s[i] == d[i - 1];
    }
  }

  /** Python `'{:0wd}'.format(n)`: zero-filled to width `w`, the sign
      counting toward the width; a wider number is never cut. */
  function FormatD(n: int, w: nat): string {
    if n >= 0 then Pad(n, Max(w, NumDigits(n))) else "-" + Pad(-n, Max(w - 1, NumDigits(-n)))
  }

  /** `'{:0wd}'` reads back as the same int, is exactly as wide as `w` or
      `str(n)`, whichever is wider, and is all digits for a non-negative `n`. */
  lemma FormatDFacts(n: int, w: nat)
    ensures ParseInt(FormatD(n, w)) == Ok(n)
    ensures |FormatD(n, w)| == Max(w, |IntToStr(n)|)
    ensures n >= 0 ==> AllDigits(FormatD(n, w))
  {
    IntToStrLength(n);
    if n >= 0 {
      FormatDNonNegative(n, w);
      var k := Max(w, NumDigits(n));
      assert |Pad(n, k)| == k;
    } else {
      FormatDNegative(n, w);
      var k := Max(w - 1, NumDigits(-n));
      assert |Pad(-n, k)| == k;
      assert |FormatD(n, w)| == 1 + k;
    }
  }

  lemma FormatDNonNegative(n: int, w: nat)
    requires n >= 0
    ensures ParseInt(FormatD(n, w)) == Ok(n)
  {
    PadWide(n, Max(w, NumDigits(n)));
  }

  lemma FormatDNegative(n: int, w: nat)
    requires n < 0
    ensures ParseInt(FormatD(n, w)) == Ok(n)
  {
    var d := Pad(-n, Max(w - 1, NumDigits(-n)));
    PadWide(-n, Max(w - 1, NumDigits(-n)));
    ParseNegative(d);
  }

  /** `'{:0wd}'` writes only digits and a minus sign. */
  lemma FormatDChars(n: int, w: nat)
    ensures forall i :: 0 <= i < |FormatD(n, w)| ==> IsDigit(FormatD(n, w)[i]) || FormatD(n, w)[i] == '-'
  {
    if n < 0 {
      var d := Pad(-n, Max(w - 1, NumDigits(-n)));
      assert FormatD(n, w) == "-" + d;
      assert forall i :: 1 <= i < |FormatD(n, w)| ==> FormatD(n, w)[i] == d[i - 1];
    }
  }

  /** A non-negative number with at most `w` digits is zero-filled to
      exactly `w` places. */
  lemma FormatDFits(n: nat, w: nat)
    requires w >= 1 && n < Pow10(w)
    ensures FormatD(n, w) == Pad(n, w)
  {
    NumDigitsAtMost(n, w);
  }

  lemma IntToStrLength(n: int)
    ensures |IntToStr(n)| == if n < 0 then 1 + NumDigits(-n) else NumDigits(n)
  {
  }

  function LStrip(s: string): (t: string)
    decreases |s|
  {
    if |s| > 0 && IsSpace(s[0]) then LStrip(s[1..]) else s
  }

  function RStrip(s: string): (t: string)
    decreases |s|
  {
    if |s| > 0 && IsSpace(s[|s| - 1]) then RStrip(s[..|s| - 1]) else s
  }

  function Strip(s: string): string {
    RStrip(LStrip(s))
  }

  /** Python 2 `int(s)` on a string: optional surrounding white space, an
      optional sign, then one or more decimal digits; anything else raises
      ValueError. */
  function ParseInt(s: string): (r: Result<int>)
    ensures AllDigits(s) ==> r == (if |s| == 0 then Err(ValueError) else Ok(DigitsValue(s)))
  {
    StripDigits(s);
    ParseStripped(Strip(s))
  }

  /** A non-empty run of digits reads as its decimal value. */
  lemma ParseDigits(s: string)
    requires |s| > 0 && AllDigits(s)
    ensures ParseInt(s) == Ok(DigitsValue(s))
  {
  }

  /** A string without a single digit is never a number. */
  lemma ParseNeedsDigit(s: string)
    requires forall i :: 0 <= i < |s| ==> !IsDigit(s[i])
    ensures ParseInt(s) == Err(ValueError)
  {
    StripSubstring(s);
  }

  /** A string ending in a letter is not a number. */
  lemma ParseTrailingNonDigit(s: string)
    requires |s| > 0 && !IsDigit(s[|s| - 1]) && !IsSpace(s[|s| - 1])
    ensures ParseInt(s) == Err(ValueError)
  {
    var t := LStrip(s);
    LStripEnd(s);
    assert Strip(s) == t;
    assert !IsDigit(t[|t| - 1]);
    assert !AllDigits(t);
    if |t| >= 2 {
      var u := LStrip(t[1..]);
      LStripEnd(t[1..]);
      assert u[|u| - 1] == t[|t| - 1];
    }
  }

  lemma LStripEnd(s: string)
    requires |s| > 0 && !IsSpace(s[|s| - 1])
    ensures |LStrip(s)| > 0 && LStrip(s)[|LStrip(s)| - 1] == s[|s| - 1]
  {
  }

  /** The signed decimal number that remains once white space is stripped:
      digits, or a sign, optional white space and digits (the sign is read
      before the digits, which skip white space again). */
  function ParseStripped(t: string): (r: Result<int>)
    ensures AllDigits(t) ==> r == (if |t| == 0 then Err(ValueError) else Ok(DigitsValue(t)))
    ensures (forall i :: 0 <= i < |t| ==> !IsDigit(t[i])) ==> r == Err(ValueError)
  {
    if |t| >= 1 && (t[0] == '-' || t[0] == '+') then
      var u := LStrip(t[1..]);
      LStripSuffix(t[1..]);
      assert |u| >= 1 ==> u[0] == t[|t| - |u|];
      if |u| >= 1 && AllDigits(u) then
        Ok(if t[0] == '-' then -(DigitsValue(u) as int) else DigitsValue(u))
      else
        Err(ValueError)
    else if |t| >= 1 && AllDigits(t) then
      Ok(DigitsValue(t))
    else
      Err(ValueError)
  }

  predicate AllSpace(s: string) {
    forall i :: 0 <= i < |s| ==> IsSpace(s[i])
  }

  /** The value of digits `d` behind an optional sign. */
  function Signed(sign: string, d: string): int
    requires AllDigits(d)
  {
    if sign == "-" then -(DigitsValue(d) as int) else DigitsValue(d)
  }

  /** White space, an optional sign, white space after a sign, one or more
      digits and white space read as the signed digits. */
  lemma ParseForm(a: string, sign: string, b: string, d: string, e: string)
    requires AllSpace(a) && AllSpace(b) && AllSpace(e)
    requires sign == "" || sign == "-" || sign == "+"
    requires sign == "" ==> b == ""
    requires |d| > 0 && AllDigits(d)
    ensures ParseInt(a + sign + b + d + e) == Ok(Signed(sign, d))
  {
    var t := sign + b + d;
    assert a + sign + b + d + e == a + t + e;
    assert t[|t| - 1] == d[|d| - 1] && IsDigit(d[|d| - 1]);
    assert t[0] == (if sign == "" then d[0] else sign[0]) && IsDigit(d[0]);
    LStripSpaces(a, t + e);
    assert (a + t) + e == a + (t + e);
    RStripSpaces(t, e);
    assert Strip(a + t + e) == t;
    if sign != "" {
      assert t[1..] == b + d;
      LStripSpaces(b, d);
    } else {
      assert t == d;
    }
  }

  /** Every string `int()` accepts has that form. */
  lemma ParseOkForm(s: string) returns (a: string, sign: string, b: string, d: string, e: string)
    requires ParseInt(s).Ok?
    ensures s == a + sign + b + d + e
    ensures AllSpace(a) && AllSpace(b) && AllSpace(e)
    ensures sign == "" || sign == "-" || sign == "+"
    ensures sign == "" ==> b == ""
    ensures |d| > 0 && AllDigits(d)
    ensures ParseInt(s) == Ok(Signed(sign, d))
  {
    var t;
    a, t, e := StripCut(s);
    sign, b, d := SignCut(t);
    CatFive(a, sign, b, d, e);
  }

  lemma CatFive(a: string, sign: string, b: string, d: string, e: string)
    ensures a + (sign + b + d) + e == a + sign + b + d + e
  {
  }

  /** A string is its stripped text between two runs of white space. */
  lemma StripCut(s: string) returns (a: string, t: string, e: string)
    ensures s == a + t + e && t == Strip(s) && AllSpace(a) && AllSpace(e)
  {
    var l := LStrip(s);
    LStripParts(s);
    t := RStrip(l);
    RStripParts(l);
    a, e := s[..|s| - |l|], l[|t|..];
    assert l == t + e;
  }

  /** A stripped text `int()` accepts is an optional sign, white space
      after a sign, and digits. */
  lemma SignCut(t: string) returns (sign: string, b: string, d: string)
    requires ParseStripped(t).Ok?
    ensures t == sign + b + d && AllSpace(b)
    ensures sign == "" || sign == "-" || sign == "+"
    ensures sign == "" ==> b == ""
    ensures |d| > 0 && AllDigits(d)
    ensures ParseStripped(t) == Ok(Signed(sign, d))
  {
    if t[0] == '-' || t[0] == '+' {
      b, d := AfterSign(t[1..]);
      sign := if t[0] == '-' then "-" else "+";
      assert t == [t[0]] + t[1..];
    } else {
      sign, b, d := "", "", t;
    }
  }

  /** The text after a sign is the white space `LStrip` removes, then the
      rest. */
  lemma AfterSign(v: string) returns (b: string, d: string)
    ensures v == b + d && AllSpace(b) && d == LStrip(v)
  {
    LStripParts(v);
    b, d := v[..|v| - |LStrip(v)|], LStrip(v);
    assert v == b + d;
  }

  /** `int()` ignores surrounding white space. */
  lemma ParseStrips(s: string)
    ensures ParseInt(Strip(s)) == ParseInt(s)
  {
    var l := LStrip(s);
    LStripParts(s);
    var t := RStrip(l);
    RStripParts(l);
    if |t| > 0 {
      assert t[0] == l[0];
    }
    LStripSpaces("", t);
    assert "" + t == t;
    RStripSpaces(t, "");
    assert t + "" == t;
  }

  /** Leading white space in front of a non-space is stripped. */
  lemma {:induction false} LStripSpaces(a: string, x: string)
    requires AllSpace(a) && (|x| == 0 || !IsSpace(x[0]))
    ensures LStrip(a + x) == x
    decreases |a|
  {
    if |a| > 0 {
      assert (a + x)[1..] == a[1..] + x;
      LStripSpaces(a[1..], x);
    } else {
      assert a + x == x;
    }
  }

  /** Trailing white space behind a non-space is stripped. */
  lemma {:induction false} RStripSpaces(x: string, e: string)
    requires AllSpace(e) && (|x| == 0 || !IsSpace(x[|x| - 1]))
    ensures RStrip(x + e) == x
    decreases |e|
  {
    if |e| > 0 {
      assert (x + e)[..|x + e| - 1] == x + e[..|e| - 1];
      RStripSpaces(x, e[..|e| - 1]);
    } else {
      assert x + e == x;
    }
  }

  /** `LStrip` removes a run of white space and stops at a non-space. */
  lemma {:induction false} LStripParts(s: string)
    ensures |LStrip(s)| <= |s| && LStrip(s) == s[|s| - |LStrip(s)|..]
    ensures AllSpace(s[..|s| - |LStrip(s)|])
    ensures |LStrip(s)| > 0 ==> !IsSpace(LStrip(s)[0])
    decreases |s|
  {
    if |s| > 0 && IsSpace(s[0]) {
      LStripParts(s[1..]);
      var k := |s| - |LStrip(s)|;
      assert s[..k] == [s[0]] + s[1..][..k - 1];
    }
  }

  /** `RStrip` removes a run of white space and stops at a non-space. */
  lemma {:induction false} RStripParts(s: string)
    ensures |RStrip(s)| <= |s| && RStrip(s) == s[..|RStrip(s)|]
    ensures AllSpace(s[|RStrip(s)|..])
    ensures |RStrip(s)| > 0 ==> !IsSpace(RStrip(s)[|RStrip(s)| - 1])
    decreases |s|
  {
    if |s| > 0 && IsSpace(s[|s| - 1]) {
      var init := s[..|s| - 1];
      RStripParts(init);
      var k := |RStrip(s)|;
      assert s[k..] == init[k..] + [s[|s| - 1]];
    }
  }

  /** A minus sign followed by digits reads as the negated value. */
  lemma ParseNegative(d: string)
    requires |d| >= 1 && AllDigits(d)
    ensures ParseInt("-" + d) == Ok(-(DigitsValue(d) as int))
  {
    var s := "-" + d;
    assert Strip(s) == s by {
      assert s[0] == '-' && s[|s| - 1] == d[|d| - 1] && IsDigit(d[|d| - 1]);
      StripNoSpace(s);
    }
    assert s[1..] == d;
    ParseMinus(s, d);
    assert ParseInt(s) == ParseStripped(s);
  }

  lemma ParseMinus(t: string, d: string)
    requires |t| >= 2 && t[0] == '-' && t[1..] == d && AllDigits(d)
    ensures ParseStripped(t) == Ok(-(DigitsValue(d) as int))
  {
  }

  lemma StripDigits(s: string)
    ensures AllDigits(s) ==> Strip(s) == s
  {
  }

  /** Every character Strip keeps comes from its argument. */
  lemma {:induction false} StripSubstring(s: string)
    ensures forall i :: 0 <= i < |Strip(s)| ==> Strip(s)[i] in s
  {
    LStripSuffix(s);
    RStripPrefix(LStrip(s));
  }

  lemma {:induction false} LStripSuffix(s: string)
    ensures |LStrip(s)| <= |s| && LStrip(s) == s[|s| - |LStrip(s)|..]
    decreases |s|
  {
    if |s| > 0 && IsSpace(s[0]) {
      LStripSuffix(s[1..]);
    }
  }

  lemma {:induction false} RStripPrefix(s: string)
    ensures |RStrip(s)| <= |s| && RStrip(s) == s[..|RStrip(s)|]
    decreases |s|
  {
    if |s| > 0 && IsSpace(s[|s| - 1]) {
      RStripPrefix(s[..|s| - 1]);
    }
  }

  /** Python `c.join(ps)`. */
  function JoinWith(ps: seq<string>, c: char): string
    requires |ps| >= 1
  {
    if |ps| == 1 then ps[0] else ps[0] + [c] + JoinWith(ps[1..], c)
  }

  /** Python `s.split(c)`: the pieces between the separators, which joined
      again with `c` give back `s`. */
  function Split(s: string, c: char): (r: seq<string>)
    ensures |r| >= 1
    ensures forall i :: 0 <= i < |r| ==> c !in r[i]
    ensures JoinWith(r, c) == s
    decreases |s|
  {
    if |s| == 0 then [""]
    else
      var rest := Split(s[1..], c);
      if s[0] == c then
        var r := [""] + rest;
        assert r[1..] == rest;
        assert JoinWith(r, c) == [c] + s[1..];
        r
      else
        var r := [[s[0]] + rest[0]] + rest[1..];
        assert |rest| > 1 ==> r[1..] == rest[1..] && JoinWith(rest, c) == rest[0] + [c] + JoinWith(rest[1..], c);
        assert JoinWith(r, c) == [s[0]] + JoinWith(rest, c);
        r
  }

  /** Splitting a separator-free piece followed by the separator. */
  lemma {:induction false} SplitCons(a: string, b: string, c: char)
    requires c !in a
    ensures Split(a + [c] + b, c) == [a] + Split(b, c)
    decreases |a|
  {
    if |a| == 0 {
      assert a + [c] + b == [c] + b;
      assert ([c] + b)[1..] == b;
    } else {
      assert (a + [c] + b)[1..] == a[1..] + [c] + b;
      SplitCons(a[1..], b, c);
      assert [a[0]] + a[1..] == a;
    }
  }

  /** Splitting at a separator splits the two sides independently. */
  lemma {:induction false} SplitJoin(a: string, b: string, c: char)
    ensures Split(a + [c] + b, c) == Split(a, c) + Split(b, c)
    decreases |a|
  {
    var x := a + [c] + b;
    if |a| == 0 {
      assert x[0] == c && x[1..] == b;
    } else {
      assert x[0] == a[0] && x[1..] == a[1..] + [c] + b;
      SplitJoin(a[1..], b, c);
      var r, t := Split(a[1..], c), Split(b, c);
      assert Split(x[1..], c) == r + t;
      if a[0] == c {
        assert Split(x, c) == [""] + (r + t);
        assert Split(a, c) == [""] + r;
        CatAssoc([""], r, t);
      } else {
        assert Split(x, c) == [[a[0]] + (r + t)[0]] + (r + t)[1..];
        assert Split(a, c) == [[a[0]] + r[0]] + r[1..];
        assert (r + t)[0] == r[0] && (r + t)[1..] == r[1..] + t;
        CatAssoc([[a[0]] + r[0]], r[1..], t);
      }
    }
  }

  lemma CatAssoc<T>(a: seq<T>, b: seq<T>, c: seq<T>)
    ensures (a + b) + c == a + (b + c)
  {
  }

  /** A separator-free string splits into itself. */
  lemma {:induction false} SplitNone(a: string, c: char)
    requires c !in a
    ensures Split(a, c) == [a]
    decreases |a|
  {
    if |a| > 0 {
      SplitNone(a[1..], c);
      assert [a[0]] + a[1..] == a;
    }
  }

  /** Index of the last `c` in `s`, or -1. */
  function LastIndex(s: string, c: char): (k: int)
    ensures -1 <= k < |s|
    ensures k >= 0 ==> s[k] == c
    ensures forall j :: k < j < |s| ==> s[j] != c
    decreases |s|
  {
    if |s| == 0 then -1
    else if s[|s| - 1] == c then |s| - 1
    else LastIndex(s[..|s| - 1], c)
  }

  /** Python `s.rsplit(c, 1)`: without a `c` the whole string; otherwise
      the text before and after the last `c`. */
  function RSplit1(s: string, c: char): (r: seq<string>)
    ensures c !in s ==> r == [s]
    ensures c in s ==> |r| == 2 && r[0] + [c] + r[1] == s && c !in r[1]
  {
    var k := LastIndex(s, c);
    if k < 0 then
      [s]
    else
      assert s[..k] + [c] + s[k + 1..] == s;
      [s[..k], s[k + 1..]]
  }

  /** `rsplit(c, 1)` cuts at the `c` that has no `c` after it. */
  lemma RSplitCat(a: string, b: string, c: char)
    requires c !in b
    ensures RSplit1(a + [c] + b, c) == [a, b]
  {
    var s := a + [c] + b;
    assert s[|a|] == c;
    var k := LastIndex(s, c);
    forall j | |a| < j < |s|
      ensures s[j] != c
    {
      assert s[j] == b[j - |a| - 1];
    }
    assert k == |a|;
    assert s[..k] == a && s[k + 1..] == b;
  }

  /** Index of the last non-digit character of `s`, or -1 when `s` holds
      digits only. */
  function LastNonDigitIndex(s: string): (k: int)
    ensures -1 <= k < |s|
    ensures k >= 0 ==> !IsDigit(s[k])
    ensures AllDigits(s[k + 1..])
    decreases |s|
  {
    if |s| == 0 then -1
    else if !IsDigit(s[|s| - 1]) then |s| - 1
    else
      var k := LastNonDigitIndex(s[..|s| - 1]);
      DigitsSnoc(s[..|s| - 1][k + 1..], s[|s| - 1]);
      assert s[k + 1..] == s[..|s| - 1][k + 1..] + [s[|s| - 1]];
      k
  }

  lemma DigitsSnoc(a: string, c: char)
    requires AllDigits(a) && IsDigit(c)
    ensures AllDigits(a + [c])
  {
    assert forall i :: 0 <= i < |a| ==> (a + [c])[i] == a[i];
  }

  /** Python `s.rstrip(c)`: `s` without its trailing run of `c`. */
  function RStripChar(s: string, c: char): (r: string)
    ensures |r| <= |s| && r == s[..|r|]
    ensures |r| == 0 || r[|r| - 1] != c
    ensures forall j :: |r| <= j < |s| ==> s[j] == c
    decreases |s|
  {
    if |s| > 0 && s[|s| - 1] == c then RStripChar(s[..|s| - 1], c) else s
  }

  /** The last non-digit is the one followed by digits only. */
  lemma {:induction false} LastNonDigitAt(p: string, c: char, d: string)
    requires !IsDigit(c) && AllDigits(d)
    ensures LastNonDigitIndex(p + [c] + d) == |p|
    decreases |d|
  {
    var s := p + [c] + d;
    if |d| == 0 {
      assert s[|s| - 1] == c;
    } else {
      assert s[..|s| - 1] == p + [c] + d[..|d| - 1];
      assert s[|s| - 1] == d[|d| - 1];
      LastNonDigitAt(p, c, d[..|d| - 1]);
    }
  }

  /** Python 2 `a <= b` on strings: lexicographic by character code, a
      proper prefix coming first. */
  predicate LexLe(a: string, b: string)
    decreases |a|
  {
    |a| == 0 || (|b| > 0 && (a[0] < b[0] || (a[0] == b[0] && LexLe(a[1..], b[1..]))))
  }

  /** Python 2 `a < b` on strings. */
  predicate LexLt(a: string, b: string) {
    LexLe(a, b) && a != b
  }

  lemma {:induction false} LexRefl(a: string)
    ensures LexLe(a, a)
    decreases |a|
  {
    if |a| > 0 {
      LexRefl(a[1..]);
    }
  }

  lemma {:induction false} LexTotal(a: string, b: string)
    ensures LexLe(a, b) || LexLe(b, a)
    decreases |a|
  {
    if |a| > 0 && |b| > 0 && a[0] == b[0] {
      LexTotal(a[1..], b[1..]);
    }
  }

  lemma {:induction false} LexAntisym(a: string, b: string)
    requires LexLe(a, b) && LexLe(b, a)
    ensures a == b
    decreases |a|
  {
    if |a| > 0 {
      LexAntisym(a[1..], b[1..]);
      assert a == [a[0]] + a[1..] && b == [b[0]] + b[1..];
    }
  }

  lemma {:induction false} LexTrans(a: string, b: string, c: string)
    requires LexLe(a, b) && LexLe(b, c)
    ensures LexLe(a, c)
    decreases |a|
  {
    if |a| > 0 && a[0] == b[0] && b[0] == c[0] {
      LexTrans(a[1..], b[1..], c[1..]);
    }
  }

  /** `not (a <= b)` means `b < a`. */
  lemma LexNotLe(a: string, b: string)
    requires !LexLe(a, b)
    ensures LexLt(b, a)
  {
    LexTotal(a, b);
  }

  /** Python `max(a, b)` on strings: the later one in string order, `a` on a tie. */
  function StrMax(a: string, b: string): (m: string)
    ensures m == a || m == b
    ensures LexLe(a, m) && LexLe(b, m)
  {
    LexRefl(a);
    LexRefl(b);
    LexTotal(a, b);
    if LexLt(a, b) then b else a
  }

  /** Comparing two strings whose first parts have equal length: the first
      parts decide unless they are equal. */
  lemma {:induction false} LexCat(a1: string, a2: string, b1: string, b2: string)
    requires |a1| == |b1|
    ensures LexLe(a1 + a2, b1 + b2) <==> LexLt(a1, b1) || (a1 == b1 && LexLe(a2, b2))
    decreases |a1|
  {
    if |a1| > 0 {
      assert (a1 + a2)[1..] == a1[1..] + a2;
      assert (b1 + b2)[1..] == b1[1..] + b2;
      LexCat(a1[1..], a2, b1[1..], b2);
      assert a1 == [a1[0]] + a1[1..] && b1 == [b1[0]] + b1[1..];
    } else {
      assert a1 + a2 == a2 && b1 + b2 == b2;
    }
  }

  /** Two strings built as `y + sep + d` around equal-length `y`s compare
      on `y` first and on `d` after a tie. */
  lemma LexJoin(y1: string, sep: string, d1: string, y2: string, d2: string)
    requires |y1| == |y2|
    ensures LexLe(y1 + sep + d1, y2 + sep + d2) <==> LexLt(y1, y2) || (y1 == y2 && LexLe(d1, d2))
    ensures LexLt(y1 + sep + d1, y2 + sep + d2) <==> LexLt(y1, y2) || (y1 == y2 && LexLt(d1, d2))
    ensures y1 + sep + d1 == y2 + sep + d2 <==> y1 == y2 && d1 == d2
  {
    assert y1 + sep + d1 == y1 + (sep + d1);
    assert y2 + sep + d2 == y2 + (sep + d2);
    LexCat(y1, sep + d1, y2, sep + d2);
    LexCat(sep, d1, sep, d2);
    if y1 != y2 {
      assert (y1 + sep + d1)[..|y1|] == y1;
      assert (y2 + sep + d2)[..|y2|] == y2;
    }
    if y1 == y2 && d1 != d2 {
      assert (y1 + sep + d1)[|y1 + sep|..] == d1;
      assert (y2 + sep + d2)[|y2 + sep|..] == d2;
    }
  }

  /** The first position where two strings differ decides their order. */
  lemma {:induction false} LexFirstDiff(a: string, b: string, k: nat)
    requires k < |a| && k < |b| && a[..k] == b[..k] && a[k] < b[k]
    ensures LexLt(a, b)
  {
    if k > 0 {
      assert a[0] == a[..k][0] == b[..k][0] == b[0];
      assert a[1..][..k - 1] == a[..k][1..] == b[..k][1..] == b[1..][..k - 1];
      LexFirstDiff(a[1..], b[1..], k - 1);
    }
    assert a[k] != b[k];
  }
}
