/** `parse_age_group` (src/parser.py): an age-bucket label such as "0 - 4",
    "85 и более" or "100+" becomes an inclusive interval of ages.

    The source tries three regular expressions with `re.match` on the
    stripped label, in a fixed order. Each is written here twice: as a
    hand-written matcher that scans the label with greedy runs (`Match...`),
    and as the regex's meaning, "the label splits into these pieces"
    (`...Split`, `...Matches`). The lemmas prove the two agree, and
    `ParseAgeGroupRecognizes` states the whole function in terms of the
    splits and their precedence. */
module AgeGroups {
  import opened Options
  import opened Text

  /** The upper bound every open-ended bucket ("85 и более") gets. */
  const OpenEndedUpper: nat := 120

  /** An inclusive interval of ages. Nothing forces `lower <= upper`: a
      range label is read in textual order. */
  datatype Interval = Interval(lower: nat, upper: nat)

  /** The regex comparison of `re.IGNORECASE`: `s` begins with `w`, letter
      case aside. */
  predicate StartsWithIgnoreCase(s: string, w: string) {
    |w| <= |s| && Lower(s[..|w|]) == Lower(w)
  }

  /** The alternation `(и более|и старше|\+)` matches at the start of `s`. */
  predicate OlderWordAt(s: string) {
    || StartsWithIgnoreCase(s, "и более")
    || StartsWithIgnoreCase(s, "и старше")
    || StartsWithIgnoreCase(s, "+")
  }

  /** The dash class `[-–—]`: hyphen, en dash, em dash. */
  predicate IsDash(c: char) {
    c == '-' || c == '\U{2013}' || c == '\U{2014}'
  }

  /** The tail `(лет?)?` accepts: nothing, "ле" or "лет" (case matters). */
  predicate YearsWordTail(s: string) {
    s == "" || s == "ле" || s == "лет"
  }

  /** Python's `$` without MULTILINE: the end of the string, or just before
      a final newline. */
  predicate EndAnchor(s: string) {
    s == "" || s == "\n"
  }

  // ---------------------------------------------------------------------
  // The three patterns as the splits a regex match stands for
  // ---------------------------------------------------------------------

  /** `(\d+)\s*(и более|и старше|\+)` matches a prefix of `t`, with digits
      `t[..i]` and whitespace `t[i..j]`. */
  ghost predicate OpenEndedSplit(t: string, i: int, j: int) {
    && 0 < i <= j <= |t|
    && All(t[..i], Digit)
    && All(t[i..j], Space)
    && OlderWordAt(t[j..])
  }

  ghost predicate OpenEndedMatches(t: string, n: nat) {
    exists i, j :: OpenEndedSplit(t, i, j) && n == Value(t[..i])
  }

  /** `(\d+)\s*[-–—]\s*(\d+)` matches a prefix of `t`: digits `t[..i]`,
      whitespace `t[i..j]`, the dash `t[j]`, whitespace `t[j+1..k]` and the
      second number `t[k..m]`, which the greedy `\d+` extends over every
      digit that follows. */
  ghost predicate RangeSplit(t: string, i: int, j: int, k: int, m: int) {
    && 0 < i <= j && j + 1 <= k < m <= |t|
    && All(t[..i], Digit)
    && All(t[i..j], Space)
    && IsDash(t[j])
    && All(t[j + 1..k], Space)
    && All(t[k..m], Digit)
    && (m == |t| || !IsDigit(t[m]))
  }

  ghost predicate RangeMatches(t: string, a: nat, b: nat) {
    exists i, j, k, m :: RangeSplit(t, i, j, k, m) && a == Value(t[..i]) && b == Value(t[k..m])
  }

  /** `(\d+)\s*(лет?)?$` matches `t`: digits `t[..i]`, whitespace `t[i..j]`,
      the optional word `t[j..e]`, then the end anchor. */
  ghost predicate SingleSplit(t: string, i: int, j: int, e: int) {
    && 0 < i <= j <= e <= |t|
    && All(t[..i], Digit)
    && All(t[i..j], Space)
    && YearsWordTail(t[j..e])
    && EndAnchor(t[e..])
  }

  ghost predicate SingleMatches(t: string, n: nat) {
    exists i, j, e :: SingleSplit(t, i, j, e) && n == Value(t[..i])
  }

  // ---------------------------------------------------------------------
  // The matchers
  // ---------------------------------------------------------------------

  /** Lines 21-26: the open-ended pattern; the result is the leading number. */
  function MatchOpenEnded(t: string): Option<nat> {
    var i := Skip(t, 0, Digit);
    var j := Skip(t, i, Space);
    if 0 < i && OlderWordAt(t[j..]) then Some(Value(t[..i])) else None
  }

  /** Lines 29-34: the range pattern; both numbers in textual order. */
  function MatchRange(t: string): Option<Interval> {
    var i := Skip(t, 0, Digit);
    var j := Skip(t, i, Space);
    if i == 0 || j == |t| || !IsDash(t[j]) then None
    else
      var k := Skip(t, j + 1, Space);
      var m := Skip(t, k, Digit);
      if m == k then None
      else Some(Interval(Value(t[..i]), Value(t[k..m])))
  }

  /** Lines 37-41: the single-age pattern, anchored at the end. */
  function MatchSingle(t: string): Option<nat> {
    var i := Skip(t, 0, Digit);
    var j := Skip(t, i, Space);
    if 0 < i && YearsWordTail(t[j..]) then Some(Value(t[..i])) else None
  }

  /** `parse_age_group` on a string: strip, then the three patterns in
      order; the first that matches decides. It is total: every string
      gives an interval or `None`. */
  function ParseAgeGroup(s: string): Option<Interval> {
    var t := Strip(s);
    match MatchOpenEnded(t)
    case Some(n) => Some(Interval(n, OpenEndedUpper))
    case None =>
      match MatchRange(t)
      case Some(iv) => Some(iv)
      case None =>
        match MatchSingle(t)
        case Some(n) => Some(Interval(n, n))
        case None => None
  }

  /** The argument of `parse_age_group` as a Python value: `None` stands for
      anything that is not a `str`, which lines 14-16 turn away. */
  function ParseAgeGroupValue(v: Option<string>): Option<Interval> {
    match v
    case None => None
    case Some(s) => ParseAgeGroup(s)
  }

  // ---------------------------------------------------------------------
  // Matchers agree with the splits
  // ---------------------------------------------------------------------

  /** A character the open-ended word can start with is neither a digit nor
      whitespace, so it ends both greedy runs before it. */
  lemma OlderWordHead(s: string)
    requires OlderWordAt(s)
    ensures |s| > 0 && !IsDigit(s[0]) && !IsSpace(s[0])
    ensures LowerChar(s[0]) == 'и' || s[0] == '+'
  {
    var w := if StartsWithIgnoreCase(s, "и более") then "и более"
             else if StartsWithIgnoreCase(s, "и старше") then "и старше"
             else "+";
    LowerAt(s[..|w|], 0);
    LowerAt(w, 0);
    NotSpace(s[0]);
  }

  /** When `t[..i]` is digits and `t[i..j]` whitespace followed by a
      character of neither class, the greedy runs stop exactly at `i` and
      `j`. */
  lemma RunsStopAt(t: string, i: int, j: int)
    requires 0 <= i <= j <= |t|
    requires All(t[..i], Digit) && All(t[i..j], Space)
    requires j < |t| ==> !IsSpace(t[j])
    requires i < |t| ==> !IsDigit(t[i])
    ensures Skip(t, 0, Digit) == i
    ensures Skip(t, i, Space) == j
  {
    SkipUnique(t, 0, Digit, i);
    SkipUnique(t, i, Space, j);
  }

  lemma {:induction false} OpenEndedCorrect(t: string, n: nat)
    ensures MatchOpenEnded(t) == Some(n) <==> OpenEndedMatches(t, n)
  {
    var i := Skip(t, 0, Digit);
    var j := Skip(t, i, Space);
    if MatchOpenEnded(t) == Some(n) {
      assert OpenEndedSplit(t, i, j);
    }
    if OpenEndedMatches(t, n) {
      var i', j' :| OpenEndedSplit(t, i', j') && n == Value(t[..i']);
      OlderWordHead(t[j'..]);
      assert t[j'..][0] == t[j'];
      if i' < j' {
        assert t[i'..j'][0] == t[i'];
        SpaceIsNotDigit(t[i']);
      }
      RunsStopAt(t, i', j');
    }
  }

  /** Every range match the matcher reports is a split of the label. */
  lemma RangeSound(t: string)
    requires MatchRange(t).Some?
    ensures RangeMatches(t, MatchRange(t).value.lower, MatchRange(t).value.upper)
  {
    var i := Skip(t, 0, Digit);
    var j := Skip(t, i, Space);
    var k := Skip(t, j + 1, Space);
    var m := Skip(t, k, Digit);
    assert RangeSplit(t, i, j, k, m);
  }

  /** Every split of the label is the one the matcher finds. */
  lemma RangeComplete(t: string, i: int, j: int, k: int, m: int)
    requires RangeSplit(t, i, j, k, m)
    ensures MatchRange(t) == Some(Interval(Value(t[..i]), Value(t[k..m])))
  {
    if i < j {
      assert t[i..j][0] == t[i];
      SpaceIsNotDigit(t[i]);
    }
    NotSpace(t[j]);
    RunsStopAt(t, i, j);
    assert t[k..m][0] == t[k];
    NotSpace(t[k]);
    SkipUnique(t, j + 1, Space, k);
    SkipUnique(t, k, Digit, m);
  }

  lemma {:induction false} RangeCorrect(t: string, a: nat, b: nat)
    ensures MatchRange(t) == Some(Interval(a, b)) <==> RangeMatches(t, a, b)
  {
    if MatchRange(t) == Some(Interval(a, b)) {
      RangeSound(t);
    }
    if RangeMatches(t, a, b) {
      var i, j, k, m :| RangeSplit(t, i, j, k, m) && a == Value(t[..i]) && b == Value(t[k..m]);
      RangeComplete(t, i, j, k, m);
    }
  }

  lemma SingleSound(t: string)
    requires MatchSingle(t).Some?
    ensures SingleMatches(t, MatchSingle(t).value)
  {
    var i := Skip(t, 0, Digit);
    var j := Skip(t, i, Space);
    assert t[j..|t|] == t[j..];
    assert SingleSplit(t, i, j, |t|);
  }

  /** On a stripped label the end anchor can only be the real end: a final
      newline would have been stripped. */
  lemma SingleComplete(t: string, i: int, j: int, e: int)
    requires IsStripped(t)
    requires SingleSplit(t, i, j, e)
    ensures MatchSingle(t) == Some(Value(t[..i]))
  {
    AsciiSpace('\n');
    assert e == |t|;
    assert t[j..] == t[j..e];
    if j < |t| {
      assert t[j] == t[j..][0];
      NotSpace(t[j]);
    }
    if i < j {
      assert t[i..j][0] == t[i];
      SpaceIsNotDigit(t[i]);
    }
    RunsStopAt(t, i, j);
  }

  lemma {:induction false} SingleCorrect(t: string, n: nat)
    requires IsStripped(t)
    ensures MatchSingle(t) == Some(n) <==> SingleMatches(t, n)
  {
    if MatchSingle(t) == Some(n) {
      SingleSound(t);
    }
    if SingleMatches(t, n) {
      var i, j, e :| SingleSplit(t, i, j, e) && n == Value(t[..i]);
      SingleComplete(t, i, j, e);
    }
  }

  // ---------------------------------------------------------------------
  // The whole function
  // ---------------------------------------------------------------------

  /** What `parse_age_group` promises of a stripped label `t`: the first of
      the three patterns that matches decides the interval. */
  ghost predicate Recognizes(t: string, iv: Interval) {
    || (OpenEndedMatches(t, iv.lower) && iv.upper == OpenEndedUpper)
    || ((forall n :: !OpenEndedMatches(t, n)) && RangeMatches(t, iv.lower, iv.upper))
    || (&& (forall n :: !OpenEndedMatches(t, n))
        && (forall a, b :: !RangeMatches(t, a, b))
        && SingleMatches(t, iv.lower) && iv.upper == iv.lower)
  }

  /** `parse_age_group(s)` returns `iv` exactly when the stripped label is
      recognized as `iv`; and so it returns `None` exactly when none of the
      three patterns matches. */
  lemma ParseAgeGroupRecognizes(s: string, iv: Interval)
    ensures ParseAgeGroup(s) == Some(iv) <==> Recognizes(Strip(s), iv)
  {
    var t := Strip(s);
    forall n: nat ensures MatchOpenEnded(t) == Some(n) <==> OpenEndedMatches(t, n) {
      OpenEndedCorrect(t, n);
    }
    forall a: nat, b: nat ensures MatchRange(t) == Some(Interval(a, b)) <==> RangeMatches(t, a, b) {
      RangeCorrect(t, a, b);
    }
    forall n: nat ensures MatchSingle(t) == Some(n) <==> SingleMatches(t, n) {
      SingleCorrect(t, n);
    }
  }

  /** `parse_age_group` on any Python value returns `iv` exactly when the
      value is a string whose stripped text is recognized as `iv`. */
  lemma ParseAgeGroupValueRecognizes(v: Option<string>, iv: Interval)
    ensures ParseAgeGroupValue(v) == Some(iv) <==> v.Some? && Recognizes(Strip(v.value), iv)
  {
    if v.Some? {
      ParseAgeGroupRecognizes(v.value, iv);
    }
  }

  // ---------------------------------------------------------------------
  // Labels built from numbers read back as those numbers
  // ---------------------------------------------------------------------

  /** A decimal number is a stripped label. */
  lemma NumberIsStripped(x: string)
    requires IsDigitString(x)
    ensures !IsSpace(x[0]) && !IsSpace(x[|x| - 1])
  {
    SpaceIsNotDigit(x[0]);
    SpaceIsNotDigit(x[|x| - 1]);
  }

  /** A label that is a range split to its very end has no open-ended
      reading: the word would have to start where the dash is. */
  lemma RangeNotOpenEnded(t: string, i: int, j: int, k: int, m: int)
    requires RangeSplit(t, i, j, k, m)
    ensures MatchOpenEnded(t) == None
  {
    if i < j {
      assert t[i..j][0] == t[i];
      SpaceIsNotDigit(t[i]);
    }
    NotSpace(t[j]);
    RunsStopAt(t, i, j);
    assert t[j..][0] == t[j];
    if OlderWordAt(t[j..]) {
      OlderWordHead(t[j..]);
      assert false;
    }
  }

  /** A label that the range pattern splits to its very end parses as that
      range. */
  lemma WholeRangeParses(t: string, i: int, j: int, k: int, a: nat, b: nat)
    requires RangeSplit(t, i, j, k, |t|)
    requires a == Value(t[..i]) && b == Value(t[k..|t|])
    ensures ParseAgeGroup(t) == Some(Interval(a, b))
  {
    assert t[..i][0] == t[0];
    assert t[k..|t|][|t| - k - 1] == t[|t| - 1];
    SpaceIsNotDigit(t[0]);
    SpaceIsNotDigit(t[|t| - 1]);
    assert t[..0] == [] && t[0..0 + |t|] == t && t[0 + |t|..] == [];
    StripPadded(t, 0, t);
    RangeNotOpenEnded(t, i, j, k, |t|);
    RangeComplete(t, i, j, k, |t|);
  }

  /** The pieces of a range label written out are a split of it. */
  lemma RangeLabelSplit(t: string, x: string, gap1: string, dash: char, gap2: string, y: string)
    requires IsDigitString(x) && All(gap1, Space) && IsDash(dash) && All(gap2, Space) && IsDigitString(y)
    requires t == x + gap1 + [dash] + gap2 + y
    ensures RangeSplit(t, |x|, |x| + |gap1|, |x| + |gap1| + 1 + |gap2|, |t|)
    ensures t[..|x|] == x && t[|x| + |gap1| + 1 + |gap2|..|t|] == y
  {
    var i := |x|;
    var j := i + |gap1|;
    var k := j + 1 + |gap2|;
    assert t[..i] == x && t[i..j] == gap1 && t[j] == dash;
    assert t[j + 1..k] == gap2 && t[k..|t|] == y;
  }

  /** "N1 - N2", with any whitespace around any of the three dashes, gives
      `(N1, N2)` for any two numbers, in the order written; in particular
      "10 - 4" gives the reversed interval `(10, 4)`. */
  lemma RangeLabelRoundTrip(a: nat, b: nat, gap1: string, dash: char, gap2: string)
    requires All(gap1, Space) && IsDash(dash) && All(gap2, Space)
    ensures ParseAgeGroup(NatToString(a) + gap1 + [dash] + gap2 + NatToString(b)) == Some(Interval(a, b))
  {
    var x := NatToString(a);
    var y := NatToString(b);
    var t := x + gap1 + [dash] + gap2 + y;
    RangeLabelSplit(t, x, gap1, dash, gap2, y);
    WholeRangeParses(t, |x|, |x| + |gap1|, |x| + |gap1| + 1 + |gap2|, a, b);
  }

  /** A label the open-ended pattern matches and that does not end in
      whitespace parses as open-ended. */
  lemma WholeOpenEndedParses(t: string, i: int, j: int, n: nat)
    requires OpenEndedSplit(t, i, j) && !IsSpace(t[|t| - 1])
    requires n == Value(t[..i])
    ensures ParseAgeGroup(t) == Some(Interval(n, OpenEndedUpper))
  {
    assert t[..i][0] == t[0];
    SpaceIsNotDigit(t[0]);
    assert t[..0] == [] && t[0..0 + |t|] == t && t[0 + |t|..] == [];
    StripPadded(t, 0, t);
    OpenEndedCorrect(t, n);
  }

  /** "N и более", "N и старше" and "N+", with any whitespace after the
      number, give `(N, 120)` for every number `N`. */
  lemma OpenEndedLabelRoundTrip(a: nat, gap: string, word: string)
    requires All(gap, Space)
    requires word == "и более" || word == "и старше" || word == "+"
    ensures ParseAgeGroup(NatToString(a) + gap + word) == Some(Interval(a, OpenEndedUpper))
  {
    var x := NatToString(a);
    var t := x + gap + word;
    var i := |x|;
    var j := i + |gap|;
    assert t[..i] == x && t[i..j] == gap && t[j..] == word;
    assert t[j..][..|word|] == word;
    NotSpace(word[|word| - 1]);
    assert t[|t| - 1] == word[|word| - 1];
    WholeOpenEndedParses(t, i, j, a);
  }

  /** A bare number "N" gives `(N, N)`. */
  lemma SingleLabelRoundTrip(a: nat)
    ensures ParseAgeGroup(NatToString(a)) == Some(Interval(a, a))
  {
    var t := NatToString(a);
    assert t[..|t|] == t;
    NumberIsStripped(t);
    StripPadded(t, 0, t);
    RunsStopAt(t, |t|, |t|);
  }

  /** All three patterns begin with `\d+`, so a stripped label whose first
      character is not a digit is not an age group. */
  lemma NoLeadingDigitNoAge(t: string)
    requires IsStripped(t) && (|t| > 0 ==> !IsDigit(t[0]))
    ensures ParseAgeGroup(t) == None
  {
    assert t[..0] == [] && t[0..0 + |t|] == t && t[0 + |t|..] == [];
    StripPadded(t, 0, t);
    RunsStopAt(t, 0, 0);
  }

  // The examples of the docstring and of the module's demo list.

  lemma ExampleDocRange()
    ensures ParseAgeGroup("0 - 4") == Some(Interval(0, 4))
  {
    var t := "0 - 4";
    AsciiSpace(' ');
    assert t[..1] == "0" && t[1..2] == " " && t[3..4] == " " && t[4..5] == "4";
    assert Value("0") == 0 && Value("4") == 4;
    WholeRangeParses(t, 1, 2, 4, 0, 4);
  }

  lemma ExampleTightRange()
    ensures ParseAgeGroup("15-19") == Some(Interval(15, 19))
  {
    var t := "15-19";
    assert t[..2] == "15" && t[3..5] == "19";
    assert Value("15") == 15 && Value("19") == 19;
    WholeRangeParses(t, 2, 2, 3, 15, 19);
  }

  lemma ExampleAndMore()
    ensures ParseAgeGroup("85 и более") == Some(Interval(85, 120))
  {
    var t := "85 и более";
    AsciiSpace(' ');
    NotSpace('е');
    assert t[..2] == "85" && t[2..3] == " " && t[3..][..7] == "и более";
    assert Value("85") == 85;
    WholeOpenEndedParses(t, 2, 3, 85);
  }

  lemma ExampleAndOlder()
    ensures ParseAgeGroup("75 и старше") == Some(Interval(75, 120))
  {
    var t := "75 и старше";
    AsciiSpace(' ');
    NotSpace('е');
    assert t[..2] == "75" && t[2..3] == " " && t[3..][..8] == "и старше";
    assert Value("75") == 75;
    WholeOpenEndedParses(t, 2, 3, 75);
  }

  lemma ExamplePlus()
    ensures ParseAgeGroup("100+") == Some(Interval(100, 120))
  {
    var t := "100+";
    NotSpace('+');
    assert t[..3] == "100" && t[3..][..1] == "+";
    assert "100"[..2] == "10" && "10"[..1] == "1";
    assert Value("1") == 1 && Value("10") == 10 && Value("100") == 100;
    WholeOpenEndedParses(t, 3, 3, 100);
  }

  /** Whitespace around a label does not change how it parses. */
  lemma PaddingIgnored(s: string, i: int, t: string)
    requires Padded(s, i, t) && IsStripped(t)
    ensures ParseAgeGroup(s) == ParseAgeGroup(t)
  {
    StripPadded(s, i, t);
    assert Padded(t, 0, t) by {
      assert t[..0] == [] && t[0..0 + |t|] == t && t[0 + |t|..] == [];
    }
    StripPadded(t, 0, t);
  }

  lemma ExampleUnpaddedRange()
    ensures ParseAgeGroup("60 - 64") == Some(Interval(60, 64))
  {
    var t := "60 - 64";
    AsciiSpace(' ');
    assert t[..2] == "60" && t[2..3] == " " && t[4..5] == " " && t[5..7] == "64";
    assert Value("60") == 60 && Value("64") == 64;
    WholeRangeParses(t, 2, 3, 5, 60, 64);
  }

  lemma ExampleNotAnAge()
    ensures ParseAgeGroup("Некорректно") == None
  {
    var t := "Некорректно";
    NotSpace(t[0]);
    NotSpace(t[|t| - 1]);
    NoLeadingDigitNoAge(t);
  }

  lemma ExampleSingleAge()
    ensures ParseAgeGroup("5") == Some(Interval(5, 5))
  {
    var t := "5";
    NotSpace('5');
    StripPadded(t, 0, t);
    RunsStopAt(t, 1, 1);
    assert Value("5") == 5;
  }

}
