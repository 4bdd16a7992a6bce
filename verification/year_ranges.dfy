/** `calculate_year_range` (src/parser.py): the birth years an age bucket
    covers relative to a census year, and the "(lower, upper)" text that is
    the natural key of the year dimension. The calculation and the text are
    kept apart; `YearRangeLabel` puts them together as the source does. */
module YearRanges {
  import opened Options
  import opened Text

  /** The default census year of `calculate_year_range`. */
  const DefaultBaseYear: int := 2010

  /** An inclusive interval of birth years. */
  datatype YearRange = YearRange(lowerYear: int, upperYear: int)

  /** The year in which someone who is `age` in `baseYear` was born. */
  function BirthYear(baseYear: int, age: int): int {
    baseYear - age
  }

  /** Lines 54-55. The birth-year interval holds exactly the birth years of
      the ages in `[lowerAge, upperAge]`: the youngest age gives the latest
      year, the oldest the earliest. */
  function CalculateYearRange(lowerAge: int, upperAge: int, baseYear: int): (r: YearRange)
    ensures forall age :: lowerAge <= age <= upperAge <==> r.lowerYear <= BirthYear(baseYear, age) <= r.upperYear
    ensures lowerAge <= upperAge <==> r.lowerYear <= r.upperYear
    ensures r.upperYear - r.lowerYear == upperAge - lowerAge
  {
    YearRange(baseYear - upperAge, baseYear - lowerAge)
  }

  /** Line 56: the text `"(lower_year, upper_year)"`, with Python's `str`
      of each integer. */
  function FormatYearRange(r: YearRange): string {
    "(" + IntToString(r.lowerYear) + ", " + IntToString(r.upperYear) + ")"
  }

  /** `calculate_year_range(lower_age, upper_age, base_year)`: the label. */
  function YearRangeLabel(lowerAge: int, upperAge: int, baseYear: int): string {
    FormatYearRange(CalculateYearRange(lowerAge, upperAge, baseYear))
  }

  /** `calculate_year_range` with its default census year. */
  function DefaultYearRangeLabel(lowerAge: int, upperAge: int): string {
    YearRangeLabel(lowerAge, upperAge, DefaultBaseYear)
  }

  // ---------------------------------------------------------------------
  // Reading a label back
  // ---------------------------------------------------------------------

  /** An optionally negative decimal integer starting at `from`: its value
      and the offset just after it. */
  function ReadInt(s: string, from: nat): Option<(int, nat)>
    requires from <= |s|
  {
    var start := if from < |s| && s[from] == '-' then from + 1 else from;
    var end := Skip(s, start, Digit);
    if end == start then None
    else if start == from then Some((Value(s[start..end]) as int, end))
    else Some((0 - Value(s[start..end]), end))
  }

  /** The inverse of `FormatYearRange`. */
  function ParseYearRange(s: string): Option<YearRange> {
    if |s| == 0 || s[0] != '(' then None
    else
      match ReadInt(s, 1)
      case None => None
      case Some((lo, p)) =>
        if p + 2 > |s| || s[p..p + 2] != ", " then None
        else
          match ReadInt(s, p + 2)
          case None => None
          case Some((hi, q)) =>
            if s[q..] == ")" then Some(YearRange(lo, hi)) else None
  }

  /** An integer written at `from` and not followed by another digit is read
      back as itself. */
  lemma ReadIntOf(s: string, from: nat, n: int)
    requires from + |IntToString(n)| <= |s|
    requires s[from..from + |IntToString(n)|] == IntToString(n)
    requires from + |IntToString(n)| < |s| ==> !IsDigit(s[from + |IntToString(n)|])
    ensures ReadInt(s, from) == Some((n, from + |IntToString(n)|))
  {
    var w := IntToString(n);
    var end := from + |w|;
    if n < 0 {
      var d := NatToString(-n);
      assert s[from] == w[0] == '-';
      assert w == "-" + d && w[1..] == d;
      assert s[from + 1..end] == s[from..end][1..] == d;
      SkipUnique(s, from + 1, Digit, end);
    } else {
      assert s[from] == w[0];
      assert s[from..end] == NatToString(n);
      SkipUnique(s, from, Digit, end);
    }
  }

  /** Where the pieces of a label sit: the lower year from offset 1, then
      ", ", then the upper year, then the closing parenthesis. */
  lemma FormatLayout(r: YearRange)
    ensures var s := FormatYearRange(r);
      var p := 1 + |IntToString(r.lowerYear)|;
      var q := p + 2 + |IntToString(r.upperYear)|;
      && q + 1 == |s| && s[0] == '('
      && s[1..p] == IntToString(r.lowerYear) && s[p] == ',' && s[p..p + 2] == ", "
      && s[p + 2..q] == IntToString(r.upperYear) && s[q] == ')' && s[q..] == ")"
  {
    var a := IntToString(r.lowerYear);
    var b := IntToString(r.upperYear);
    var s := FormatYearRange(r);
    assert s == "(" + a + ", " + b + ")";
    var p := 1 + |a|;
    var q := p + 2 + |b|;
    assert s[1..p] == a;
    assert s[p + 2..q] == b;
  }

  /** Every year range is read back from its label. */
  lemma {:induction false} YearRangeRoundTrip(r: YearRange)
    ensures ParseYearRange(FormatYearRange(r)) == Some(r)
  {
    var s := FormatYearRange(r);
    var p := 1 + |IntToString(r.lowerYear)|;
    var q := p + 2 + |IntToString(r.upperYear)|;
    FormatLayout(r);
    ReadIntOf(s, 1, r.lowerYear);
    ReadIntOf(s, p + 2, r.upperYear);
  }

  /** Distinct year ranges never share a label, so the label is a sound
      natural key for the year dimension. */
  lemma YearRangeLabelsDistinct(r1: YearRange, r2: YearRange)
    requires r1 != r2
    ensures FormatYearRange(r1) != FormatYearRange(r2)
  {
    YearRangeRoundTrip(r1);
    YearRangeRoundTrip(r2);
  }

  /** The label gives back the age bounds it was computed from. */
  lemma AgesRecoverable(lowerAge: int, upperAge: int, baseYear: int)
    ensures ParseYearRange(YearRangeLabel(lowerAge, upperAge, baseYear))
         == Some(YearRange(baseYear - upperAge, baseYear - lowerAge))
  {
    YearRangeRoundTrip(CalculateYearRange(lowerAge, upperAge, baseYear));
  }

  /** The worked examples: ages 0-4 and 85-120 in the 2010 census. */
  lemma YearRangeExampleYoungest()
    ensures DefaultYearRangeLabel(0, 4) == "(2006, 2010)"
  {
    assert CalculateYearRange(0, 4, DefaultBaseYear) == YearRange(2006, 2010);
    assert IntToString(2006) == "2006" by {
      assert NatToString(2006) == "2006";
    }
    assert IntToString(2010) == "2010" by {
      assert NatToString(2010) == "2010";
    }
  }

  lemma YearRangeExampleOldest()
    ensures DefaultYearRangeLabel(85, 120) == "(1890, 1925)"
  {
    assert CalculateYearRange(85, 120, DefaultBaseYear) == YearRange(1890, 1925);
    assert IntToString(1890) == "1890" by {
      assert NatToString(1890) == "1890";
    }
    assert IntToString(1925) == "1925" by {
      assert NatToString(1925) == "1925";
    }
  }

}
