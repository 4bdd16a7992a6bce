/** The age-and-sex scanner, `read_age_sex_data` (src/parser.py): a scanner
    with one boolean mode that walks the rows of the age/sex sheet and builds
    `region -> (age label -> (male, female))`.

    As for the nationality sheet, rows come as raw cells and are cleaned and
    classified once (`Classify`); a region header is recognised by looking
    at the row after it, so the classification of a row also takes the
    next row's column D. The machine (`Step`) only looks at classified
    rows. */
module AgeSexScanner {
  import opened Options
  import opened Text
  import opened AgeGroups

  /** Male and female population of one age group. */
  datatype Counts = Counts(male: nat, female: nat)

  /** The scanner's variables: `reading_ages`, `current_region` and `data`. */
  datatype State = State(readingAges: bool, current: Option<string>, data: map<string, map<string, Counts>>)

  /** Columns D, I and J of a cleaned row: the text (a region name or an
      age group) and the male and female counts. */
  datatype Row = Row(text: Option<string>, male: Option<string>, female: Option<string>)

  const InIncluding := "в том числе"
  const AtAge := "возрасте"
  const UrbanAndRural := "городское и сельское"

  const Initial := State(false, None, map[])

  /** Line 228: columns D, I and J of a sheet row, each cleaned. */
  function ReadRow(raw: seq<Option<string>>): Row
    requires |raw| >= 10
  {
    Row(CleanCell(raw[3]), CleanCell(raw[8]), CleanCell(raw[9]))
  }

  /** Line 246: the look-ahead reads column D of the next row with `strip`
      only, without replacing line breaks. */
  function Lookahead(raw: seq<Option<string>>): Option<string>
    requires |raw| >= 10
  {
    match raw[3]
    case None => None
    case Some(v) => Some(Strip(v))
  }

  /** Every row of the sheet reaches column J. */
  predicate WideEnough(rows: seq<seq<Option<string>>>) {
    forall i :: 0 <= i < |rows| ==> |rows[i]| >= 10
  }

  /** Column D of the row after row `i`, as the look-ahead reads it; `None`
      for the last row, which has no next row (line 245). */
  function Next(rows: seq<seq<Option<string>>>, i: nat): Option<string>
    requires WideEnough(rows) && i < |rows|
  {
    if i + 1 < |rows| then Lookahead(rows[i + 1]) else None
  }

  // ---------------------------------------------------------------------
  // Row classification
  // ---------------------------------------------------------------------

  /** Lines 237-242: column D looks like a region name. It is non-empty,
      the first word holds no digit, it has neither "в том числе" nor
      "возрасте" in lower case, it is not an age group and it is longer
      than five characters. */
  predicate IsRegionCandidate(d: Option<string>) {
    && Truthy(d)
    && !HasDigit(FirstToken(d.value))
    && !Contains(Lower(d.value), InIncluding)
    && !Contains(Lower(d.value), AtAge)
    && ParseAgeGroup(d.value).None?
    && |d.value| > 5
  }

  /** Line 247: the next row's column D announces the urban-and-rural
      breakdown that follows every region name. */
  predicate ConfirmsRegion(next: Option<string>) {
    Mentions(next, UrbanAndRural)
  }

  /** Lines 263-264: column D is filled and I and J are counts. */
  predicate IsMeasured(r: Row) {
    Truthy(r.text) && IsCount(r.male) && IsCount(r.female)
  }

  /** Line 276: columns D, I and J are all missing. */
  predicate IsBlankRow(r: Row) {
    r.text.None? && r.male.None? && r.female.None?
  }

  /** What the machine needs to know of a row. */
  datatype RowView = RowView(
    header: bool,
    text: string,
    measured: bool,
    ageGroup: bool,
    male: nat,
    female: nat,
    blank: bool)

  /** The tests of lines 237-247, 263-268 and 276, computed once per row;
      `next` is the look-ahead. A header names a region longer than five
      characters that is not itself an age group. */
  function Classify(r: Row, next: Option<string>): (v: RowView)
    ensures v.header ==> |v.text| > 5 && !v.ageGroup
  {
    var text := if r.text.Some? then r.text.value else "";
    RowView(
      IsRegionCandidate(r.text) && ConfirmsRegion(next),
      text,
      IsMeasured(r),
      ParseAgeGroup(text).Some?,
      if IsCount(r.male) then Value(r.male.value) else 0,
      if IsCount(r.female) then Value(r.female.value) else 0,
      IsBlankRow(r))
  }

  /** What the machine relies on of a view: a header names a region longer
      than five characters. */
  predicate Plausible(v: RowView) {
    v.header ==> |v.text| > 5
  }

  /** A row with D, I and J all missing is classified as blank only: it is
      neither a header nor a measured row. */
  lemma BlankRowView(r: Row, next: Option<string>)
    requires IsBlankRow(r)
    ensures var v := Classify(r, next);
      v.blank && !v.header && !v.measured
  {
  }

  /** The sheet, cleaned and classified row by row with its look-ahead. */
  function Views(rows: seq<seq<Option<string>>>): (vs: seq<RowView>)
    requires WideEnough(rows)
    ensures |vs| == |rows|
    ensures forall i :: 0 <= i < |vs| ==> Plausible(vs[i])
  {
    seq(|rows|, i requires 0 <= i < |rows| => Classify(ReadRow(rows[i]), Next(rows, i)))
  }

  // ---------------------------------------------------------------------
  // One row
  // ---------------------------------------------------------------------

  /** Lines 237-281: the effect of one classified row. A confirmed header
      starts a region (lines 248-252); otherwise, while reading a region, a
      measured row is stored under its raw label when the label is an age
      group (lines 263-272), and a blank row ends the region once it has an
      entry (lines 276-281). */
  function Step(s: State, v: RowView): State {
    if v.header then
      State(true, Some(v.text), s.data[v.text := map[]])
    else if s.readingAges && Truthy(s.current) then
      var region := s.current.value;
      if v.measured then
        if v.ageGroup && region in s.data then
          s.(data := s.data[region := s.data[region][v.text := Counts(v.male, v.female)]])
        else
          s
      else if v.blank && region in s.data && |s.data[region]| > 0 then
        State(false, None, s.data)
      else
        s
    else
      s
  }

  /** A confirmed header starts reading that region with an empty map,
      replacing whatever was stored under the same name before. */
  lemma StepHeader(s: State, v: RowView)
    requires v.header
    ensures Step(s, v) == State(true, Some(v.text), s.data[v.text := map[]])
  {
  }

  /** No step forgets a region; only a header adds one, under its name. */
  lemma StepRegisters(s: State, v: RowView)
    ensures Step(s, v).data.Keys >= s.data.Keys
    ensures Step(s, v).data.Keys != s.data.Keys ==> v.header && Step(s, v).data.Keys == s.data.Keys + {v.text}
  {
  }

  /** Apart from a header, a step changes a region's map only while reading
      that region, by storing the counts of a measured row under its label,
      which is an age group. */
  lemma StepStoresAge(s: State, v: RowView, k: string)
    requires !v.header && k in s.data && Step(s, v).data[k] != s.data[k]
    ensures s.readingAges && s.current == Some(k)
    ensures v.measured && v.ageGroup
    ensures Step(s, v).data == s.data[k := s.data[k][v.text := Counts(v.male, v.female)]]
  {
  }

  /** Only a blank row ends a region, and only once the region has an
      entry. */
  lemma StepClosesRegion(s: State, v: RowView)
    requires s.readingAges && !Step(s, v).readingAges
    ensures v.blank && !v.header && !v.measured
    ensures s.current.Some? && s.current.value in s.data && |s.data[s.current.value]| > 0
    ensures Step(s, v) == State(false, None, s.data)
  {
  }

  /** A blank row ends the region being read once it has an entry; before
      its first entry the region keeps being read. */
  lemma StepBlankEnds(s: State, v: RowView)
    requires s.readingAges && Truthy(s.current) && s.current.value in s.data
    requires v.blank && !v.header && !v.measured
    ensures |s.data[s.current.value]| > 0 ==> Step(s, v) == State(false, None, s.data)
    ensures |s.data[s.current.value]| == 0 ==> Step(s, v) == s
  {
  }

  // ---------------------------------------------------------------------
  // The whole sheet
  // ---------------------------------------------------------------------

  /** The scanner's state after the first `n` classified rows. */
  function Run(views: seq<RowView>, n: nat): State
    requires n <= |views|
  {
    if n == 0 then Initial else Step(Run(views, n - 1), views[n - 1])
  }

  /** `read_age_sex_data` once the sheet has been read. */
  function AgeSexData(rows: seq<seq<Option<string>>>): map<string, map<string, Counts>>
    requires WideEnough(rows)
  {
    Run(Views(rows), |rows|).data
  }

  /** What holds of the scanner between rows: the scanner is reading
      exactly when it has a current region, which is registered and longer
      than five characters. */
  ghost predicate Inv(s: State) {
    && (s.readingAges <==> s.current.Some?)
    && (s.current.Some? ==> s.current.value in s.data && |s.current.value| > 5)
  }

  lemma StepInv(s: State, v: RowView)
    requires Inv(s) && Plausible(v)
    ensures Inv(Step(s, v))
  {
  }

  lemma {:induction false} RunInv(views: seq<RowView>, n: nat)
    requires n <= |views|
    requires forall i :: 0 <= i < |views| ==> Plausible(views[i])
    ensures Inv(Run(views, n))
  {
    if n > 0 {
      RunInv(views, n - 1);
      StepInv(Run(views, n - 1), views[n - 1]);
    }
  }

  /** The `data[current_region]` look-ups of lines 272 and 279 never fail:
      while reading, the current region is registered. */
  lemma {:induction false} ReadingTargetRegistered(rows: seq<seq<Option<string>>>, n: nat)
    requires WideEnough(rows) && n <= |rows|
    ensures Run(Views(rows), n).readingAges ==>
              && Run(Views(rows), n).current.Some?
              && Run(Views(rows), n).current.value in Run(Views(rows), n).data
  {
    RunInv(Views(rows), n);
  }

  /** A row is a header exactly when its column D is a region candidate and
      the next row confirms it; so the last row is never a header. */
  lemma HeaderNeedsConfirmation(rows: seq<seq<Option<string>>>, i: nat)
    requires WideEnough(rows) && i < |rows|
    ensures Views(rows)[i].header <==>
              && i + 1 < |rows|
              && IsRegionCandidate(ReadRow(rows[i]).text)
              && ConfirmsRegion(Lookahead(rows[i + 1]))
  {
  }

  /** Row `i` was a header naming `k`. */
  ghost predicate HeaderAt(views: seq<RowView>, i: nat, k: string)
    requires i < |views|
  {
    views[i].header && views[i].text == k
  }

  /** Every region in the map was named by a header row. */
  lemma {:induction false} RegionProvenance(views: seq<RowView>, n: nat, k: string)
    requires n <= |views|
    requires k in Run(views, n).data
    ensures exists i :: 0 <= i < n && HeaderAt(views, i, k)
  {
    if n > 0 {
      var s := Run(views, n - 1);
      StepRegisters(s, views[n - 1]);
      if k in s.data {
        RegionProvenance(views, n - 1, k);
      } else {
        assert HeaderAt(views, n - 1, k);
      }
    }
  }

  /** The converse of `RegionProvenance`: a region named by a header stays
      in the map for good. */
  lemma {:induction false} HeaderKept(views: seq<RowView>, i: nat, n: nat, k: string)
    requires i < n <= |views|
    requires HeaderAt(views, i, k)
    ensures k in Run(views, n).data
    decreases n
  {
    if n > i + 1 {
      HeaderKept(views, i, n - 1, k);
      StepRegisters(Run(views, n - 1), views[n - 1]);
    }
  }

  /** Row `i` stored `counts` under label `text` while reading region
      `k`: a measured row whose label is an age group. */
  ghost predicate StoredAt(views: seq<RowView>, i: nat, k: string, text: string, counts: Counts)
    requires i < |views|
  {
    && !views[i].header && views[i].measured && views[i].ageGroup
    && views[i].text == text && Counts(views[i].male, views[i].female) == counts
    && Run(views, i).readingAges && Run(views, i).current == Some(k)
  }

  /** Row `i` is the last of the first `n` rows to store label `text`
      under region `k`, and no later header starts `k` afresh. */
  ghost predicate LastStoredAt(views: seq<RowView>, n: nat, i: nat, k: string, text: string, counts: Counts)
    requires i < n <= |views|
  {
    && StoredAt(views, i, k, text, counts)
    && (forall j :: i < j < n ==> !HeaderAt(views, j, k))
    && (forall j, c :: i < j < n ==> !StoredAt(views, j, k, text, c))
  }

  /** Every entry of a region's map was stored by the last measured row
      with that label read in the region's current block, and the label is
      an age group. */
  lemma {:induction false} AgeProvenance(views: seq<RowView>, n: nat, k: string, text: string)
    requires n <= |views|
    requires forall i :: 0 <= i < |views| ==> Plausible(views[i])
    requires k in Run(views, n).data && text in Run(views, n).data[k]
    ensures exists i :: 0 <= i < n && LastStoredAt(views, n, i, k, text, Run(views, n).data[k][text])
  {
    if n > 0 {
      var s := Run(views, n - 1);
      var v := views[n - 1];
      RunInv(views, n - 1);
      StepRegisters(s, v);
      if v.header && k == v.text {
        assert false;
      } else if StoredAt(views, n - 1, k, text, Counts(v.male, v.female)) {
        assert LastStoredAt(views, n, n - 1, k, text, Run(views, n).data[k][text]);
      } else {
        if !v.header && Run(views, n).data[k] != s.data[k] {
          StepStoresAge(s, v, k);
        }
        AgeProvenance(views, n - 1, k, text);
        var i :| 0 <= i < n - 1 && LastStoredAt(views, n - 1, i, k, text, s.data[k][text]);
        assert LastStoredAt(views, n, i, k, text, Run(views, n).data[k][text]);
      }
    }
  }

  /** The converse of `AgeProvenance`: the counts the last measured row
      with a label stores in a region's block stay stored under that
      label. */
  lemma {:induction false} AgeStored(views: seq<RowView>, n: nat, i: nat, k: string, text: string, counts: Counts)
    requires i < n <= |views|
    requires forall j :: 0 <= j < |views| ==> Plausible(views[j])
    requires LastStoredAt(views, n, i, k, text, counts)
    ensures k in Run(views, n).data && text in Run(views, n).data[k]
    ensures Run(views, n).data[k][text] == counts
    decreases n
  {
    if n == i + 1 {
      RunInv(views, i);
    } else {
      AgeStored(views, n - 1, i, k, text, counts);
      var s := Run(views, n - 1);
      var v := views[n - 1];
      StepRegisters(s, v);
      if !v.header && Run(views, n).data[k] != s.data[k] {
        StepStoresAge(s, v, k);
        assert !StoredAt(views, n - 1, k, text, Counts(v.male, v.female));
      } else if v.header {
        assert !HeaderAt(views, n - 1, k);
      }
    }
  }

  /** A region's map ends with `counts` under `text` exactly when the last
      measured row with that label in the region's current block has those
      counts. */
  lemma AgeCountIsLastStored(views: seq<RowView>, n: nat, k: string, text: string, counts: Counts)
    requires n <= |views|
    requires forall j :: 0 <= j < |views| ==> Plausible(views[j])
    ensures (k in Run(views, n).data && text in Run(views, n).data[k] && Run(views, n).data[k][text] == counts)
        <==> exists i :: 0 <= i < n && LastStoredAt(views, n, i, k, text, counts)
  {
    if k in Run(views, n).data && text in Run(views, n).data[k] {
      AgeProvenance(views, n, k, text);
    }
    if exists i :: 0 <= i < n && LastStoredAt(views, n, i, k, text, counts) {
      var i :| 0 <= i < n && LastStoredAt(views, n, i, k, text, counts);
      AgeStored(views, n, i, k, text, counts);
    }
  }

  /** Row `i` of the sheet names `region` in column D, which is a region
      candidate, and the next row announces the urban-and-rural breakdown. */
  ghost predicate HeaderRowAt(rows: seq<seq<Option<string>>>, i: nat, region: string)
    requires WideEnough(rows) && i < |rows|
  {
    && i + 1 < |rows|
    && IsRegionCandidate(ReadRow(rows[i]).text)
    && ReadRow(rows[i]).text.value == region
    && ConfirmsRegion(Lookahead(rows[i + 1]))
  }

  /** A sheet row is such a header row exactly when its view is a header
      naming that region. */
  lemma HeaderRowView(rows: seq<seq<Option<string>>>, i: nat, region: string)
    requires WideEnough(rows) && i < |rows|
    ensures HeaderRowAt(rows, i, region) <==> HeaderAt(Views(rows), i, region)
  {
    assert Views(rows)[i] == Classify(ReadRow(rows[i]), Next(rows, i));
  }

  /** A region is in the result exactly when column D of some row is a
      region candidate naming it and the next row announces the
      urban-and-rural breakdown. */
  lemma RegionsFromHeaders(rows: seq<seq<Option<string>>>, region: string)
    requires WideEnough(rows)
    ensures region in AgeSexData(rows) <==> exists i :: 0 <= i < |rows| && HeaderRowAt(rows, i, region)
  {
    var views := Views(rows);
    if region in AgeSexData(rows) {
      RegionProvenance(views, |rows|, region);
      var i :| 0 <= i < |rows| && HeaderAt(views, i, region);
      HeaderRowView(rows, i, region);
    }
    if exists i :: 0 <= i < |rows| && HeaderRowAt(rows, i, region) {
      var i :| 0 <= i < |rows| && HeaderRowAt(rows, i, region);
      HeaderRowView(rows, i, region);
      HeaderKept(views, i, |rows|, region);
    }
  }

  /** Row `i` of the sheet, read while region `region` is read, has I and
      J as counts and, in column D, the label `text`, which parses as an
      age group; `counts` are the numbers in I and J. */
  ghost predicate MeasuredRowAt(rows: seq<seq<Option<string>>>, i: nat, region: string, text: string, counts: Counts)
    requires WideEnough(rows) && i < |rows|
  {
    && IsMeasured(ReadRow(rows[i]))
    && ReadRow(rows[i]).text.value == text
    && ParseAgeGroup(text).Some?
    && counts == Counts(Value(ReadRow(rows[i]).male.value), Value(ReadRow(rows[i]).female.value))
    && Run(Views(rows), i).readingAges && Run(Views(rows), i).current == Some(region)
  }

  /** Row `i` is such a measured row, and after it neither a header for
      `region` nor another measured row with label `text` comes. */
  ghost predicate LastMeasuredRowAt(rows: seq<seq<Option<string>>>, i: nat, region: string, text: string, counts: Counts)
    requires WideEnough(rows) && i < |rows|
  {
    && MeasuredRowAt(rows, i, region, text, counts)
    && (forall j :: i < j < |rows| ==> !HeaderRowAt(rows, j, region))
    && (forall j, c :: i < j < |rows| ==> !MeasuredRowAt(rows, j, region, text, c))
  }

  /** A sheet row is such a measured row exactly when its view stores
      those counts. A label that is an age group is never a region
      candidate, so a measured row is never a header. */
  lemma MeasuredRowView(rows: seq<seq<Option<string>>>, i: nat, region: string, text: string, counts: Counts)
    requires WideEnough(rows) && i < |rows|
    ensures MeasuredRowAt(rows, i, region, text, counts) <==> StoredAt(Views(rows), i, region, text, counts)
  {
    assert Views(rows)[i] == Classify(ReadRow(rows[i]), Next(rows, i));
  }

  /** A sheet row is the last measured row for a label exactly when its
      view is the last to store it. */
  lemma LastMeasuredRowView(rows: seq<seq<Option<string>>>, i: nat, region: string, text: string, counts: Counts)
    requires WideEnough(rows) && i < |rows|
    ensures LastMeasuredRowAt(rows, i, region, text, counts)
        <==> LastStoredAt(Views(rows), |rows|, i, region, text, counts)
  {
    var views := Views(rows);
    MeasuredRowView(rows, i, region, text, counts);
    forall j | i < j < |rows|
      ensures HeaderRowAt(rows, j, region) <==> HeaderAt(views, j, region)
    {
      HeaderRowView(rows, j, region);
    }
    forall j, c | i < j < |rows|
      ensures MeasuredRowAt(rows, j, region, text, c) <==> StoredAt(views, j, region, text, c)
    {
      MeasuredRowView(rows, j, region, text, c);
    }
  }

  /** A region's map in the result holds `counts` under `text` exactly when
      the last measured row with that label, after the region's last
      header, has those counts in I and J. Every stored label is an age
      group. */
  lemma AgesFromMeasuredRows(rows: seq<seq<Option<string>>>, region: string, text: string, counts: Counts)
    requires WideEnough(rows)
    ensures region in AgeSexData(rows) && text in AgeSexData(rows)[region] ==> ParseAgeGroup(text).Some?
    ensures (&& region in AgeSexData(rows) && text in AgeSexData(rows)[region]
             && AgeSexData(rows)[region][text] == counts)
        <==> exists i :: 0 <= i < |rows| && LastMeasuredRowAt(rows, i, region, text, counts)
  {
    var views := Views(rows);
    AgeCountIsLastStored(views, |rows|, region, text, counts);
    if region in AgeSexData(rows) && text in AgeSexData(rows)[region] {
      AgeProvenance(views, |rows|, region, text);
    }
    if exists i :: 0 <= i < |rows| && LastStoredAt(views, |rows|, i, region, text, counts) {
      var i :| 0 <= i < |rows| && LastStoredAt(views, |rows|, i, region, text, counts);
      LastMeasuredRowView(rows, i, region, text, counts);
    }
    if exists i :: 0 <= i < |rows| && LastMeasuredRowAt(rows, i, region, text, counts) {
      var i :| 0 <= i < |rows| && LastMeasuredRowAt(rows, i, region, text, counts);
      LastMeasuredRowView(rows, i, region, text, counts);
    }
  }

  // ---------------------------------------------------------------------
  // The loop of the source
  // ---------------------------------------------------------------------

  /** Lines 217-291 without the file reading and logging: one pass over the
      rows, one step per row. */
  method ReadAgeSexData(rows: seq<seq<Option<string>>>) returns (data: map<string, map<string, Counts>>)
    requires WideEnough(rows)
    ensures data == AgeSexData(rows)
    ensures forall k :: k in data ==> |k| > 5
  {
    var views := Views(rows);
    var s := Initial;
    var i := 0;
    while i < |rows|
      invariant 0 <= i <= |rows|
      invariant s == Run(views, i)
    {
      s := Step(s, views[i]);
      i := i + 1;
    }
    forall k | k in s.data
      ensures |k| > 5
    {
      RegionProvenance(views, |rows|, k);
    }
    data := s.data;
  }

}
