/** The nationality-table scanner, `read_nationality_data` (src/parser.py):
    a four-state machine that walks the rows of the nationality sheet and
    builds `region -> (total population, nation -> population)`.

    The sheet is given as rows of raw cells (`None` for a cell pandas reads
    as missing). Each row is cleaned as the source cleans it and classified
    once (`Classify`: which of the source's row tests it passes, its name and
    its count); the machine itself (`Step`) only looks at that
    classification. `Run` folds `Step` over the first `n` classified rows,
    and `NationalityData` is the map left after the last row. */
module NationalityScanner {
  import opened Options
  import opened Text

  /** Lines 76-79. */
  datatype Mode =
    | SearchingFederalDistrict
    | SearchingRegion
    | SearchingNationMarker
    | ReadingNations

  /** A region's row total and the nations stored under it. */
  datatype RegionEntry = RegionEntry(total: nat, nations: map<string, nat>)

  /** The scanner's variables: `state`, `current_region` and `data`. */
  datatype State = State(mode: Mode, current: Option<string>, data: map<string, RegionEntry>)

  /** Columns A to D of a cleaned row. */
  datatype Row = Row(a: Option<string>, b: Option<string>, c: Option<string>, d: Option<string>)

  const FederalDistrict := "федеральный округ"
  const NationMarker := "указавшие национальную"

  /** Lines 162-164: names that are headings or totals, not nations. */
  const StopList: seq<string> := [
    "указавшие национальную принадлежность",
    "национальность не указана",
    "итого",
    "лица,",
    "не указавшие национальную",
    "принадлежность",
    "(не перечисленные выше)"
  ]

  const Initial := State(SearchingFederalDistrict, None, map[])

  /** Lines 89-94: the first four cells of a sheet row, each cleaned. */
  function ReadRow(raw: seq<Option<string>>): Row
    requires |raw| >= 4
  {
    Row(CleanCell(raw[0]), CleanCell(raw[1]), CleanCell(raw[2]), CleanCell(raw[3]))
  }

  /** Every row of the sheet reaches column D. */
  predicate WideEnough(rows: seq<seq<Option<string>>>) {
    forall i :: 0 <= i < |rows| ==> |rows[i]| >= 4
  }

  // ---------------------------------------------------------------------
  // Row classification
  // ---------------------------------------------------------------------

  /** Column A holds an item number: its text before the first '.' is
      digits (`col_a.split('.')[0].isdigit()`). */
  predicate IsItemNumber(a: Option<string>) {
    Truthy(a) && IsDigitString(BeforeDot(a.value))
  }

  /** Lines 99-102. */
  predicate IsFederalDistrictRow(r: Row) {
    Mentions(r.b, FederalDistrict) || Mentions(r.c, FederalDistrict)
  }

  /** Lines 114-123. */
  predicate IsRegionRow(r: Row) {
    && IsItemNumber(r.a)
    && r.b.None?
    && Truthy(r.c)
    && IsCount(r.d)
    && !Contains(Lower(r.c.value), FederalDistrict)
    && !Contains(Lower(r.c.value), NationMarker)
    && |r.c.value| > 3
  }

  /** Line 139, the part about the row. */
  predicate IsMarkerRow(r: Row) {
    Mentions(r.c, NationMarker)
  }

  /** Lines 157-165, the part about the row. */
  predicate IsNationRow(r: Row) {
    && IsItemNumber(r.a)
    && Truthy(r.c)
    && IsCount(r.d)
    && IsNationName(r.c.value)
  }

  /** Lines 162-165: a name that is not one of the stop-list headings,
      compared in lower case. */
  predicate IsNationName(name: string) {
    Lower(name) !in StopList
  }

  /** Line 182. */
  predicate IsBlankRow(r: Row) {
    r.a.None? && r.c.None? && r.d.None?
  }

  /** What the machine needs to know of a row: which of the source's tests
      it passes, the text of column C and the number in column D. */
  datatype RowView = RowView(
    federalDistrict: bool,
    region: bool,
    marker: bool,
    nation: bool,
    blank: bool,
    name: string,
    count: nat)

  /** The tests of lines 99-102, 114-123, 139, 157-165 and 182, computed
      once per row. A region row names a region longer than three
      characters and a nation row names a non-empty nation outside the stop
      list. */
  function Classify(r: Row): (v: RowView)
    ensures v.region ==> |v.name| > 3
    ensures v.nation ==> |v.name| > 0 && IsNationName(v.name)
  {
    RowView(
      IsFederalDistrictRow(r),
      IsRegionRow(r),
      IsMarkerRow(r),
      IsNationRow(r),
      IsBlankRow(r),
      if r.c.Some? then r.c.value else "",
      if IsCount(r.d) then Value(r.d.value) else 0)
  }

  /** What the machine relies on of a view: region names are longer than
      three characters and nation names are not empty. */
  predicate Plausible(v: RowView) {
    (v.region ==> |v.name| > 3) && (v.nation ==> |v.name| > 0)
  }

  /** The sheet, cleaned and classified row by row. */
  function Views(rows: seq<seq<Option<string>>>): (vs: seq<RowView>)
    requires WideEnough(rows)
    ensures |vs| == |rows|
    ensures forall i :: 0 <= i < |vs| ==> Plausible(vs[i])
    ensures forall i :: 0 <= i < |vs| && vs[i].nation ==> IsNationName(vs[i].name)
  {
    seq(|rows|, i requires 0 <= i < |rows| => Classify(ReadRow(rows[i])))
  }

  // ---------------------------------------------------------------------
  // One row
  // ---------------------------------------------------------------------

  /** Lines 99-187: the effect of one classified row. Region and nation
      names are stored as the cleaned column C (see `Text.CleanIdempotent`).
      What a step may and may not change is stated by the `Step...` lemmas
      below. */
  function Step(s: State, v: RowView): State {
    if v.federalDistrict then
      State(SearchingRegion, None, s.data)
    else
      match s.mode
      case SearchingFederalDistrict =>
        s
      case SearchingRegion =>
        if v.region && v.name !in s.data then
          State(SearchingNationMarker, Some(v.name), s.data[v.name := RegionEntry(v.count, map[])])
        else
          s
      case SearchingNationMarker =>
        if Truthy(s.current) && v.marker then s.(mode := ReadingNations) else s
      case ReadingNations =>
        if Truthy(s.current) && v.nation then
          var region := s.current.value;
          if v.count > 0 && region in s.data then
            var entry := s.data[region];
            s.(data := s.data[region := entry.(nations := entry.nations[v.name := v.count])])
          else
            s
        else if v.blank then
          State(SearchingRegion, None, s.data)
        else
          s
  }

  /** A federal-district row resets the scan from any mode and keeps the
      data. */
  lemma StepFederalDistrict(s: State, v: RowView)
    requires v.federalDistrict
    ensures Step(s, v) == State(SearchingRegion, None, s.data)
  {
  }

  /** No step forgets a region or changes its total. */
  lemma StepKeepsTotals(s: State, v: RowView)
    ensures Step(s, v).data.Keys >= s.data.Keys
    ensures forall k :: k in s.data ==> Step(s, v).data[k].total == s.data[k].total
  {
  }

  /** A region is registered only by a region row read while searching for a
      region, under its name, with its count as total and no nations, and
      the scan then looks for the marker of that region. */
  lemma StepRegisters(s: State, v: RowView, k: string)
    requires k in Step(s, v).data && k !in s.data
    ensures s.mode == SearchingRegion && v.region && !v.federalDistrict && k == v.name
    ensures Step(s, v) == State(SearchingNationMarker, Some(k), s.data[k := RegionEntry(v.count, map[])])
  {
  }

  /** A stored entry changes only in the nation block of that region, by a
      nation row with a positive count, which stores that one nation. */
  lemma StepStoresNation(s: State, v: RowView, k: string)
    requires k in s.data && Step(s, v).data[k] != s.data[k]
    ensures s.mode == ReadingNations && s.current == Some(k)
    ensures !v.federalDistrict && v.nation && v.count > 0
    ensures Step(s, v).data == s.data[k := s.data[k].(nations := s.data[k].nations[v.name := v.count])]
  {
  }

  /** Only a marker row, read while searching for one, opens a nation block. */
  lemma StepOpensBlock(s: State, v: RowView)
    requires s.mode != ReadingNations && Step(s, v).mode == ReadingNations
    ensures s.mode == SearchingNationMarker && v.marker && !v.federalDistrict
  {
  }

  /** While the marker is awaited, every row other than a marker row or a
      federal-district row is passed over. */
  lemma StepWaitsForMarker(s: State, v: RowView)
    requires s.mode == SearchingNationMarker && !v.federalDistrict && !v.marker
    ensures Step(s, v) == s
  {
  }

  /** A blank row closes a nation block: the scan looks for the next region
      and keeps the data. */
  lemma StepBlankCloses(s: State, v: RowView)
    requires s.mode == ReadingNations && v.blank && !v.federalDistrict && !v.nation
    ensures Step(s, v) == State(SearchingRegion, None, s.data)
  {
  }

  /** Only a federal-district row or a blank row closes a nation block, and
      closing it drops the current region. */
  lemma StepClosesBlock(s: State, v: RowView)
    requires s.mode == ReadingNations && Step(s, v).mode != ReadingNations
    ensures Step(s, v).current.None?
    ensures v.federalDistrict || v.blank
  {
  }

  // ---------------------------------------------------------------------
  // The whole sheet
  // ---------------------------------------------------------------------

  /** The scanner's state after the first `n` classified rows. */
  function Run(views: seq<RowView>, n: nat): State
    requires n <= |views|
  {
    if n == 0 then Initial else Step(Run(views, n - 1), views[n - 1])
  }

  /** `read_nationality_data` once the sheet has been read. */
  function NationalityData(rows: seq<seq<Option<string>>>): map<string, RegionEntry>
    requires WideEnough(rows)
  {
    Run(Views(rows), |rows|).data
  }

  /** What holds of the scanner between rows: a current region exactly in
      the two block modes, always a registered one; every registered name
      is longer than three characters; every stored nation has a non-empty
      name and a positive count. */
  ghost predicate Inv(s: State) {
    && (s.current.Some? <==> (s.mode == SearchingNationMarker || s.mode == ReadingNations))
    && (s.current.Some? ==> s.current.value in s.data && |s.current.value| > 3)
    && (forall k :: k in s.data ==> |k| > 3)
    && (forall k :: k in s.data ==> ValidNations(s.data[k]))
  }

  ghost predicate ValidNations(e: RegionEntry) {
    forall n :: n in e.nations ==> e.nations[n] > 0 && |n| > 0
  }

  lemma StepInv(s: State, v: RowView)
    requires Inv(s) && Plausible(v)
    ensures Inv(Step(s, v))
  {
  }

  lemma {:induction false} RunInv(views: seq<RowView>, n: nat)
    requires n <= |views|
    requires forall i :: 0 <= i < |views| ==> Plausible(views[i])
    ensures Inv(Run(views, n))
  {
    if n > 0 {
      RunInv(views, n - 1);
      StepInv(Run(views, n - 1), views[n - 1]);
    }
  }

  /** The "current region is missing" branch of line 173 is never taken:
      in the nation block the current region is always registered. */
  lemma {:induction false} NationTargetRegistered(rows: seq<seq<Option<string>>>, n: nat)
    requires WideEnough(rows) && n <= |rows|
    ensures Run(Views(rows), n).mode == ReadingNations ==>
              && Run(Views(rows), n).current.Some?
              && Run(Views(rows), n).current.value in Run(Views(rows), n).data
  {
    RunInv(Views(rows), n);
  }

  /** Rows before the first federal-district row change nothing at all: the
      initial mode has no branch of its own. */
  lemma {:induction false} QuietBeforeFederalDistrict(views: seq<RowView>, n: nat)
    requires n <= |views|
    requires forall i :: 0 <= i < n ==> !views[i].federalDistrict
    ensures Run(views, n) == Initial
  {
    if n > 0 {
      QuietBeforeFederalDistrict(views, n - 1);
    }
  }

  /** Registration is permanent and the first registration wins: a region
      known after `m` rows is still known after any later row, with the same
      total. */
  lemma {:induction false} TotalsStable(views: seq<RowView>, m: nat, n: nat, k: string)
    requires m <= n <= |views|
    requires k in Run(views, m).data
    ensures k in Run(views, n).data
    ensures Run(views, n).data[k].total == Run(views, m).data[k].total
    decreases n
  {
    if m < n {
      TotalsStable(views, m, n - 1, k);
      StepKeepsTotals(Run(views, n - 1), views[n - 1]);
    }
  }

  /** Row `i` registered region `k` with total `total`: a region row
      naming `k`, and not a federal-district row, read while searching for
      a region, when `k` was not yet known. */
  ghost predicate RegisteredAt(views: seq<RowView>, i: nat, k: string, total: nat)
    requires i < |views|
  {
    && views[i].region && !views[i].federalDistrict && views[i].name == k && views[i].count == total
    && Run(views, i).mode == SearchingRegion
    && k !in Run(views, i).data
  }

  /** Where a region's entry comes from: the first region row that named
      it, read while searching for a region, whose count is the total. */
  lemma {:induction false} RegionProvenance(views: seq<RowView>, n: nat, k: string)
    requires n <= |views|
    requires k in Run(views, n).data
    ensures exists i :: 0 <= i < n && RegisteredAt(views, i, k, Run(views, n).data[k].total)
  {
    if n > 0 {
      var s := Run(views, n - 1);
      if k in s.data {
        RegionProvenance(views, n - 1, k);
        TotalsStable(views, n - 1, n, k);
      } else {
        StepRegisters(s, views[n - 1], k);
        assert RegisteredAt(views, n - 1, k, Run(views, n).data[k].total);
      }
    }
  }

  /** A region row read while searching for a region leaves its name
      registered for good, and when the name was new, with the row's count
      as its total. */
  lemma {:induction false} RegionRowRegisters(views: seq<RowView>, i: nat, n: nat)
    requires i < n <= |views|
    requires views[i].region && !views[i].federalDistrict && Run(views, i).mode == SearchingRegion
    ensures views[i].name in Run(views, n).data
    ensures views[i].name !in Run(views, i).data ==> Run(views, n).data[views[i].name].total == views[i].count
  {
    var k := views[i].name;
    if k in Run(views, i).data {
      TotalsStable(views, i, i + 1, k);
    }
    TotalsStable(views, i + 1, n, k);
  }

  /** Row `i` stored `count` for `nation` under region `k`: a nation row
      with a positive count, and not a federal-district row, naming
      `nation`, read in `k`'s nation block. */
  ghost predicate StoredAt(views: seq<RowView>, i: nat, k: string, nation: string, count: nat)
    requires i < |views|
  {
    && !views[i].federalDistrict && views[i].nation && views[i].count > 0
    && views[i].name == nation && views[i].count == count
    && Run(views, i).mode == ReadingNations
    && Run(views, i).current == Some(k)
  }

  /** Row `i` is the last of the first `n` rows to store `nation` under
      region `k`. */
  ghost predicate LastStoredAt(views: seq<RowView>, n: nat, i: nat, k: string, nation: string, count: nat)
    requires i < n <= |views|
  {
    && StoredAt(views, i, k, nation, count)
    && forall j, c :: i < j < n ==> !StoredAt(views, j, k, nation, c)
  }

  /** Where a nation's count comes from: the last nation row naming it in
      the nation block of that region. */
  lemma {:induction false} NationProvenance(views: seq<RowView>, n: nat, k: string, nation: string)
    requires n <= |views|
    requires forall i :: 0 <= i < |views| ==> Plausible(views[i])
    requires k in Run(views, n).data && nation in Run(views, n).data[k].nations
    ensures exists i :: 0 <= i < n && LastStoredAt(views, n, i, k, nation, Run(views, n).data[k].nations[nation])
  {
    if n > 0 {
      var s := Run(views, n - 1);
      var v := views[n - 1];
      RunInv(views, n - 1);
      if k !in s.data {
        StepRegisters(s, v, k);
      } else if StoredAt(views, n - 1, k, nation, v.count) {
        assert LastStoredAt(views, n, n - 1, k, nation, Run(views, n).data[k].nations[nation]);
      } else {
        if Run(views, n).data[k] != s.data[k] {
          StepStoresNation(s, v, k);
        }
        NationProvenance(views, n - 1, k, nation);
        var i :| 0 <= i < n - 1 && LastStoredAt(views, n - 1, i, k, nation, s.data[k].nations[nation]);
        assert LastStoredAt(views, n, i, k, nation, Run(views, n).data[k].nations[nation]);
      }
    }
  }

  /** The converse of `NationProvenance`: the count the last nation row
      naming a nation stores in a region's block is that nation's count
      for good. */
  lemma {:induction false} NationStored(views: seq<RowView>, n: nat, i: nat, k: string, nation: string, count: nat)
    requires i < n <= |views|
    requires forall j :: 0 <= j < |views| ==> Plausible(views[j])
    requires LastStoredAt(views, n, i, k, nation, count)
    ensures k in Run(views, n).data && nation in Run(views, n).data[k].nations
    ensures Run(views, n).data[k].nations[nation] == count
    decreases n
  {
    if n == i + 1 {
      RunInv(views, i);
    } else {
      NationStored(views, n - 1, i, k, nation, count);
      var s := Run(views, n - 1);
      var v := views[n - 1];
      StepKeepsTotals(s, v);
      if Run(views, n).data[k] != s.data[k] {
        StepStoresNation(s, v, k);
        assert !StoredAt(views, n - 1, k, nation, v.count);
      }
    }
  }

  /** A region's block ends with `count` stored for `nation` exactly when
      the last nation row naming that nation in the block has that count. */
  lemma NationCountIsLastStored(views: seq<RowView>, n: nat, k: string, nation: string, count: nat)
    requires n <= |views|
    requires forall j :: 0 <= j < |views| ==> Plausible(views[j])
    ensures (&& k in Run(views, n).data && nation in Run(views, n).data[k].nations
             && Run(views, n).data[k].nations[nation] == count)
        <==> exists i :: 0 <= i < n && LastStoredAt(views, n, i, k, nation, count)
  {
    if k in Run(views, n).data && nation in Run(views, n).data[k].nations {
      NationProvenance(views, n, k, nation);
    }
    if exists i :: 0 <= i < n && LastStoredAt(views, n, i, k, nation, count) {
      var i :| 0 <= i < n && LastStoredAt(views, n, i, k, nation, count);
      NationStored(views, n, i, k, nation, count);
    }
  }

  /** Every stored population is positive and no stop-list heading is ever
      stored as a nation: each stored name is column C of a nation row. */
  lemma NationsValid(rows: seq<seq<Option<string>>>, region: string, nation: string)
    requires WideEnough(rows)
    ensures region in NationalityData(rows) && nation in NationalityData(rows)[region].nations ==>
              NationalityData(rows)[region].nations[nation] > 0 && IsNationName(nation)
  {
    if region in NationalityData(rows) && nation in NationalityData(rows)[region].nations {
      StoredNationsValid(Views(rows), |rows|, region, nation);
    }
  }

  /** `NationsValid` on classified rows: on plausible views whose nation
      rows all name nations, every stored count is positive and every
      stored name a nation. */
  lemma {:induction false} StoredNationsValid(views: seq<RowView>, n: nat, k: string, nation: string)
    requires n <= |views|
    requires forall i :: 0 <= i < |views| ==> Plausible(views[i])
    requires forall i :: 0 <= i < |views| && views[i].nation ==> IsNationName(views[i].name)
    requires k in Run(views, n).data && nation in Run(views, n).data[k].nations
    ensures Run(views, n).data[k].nations[nation] > 0
    ensures IsNationName(nation)
  {
    RunInv(views, n);
    NationProvenance(views, n, k, nation);
  }

  /** Row `i` of the sheet passes the region test, is not a
      federal-district row, and is read while searching for a region. */
  ghost predicate RegionRowAt(rows: seq<seq<Option<string>>>, i: nat)
    requires WideEnough(rows) && i < |rows|
  {
    && IsRegionRow(ReadRow(rows[i]))
    && !IsFederalDistrictRow(ReadRow(rows[i]))
    && Run(Views(rows), i).mode == SearchingRegion
  }

  /** A region is in the result exactly when a region row naming it is read
      while searching for a region; its total is column D of the first
      such row. */
  lemma RegionsFromRegionRows(rows: seq<seq<Option<string>>>, region: string)
    requires WideEnough(rows)
    ensures region in NationalityData(rows) <==>
              exists i :: 0 <= i < |rows| && RegionRowAt(rows, i) && ReadRow(rows[i]).c.value == region
    ensures region in NationalityData(rows) ==>
              exists i :: 0 <= i < |rows|
                && RegionRowAt(rows, i)
                && ReadRow(rows[i]).c.value == region
                && region !in Run(Views(rows), i).data
                && Value(ReadRow(rows[i]).d.value) == NationalityData(rows)[region].total
  {
    var views := Views(rows);
    if region in NationalityData(rows) {
      RegionProvenance(views, |rows|, region);
      var i :| 0 <= i < |rows| && RegisteredAt(views, i, region, NationalityData(rows)[region].total);
      assert views[i] == Classify(ReadRow(rows[i]));
      assert RegionRowAt(rows, i);
    }
    if exists i :: 0 <= i < |rows| && RegionRowAt(rows, i) && ReadRow(rows[i]).c.value == region {
      var i :| 0 <= i < |rows| && RegionRowAt(rows, i) && ReadRow(rows[i]).c.value == region;
      assert views[i] == Classify(ReadRow(rows[i]));
      RegionRowRegisters(views, i, |rows|);
    }
  }

  /** Row `i` of the sheet passes the nation test, is not a
      federal-district row, names `nation` in column C with the positive
      count `count` in column D, and is read in the nation block of
      `region`. */
  ghost predicate NationRowAt(rows: seq<seq<Option<string>>>, i: nat, region: string, nation: string, count: nat)
    requires WideEnough(rows) && i < |rows|
  {
    && IsNationRow(ReadRow(rows[i]))
    && !IsFederalDistrictRow(ReadRow(rows[i]))
    && ReadRow(rows[i]).c.value == nation
    && Value(ReadRow(rows[i]).d.value) == count
    && count > 0
    && Run(Views(rows), i).mode == ReadingNations
    && Run(Views(rows), i).current == Some(region)
  }

  /** Row `i` is such a nation row and no later row is one for the same
      region and nation. */
  ghost predicate LastNationRowAt(rows: seq<seq<Option<string>>>, i: nat, region: string, nation: string, count: nat)
    requires WideEnough(rows) && i < |rows|
  {
    && NationRowAt(rows, i, region, nation, count)
    && forall j, c :: i < j < |rows| ==> !NationRowAt(rows, j, region, nation, c)
  }

  /** A sheet row is such a nation row exactly when its view stores that
      count. */
  lemma NationRowView(rows: seq<seq<Option<string>>>, i: nat, region: string, nation: string, count: nat)
    requires WideEnough(rows) && i < |rows|
    ensures NationRowAt(rows, i, region, nation, count) <==> StoredAt(Views(rows), i, region, nation, count)
  {
    assert Views(rows)[i] == Classify(ReadRow(rows[i]));
  }

  /** A sheet row is the last nation row for a nation exactly when its
      view is the last to store it. */
  lemma LastNationRowView(rows: seq<seq<Option<string>>>, i: nat, region: string, nation: string, count: nat)
    requires WideEnough(rows) && i < |rows|
    ensures LastNationRowAt(rows, i, region, nation, count)
        <==> LastStoredAt(Views(rows), |rows|, i, region, nation, count)
  {
    NationRowView(rows, i, region, nation, count);
    forall j, c | i < j < |rows|
      ensures NationRowAt(rows, j, region, nation, c) <==> StoredAt(Views(rows), j, region, nation, c)
    {
      NationRowView(rows, j, region, nation, c);
    }
  }

  /** A region's entry in the result holds `count` for `nation` exactly
      when the last nation row naming that nation in the region's nation
      block has that positive count in column D. */
  lemma NationsFromNationRows(rows: seq<seq<Option<string>>>, region: string, nation: string, count: nat)
    requires WideEnough(rows)
    ensures (&& region in NationalityData(rows) && nation in NationalityData(rows)[region].nations
             && NationalityData(rows)[region].nations[nation] == count)
        <==> exists i :: 0 <= i < |rows| && LastNationRowAt(rows, i, region, nation, count)
  {
    var views := Views(rows);
    NationCountIsLastStored(views, |rows|, region, nation, count);
    if exists i :: 0 <= i < |rows| && LastStoredAt(views, |rows|, i, region, nation, count) {
      var i :| 0 <= i < |rows| && LastStoredAt(views, |rows|, i, region, nation, count);
      LastNationRowView(rows, i, region, nation, count);
    }
    if exists i :: 0 <= i < |rows| && LastNationRowAt(rows, i, region, nation, count) {
      var i :| 0 <= i < |rows| && LastNationRowAt(rows, i, region, nation, count);
      LastNationRowView(rows, i, region, nation, count);
    }
  }

  // ---------------------------------------------------------------------
  // The loop of the source
  // ---------------------------------------------------------------------

  /** Lines 70-200 without the file reading and logging: one pass over the
      rows, one step per row. */
  method ReadNationalityData(rows: seq<seq<Option<string>>>) returns (data: map<string, RegionEntry>)
    requires WideEnough(rows)
    ensures data == NationalityData(rows)
    ensures forall k :: k in data ==> |k| > 3 && ValidNations(data[k])
  {
    var views := Views(rows);
    var s := Initial;
    var i := 0;
    while i < |rows|
      invariant 0 <= i <= |rows|
      invariant s == Run(views, i)
    {
      s := Step(s, views[i]);
      i := i + 1;
    }
    RunInv(views, |rows|);
    data := s.data;
  }

}
