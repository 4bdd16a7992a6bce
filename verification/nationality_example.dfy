/** A worked nationality sheet read end to end: a federal district, one
    region, the marker, two nation rows of which one has no population, and
    the blank row that ends the block. Each row is cleaned and classified by
    a lemma of its own, the machine is run on the classified rows, and the
    two are put together in `SheetRead`. */
module NationalityExample {
  import opened Options
  import opened Text
  import opened NationalityScanner

  /** Columns A to D of the sheet: a federal district, a region of 1000
      people, the marker, a nation of 800 and one of 0, a blank row. */
  const Sheet: seq<seq<Option<string>>> := [
    [None, Some("Южный федеральный округ"), None, None],
    [Some("1."), None, Some("Sample Region"), Some("1000")],
    [None, None, Some("Указавшие национальную"), None],
    [Some("1."), None, Some("Russians"), Some("800")],
    [Some("2."), None, Some("Tatars"), Some("0")],
    [None, None, None, None]
  ]

  // ---------------------------------------------------------------------
  // The sheet as a whole
  // ---------------------------------------------------------------------

  /** The worked example end to end: the region is stored with its total
      and the one nation with a positive count; "Tatars" with 0 is dropped. */
  lemma SheetRead()
    ensures NationalityData(Sheet) == map["Sample Region" := RegionEntry(1000, map["Russians" := 800])]
  {
    SheetViews(Sheet);
    SheetRun(Views(Sheet));
  }

  /** The machine on rows classified as the sheet's are: the region is
      registered with its total, the marker opens its block, the positive
      count is stored, the zero count is not, and the blank row closes the
      block. */
  lemma SheetRun(views: seq<RowView>)
    requires |views| == 6
    requires views[0].federalDistrict
    requires !views[1].federalDistrict && views[1].region && views[1].name == "Sample Region" && views[1].count == 1000
    requires !views[2].federalDistrict && views[2].marker
    requires !views[3].federalDistrict && views[3].nation && views[3].name == "Russians" && views[3].count == 800
    requires !views[4].federalDistrict && !views[4].blank && views[4].count == 0
    requires !views[5].federalDistrict && views[5].blank && !views[5].nation
    ensures Run(views, 6).data == map["Sample Region" := RegionEntry(1000, map["Russians" := 800])]
  {
    var e := RegionEntry(1000, map[]);
    assert Run(views, 1) == State(SearchingRegion, None, map[]);
    assert Run(views, 2) == State(SearchingNationMarker, Some("Sample Region"), map["Sample Region" := e]);
    assert Run(views, 3) == State(ReadingNations, Some("Sample Region"), map["Sample Region" := e]);
    var d := map["Sample Region" := RegionEntry(1000, map["Russians" := 800])];
    assert Run(views, 4) == State(ReadingNations, Some("Sample Region"), d);
    assert Run(views, 5) == State(ReadingNations, Some("Sample Region"), d);
  }

  /** How each row of the sheet is classified. */
  lemma SheetViews(rows: seq<seq<Option<string>>>)
    requires rows == Sheet
    ensures WideEnough(rows) && |Views(rows)| == 6
    ensures var views := Views(rows);
      && views[0].federalDistrict
      && !views[1].federalDistrict && views[1].region && views[1].name == "Sample Region" && views[1].count == 1000
      && !views[2].federalDistrict && views[2].marker
      && !views[3].federalDistrict && views[3].nation && views[3].name == "Russians" && views[3].count == 800
      && !views[4].federalDistrict && !views[4].blank && views[4].count == 0
      && !views[5].federalDistrict && views[5].blank && !views[5].nation
  {
    DistrictView(rows);
    RegionView(rows);
    MarkerView(rows);
    NationView(rows);
    ZeroView(rows);
    BlankView(rows);
  }

  // ---------------------------------------------------------------------
  // Each row's view
  // ---------------------------------------------------------------------

  lemma DistrictView(rows: seq<seq<Option<string>>>)
    requires WideEnough(rows) && |rows| == 6 && rows[0] == Sheet[0]
    ensures Views(rows)[0].federalDistrict
  {
    assert Views(rows)[0] == Classify(ReadRow(rows[0]));
    DistrictRow(rows[0]);
  }

  lemma RegionView(rows: seq<seq<Option<string>>>)
    requires WideEnough(rows) && |rows| == 6 && rows[1] == Sheet[1]
    ensures |Views(rows)| == 6
    ensures var v := Views(rows)[1];
      !v.federalDistrict && v.region && v.name == "Sample Region" && v.count == 1000
  {
    assert Views(rows)[1] == Classify(ReadRow(rows[1]));
    RegionRow(rows[1]);
  }

  lemma MarkerView(rows: seq<seq<Option<string>>>)
    requires WideEnough(rows) && |rows| == 6 && rows[2] == Sheet[2]
    ensures |Views(rows)| == 6
    ensures !Views(rows)[2].federalDistrict && Views(rows)[2].marker
  {
    assert Views(rows)[2] == Classify(ReadRow(rows[2]));
    MarkerRow(rows[2]);
  }

  lemma NationView(rows: seq<seq<Option<string>>>)
    requires WideEnough(rows) && |rows| == 6 && rows[3] == Sheet[3]
    ensures |Views(rows)| == 6
    ensures var v := Views(rows)[3];
      !v.federalDistrict && v.nation && v.name == "Russians" && v.count == 800
  {
    assert Views(rows)[3] == Classify(ReadRow(rows[3]));
    NationRow(rows[3]);
  }

  lemma ZeroView(rows: seq<seq<Option<string>>>)
    requires WideEnough(rows) && |rows| == 6 && rows[4] == Sheet[4]
    ensures |Views(rows)| == 6
    ensures var v := Views(rows)[4];
      !v.federalDistrict && !v.blank && v.count == 0
  {
    assert Views(rows)[4] == Classify(ReadRow(rows[4]));
    ZeroRow(rows[4]);
  }

  lemma BlankView(rows: seq<seq<Option<string>>>)
    requires WideEnough(rows) && |rows| == 6 && rows[5] == Sheet[5]
    ensures |Views(rows)| == 6
    ensures var v := Views(rows)[5];
      !v.federalDistrict && v.blank && !v.nation
  {
    assert Views(rows)[5] == Classify(ReadRow(rows[5]));
    BlankRow(rows[5]);
  }

  // ---------------------------------------------------------------------
  // Each row, cleaned and classified
  // ---------------------------------------------------------------------

  lemma DistrictRow(raw: seq<Option<string>>)
    requires raw == Sheet[0]
    ensures Classify(ReadRow(raw)).federalDistrict
  {
    var b := "Южный федеральный округ";
    NotSpace(b[0]);
    NotSpace(b[|b| - 1]);
    CleanStripped(b);
    DistrictTests(ReadRow(raw));
  }

  lemma DistrictTests(r: Row)
    requires r == Row(None, Some("Южный федеральный округ"), None, None)
    ensures IsFederalDistrictRow(r)
  {
    DistrictLower();
    DistrictPhrase("южный федеральный округ");
    MentionedAt(r.b, "южный федеральный округ", FederalDistrict, 6);
  }

  lemma DistrictPhrase(l: string)
    requires l == "южный " + FederalDistrict
    ensures |l| == 6 + |FederalDistrict| && l[6..6 + |FederalDistrict|] == FederalDistrict
  {
  }

  lemma DistrictLower()
    ensures Lower("Южный федеральный округ") == "южный федеральный округ"
  {
  }

  lemma RegionRow(raw: seq<Option<string>>)
    requires raw == Sheet[1]
    ensures ReadRow(raw) == Row(Some("1."), None, Some("Sample Region"), Some("1000"))
    ensures var v := Classify(ReadRow(raw));
      !v.federalDistrict && v.region && v.name == "Sample Region" && v.count == 1000
  {
    NotSpace('1');
    NotSpace('.');
    NotSpace('S');
    NotSpace('n');
    NotSpace('0');
    CleanStripped("1.");
    CleanStripped("Sample Region");
    CleanStripped("1000");
    RegionTests(ReadRow(raw));
  }

  lemma RegionTests(r: Row)
    requires r == Row(Some("1."), None, Some("Sample Region"), Some("1000"))
    ensures !IsFederalDistrictRow(r) && IsRegionRow(r) && Value(r.d.value) == 1000
  {
    assert "1."[1..] == ".";
    assert BeforeDot("1.") == "1";
    TooShortToContain(Lower("Sample Region"), FederalDistrict);
    TooShortToContain(Lower("Sample Region"), NationMarker);
    assert "1000"[..3] == "100" && "100"[..2] == "10" && "10"[..1] == "1";
    assert Value("1") == 1 && Value("10") == 10 && Value("100") == 100 && Value("1000") == 1000;
  }

  lemma MarkerRow(raw: seq<Option<string>>)
    requires raw == Sheet[2]
    ensures !Classify(ReadRow(raw)).federalDistrict && Classify(ReadRow(raw)).marker
  {
    var c := "Указавшие национальную";
    NotSpace(c[0]);
    NotSpace(c[|c| - 1]);
    CleanStripped(c);
    MarkerTests(ReadRow(raw));
  }

  lemma MarkerTests(r: Row)
    requires r == Row(None, None, Some("Указавшие национальную"), None)
    ensures !IsFederalDistrictRow(r) && IsMarkerRow(r)
  {
    MarkerLower();
    MarkerPhrases("указавшие национальную");
    MarkerMentions(r.c, "указавшие национальную");
  }

  lemma MarkerMentions(c: Option<string>, l: string)
    requires c.Some? && Lower(c.value) == l && |NationMarker| <= |l|
    requires l[0..|NationMarker|] == NationMarker && !Contains(l, FederalDistrict)
    ensures Mentions(c, NationMarker) && !Mentions(c, FederalDistrict)
  {
    MentionedAt(c, l, NationMarker, 0);
  }

  lemma MarkerPhrases(l: string)
    requires l == "указавшие национальную"
    ensures l[0..|NationMarker|] == NationMarker
    ensures !Contains(l, FederalDistrict)
  {
    HeadMissing(l, FederalDistrict);
  }

  lemma MarkerLower()
    ensures Lower("Указавшие национальную") == "указавшие национальную"
  {
  }

  lemma NationRow(raw: seq<Option<string>>)
    requires raw == Sheet[3]
    ensures var v := Classify(ReadRow(raw));
      !v.federalDistrict && v.nation && v.name == "Russians" && v.count == 800
  {
    NotSpace('1');
    NotSpace('.');
    NotSpace('R');
    NotSpace('s');
    NotSpace('8');
    NotSpace('0');
    CleanStripped("1.");
    CleanStripped("Russians");
    CleanStripped("800");
    NationTests(ReadRow(raw));
  }

  lemma NationTests(r: Row)
    requires r == Row(Some("1."), None, Some("Russians"), Some("800"))
    ensures !IsFederalDistrictRow(r) && IsNationRow(r) && Value(r.d.value) == 800
  {
    assert "1."[1..] == ".";
    assert BeforeDot("1.") == "1";
    TooShortToContain(Lower("Russians"), FederalDistrict);
    assert "800"[..2] == "80" && "80"[..1] == "8";
    assert Value("8") == 8 && Value("80") == 80 && Value("800") == 800;
  }

  lemma ZeroRow(raw: seq<Option<string>>)
    requires raw == Sheet[4]
    ensures var v := Classify(ReadRow(raw));
      !v.federalDistrict && !v.blank && v.count == 0
  {
    NotSpace('2');
    NotSpace('.');
    NotSpace('T');
    NotSpace('s');
    NotSpace('0');
    CleanStripped("2.");
    CleanStripped("Tatars");
    CleanStripped("0");
    TooShortToContain(Lower("Tatars"), FederalDistrict);
  }

  lemma BlankRow(raw: seq<Option<string>>)
    requires raw == Sheet[5]
    ensures var v := Classify(ReadRow(raw));
      !v.federalDistrict && v.blank && !v.nation
  {
  }
}
