/** A worked age/sex sheet read end to end: a region header, the
    urban-and-rural row that confirms it, one age row, and the blank row
    that ends the region. As for the nationality example, each row is
    classified by a lemma of its own and the machine is run on the
    classified rows. */
module AgeSexExample {
  import opened Options
  import opened Text
  import opened AgeGroups
  import opened AgeSexScanner

  /** Ten columns per row; only D, I and J are filled. */
  function SheetRow(d: Option<string>, i: Option<string>, j: Option<string>): seq<Option<string>> {
    [None, None, None, d, None, None, None, None, i, j]
  }

  /** The region the example sheet describes. */
  const Region := "Белгородская область"

  /** The sheet: header, confirming row, one age row, blank row. */
  const Sheet: seq<seq<Option<string>>> := [
    SheetRow(Some("Белгородская область"), None, None),
    SheetRow(Some("Городское и сельское население"), None, None),
    SheetRow(Some("0 - 4"), Some("120"), Some("130")),
    SheetRow(None, None, None)
  ]

  // ---------------------------------------------------------------------
  // The sheet as a whole
  // ---------------------------------------------------------------------

  /** The worked example end to end: the header starts the region and the
      one age row is stored under its label with both counts. */
  lemma SheetRead()
    ensures AgeSexData(Sheet) == map[Region := map["0 - 4" := Counts(120, 130)]]
  {
    SheetViews(Sheet);
    SheetRun(Views(Sheet));
  }

  /** The machine on rows classified as the sheet's are: the header opens
      the region, the confirming row changes nothing, the age row is stored
      and the blank row closes the region, which now has an entry. */
  lemma SheetRun(views: seq<RowView>)
    requires |views| == 4
    requires views[0].header && views[0].text == Region
    requires !views[1].header && !views[1].measured && !views[1].blank
    requires var v := views[2];
      && !v.header && v.measured && v.ageGroup && v.text == "0 - 4" && v.male == 120 && v.female == 130
    requires !views[3].header && !views[3].measured && views[3].blank
    ensures Run(views, 4).data == map[Region := map["0 - 4" := Counts(120, 130)]]
  {
    assert Run(views, 1) == State(true, Some(Region), map[Region := map[]]);
    assert Run(views, 2) == Run(views, 1);
    var d := map[Region := map["0 - 4" := Counts(120, 130)]];
    assert Run(views, 3) == State(true, Some(Region), d);
  }

  /** How each row of the sheet is classified. */
  lemma SheetViews(rows: seq<seq<Option<string>>>)
    requires rows == Sheet
    ensures WideEnough(rows) && |Views(rows)| == 4
    ensures var views := Views(rows);
      && views[0].header && views[0].text == Region
      && !views[1].header && !views[1].measured && !views[1].blank
      && !views[2].header && views[2].measured && views[2].ageGroup && views[2].text == "0 - 4"
      && views[2].male == 120 && views[2].female == 130
      && !views[3].header && !views[3].measured && views[3].blank
  {
    HeaderView(rows);
    ConfirmingView(rows);
    AgeView(rows);
    BlankView(rows);
  }

  // ---------------------------------------------------------------------
  // Each row's view
  // ---------------------------------------------------------------------

  lemma HeaderView(rows: seq<seq<Option<string>>>)
    requires WideEnough(rows) && |rows| == 4 && rows[0] == Sheet[0] && rows[1] == Sheet[1]
    ensures Views(rows)[0].header && Views(rows)[0].text == Region
  {
    assert Views(rows)[0] == Classify(ReadRow(rows[0]), Lookahead(rows[1]));
    HeaderCells(rows[0], rows[1]);
    HeaderTests(Region, "Городское и сельское население");
  }

  lemma ConfirmingView(rows: seq<seq<Option<string>>>)
    requires WideEnough(rows) && |rows| == 4 && rows[1] == Sheet[1] && rows[2] == Sheet[2]
    ensures !Views(rows)[1].header && !Views(rows)[1].measured && !Views(rows)[1].blank
  {
    assert Views(rows)[1] == Classify(ReadRow(rows[1]), Lookahead(rows[2]));
    AgeCells(rows[2]);
    TooShortToContain(Lower("0 - 4"), UrbanAndRural);
  }

  lemma AgeView(rows: seq<seq<Option<string>>>)
    requires WideEnough(rows) && |rows| == 4 && rows[2] == Sheet[2] && rows[3] == Sheet[3]
    ensures var v := Views(rows)[2];
      && !v.header && v.measured && v.ageGroup && v.text == "0 - 4" && v.male == 120 && v.female == 130
  {
    assert Views(rows)[2] == Classify(ReadRow(rows[2]), Lookahead(rows[3]));
    AgeCells(rows[2]);
    AgeTests(ReadRow(rows[2]));
    ExampleDocRange();
  }

  lemma BlankView(rows: seq<seq<Option<string>>>)
    requires WideEnough(rows) && |rows| == 4 && rows[3] == Sheet[3]
    ensures !Views(rows)[3].header && !Views(rows)[3].measured && Views(rows)[3].blank
  {
    assert Views(rows)[3] == Classify(ReadRow(rows[3]), None);
    BlankRowView(ReadRow(rows[3]), None);
  }

  // ---------------------------------------------------------------------
  // Each row, cleaned and classified
  // ---------------------------------------------------------------------

  /** The header's column D survives the cleaning, and so does the next
      row's column D under the look-ahead's `strip`. */
  lemma HeaderCells(raw: seq<Option<string>>, next: seq<Option<string>>)
    requires raw == Sheet[0] && next == Sheet[1]
    ensures ReadRow(raw).text == Some(Region)
    ensures Lookahead(next) == Some("Городское и сельское население")
  {
    NotSpace('Б');
    NotSpace('ь');
    CleanStripped(Region);
    var u := "Городское и сельское население";
    NotSpace('Г');
    NotSpace('е');
    assert u[..0] == [] && u[0..0 + |u|] == u && u[0 + |u|..] == [];
    StripPadded(u, 0, u);
  }

  lemma HeaderTests(d: string, next: string)
    requires d == Region && next == "Городское и сельское население"
    ensures IsRegionCandidate(Some(d)) && ConfirmsRegion(Some(next))
  {
    RegionNameTests(d);
    ConfirmTests(next);
  }

  lemma ConfirmTests(next: string)
    requires next == "Городское и сельское население"
    ensures ConfirmsRegion(Some(next))
  {
    UrbanLower();
    MentionedAt(Some(next), "городское и сельское население", UrbanAndRural, 0);
  }

  lemma RegionNameTests(d: string)
    requires d == Region
    ensures !HasDigit(FirstToken(d))
    ensures !Contains(Lower(d), InIncluding) && !Contains(Lower(d), AtAge)
    ensures ParseAgeGroup(d).None?
  {
    TokenDigitsFromText(d);
    RegionPhrases(Lower(d));
    NotSpace(d[0]);
    NotSpace(d[|d| - 1]);
    NoLeadingDigitNoAge(d);
  }

  lemma RegionPhrases(l: string)
    requires l == Lower(Region)
    ensures !Contains(l, InIncluding) && !Contains(l, AtAge)
  {
    RegionLower();
    HeadMissing(l, InIncluding);
    HeadMissing(l, AtAge);
  }

  lemma RegionLower()
    ensures Lower("Белгородская область") == "белгородская область"
  {
  }

  lemma UrbanLower()
    ensures Lower("Городское и сельское население") == "городское и сельское население"
  {
  }

  lemma AgeCells(raw: seq<Option<string>>)
    requires raw == Sheet[2]
    ensures ReadRow(raw) == Row(Some("0 - 4"), Some("120"), Some("130"))
    ensures Lookahead(raw) == Some("0 - 4")
  {
    NotSpace('0');
    NotSpace('4');
    NotSpace('1');
    CleanStripped("0 - 4");
    CleanStripped("120");
    CleanStripped("130");
  }

  lemma AgeTests(r: Row)
    requires r == Row(Some("0 - 4"), Some("120"), Some("130"))
    ensures IsMeasured(r)
    ensures Value(r.male.value) == 120 && Value(r.female.value) == 130
  {
    CountValues();
  }

  lemma CountValues()
    ensures Value("120") == 120 && Value("130") == 130
  {
    assert "120"[..2] == "12" && "12"[..1] == "1";
    assert "130"[..2] == "13" && "13"[..1] == "1";
    assert Value("1") == 1 && Value("12") == 12 && Value("13") == 13;
  }
}
