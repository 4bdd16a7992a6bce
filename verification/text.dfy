/** The pieces of Python's string handling that the census parser relies on:
    character classes, `str.isdigit`, `int(...)` of a digit string,
    `str.strip`, `str.lower`, the `in` substring test, `str.split()[0]`,
    `str.split('.')[0]` and the cell cleaning applied to every spreadsheet cell. */
module Text {
  import opened Options

  /** The `i`-th range of the characters Python's `str.isspace` accepts;
      `str.strip()`, `str.split()` and the regex class `\s` all use this
      set. */
  predicate InSpaceRange(c: char, i: nat) {
    match i
    case 0 => c == ' '
    case 1 => '\t' <= c <= '\r'
    case 2 => '\U{1C}' <= c <= '\U{1F}'
    case 3 => c == '\U{85}'
    case 4 => c == '\U{A0}'
    case 5 => c == '\U{1680}'
    case 6 => '\U{2000}' <= c <= '\U{200A}'
    case 7 => '\U{2028}' <= c <= '\U{2029}'
    case 8 => c == '\U{202F}'
    case 9 => c == '\U{205F}'
    case 10 => c == '\U{3000}'
    case _ => false
  }

  const SpaceRangeCount := 11

  /** `c` lies in one of the first `n` whitespace ranges. */
  predicate InSpaceRanges(c: char, n: nat) {
    n > 0 && (InSpaceRange(c, n - 1) || InSpaceRanges(c, n - 1))
  }

  predicate IsSpace(c: char) {
    InSpaceRanges(c, SpaceRangeCount)
  }

  /** A character is whitespace exactly when it lies in one of the ranges. */
  lemma SpaceChars(c: char)
    ensures IsSpace(c) <==> exists i :: 0 <= i < SpaceRangeCount && InSpaceRange(c, i)
  {
    SpaceRangesUpTo(c, SpaceRangeCount);
  }

  lemma {:induction false} SpaceRangesUpTo(c: char, n: nat)
    ensures InSpaceRanges(c, n) <==> exists i :: 0 <= i < n && InSpaceRange(c, i)
  {
    if n > 0 {
      SpaceRangesUpTo(c, n - 1);
      if InSpaceRange(c, n - 1) {
        assert exists i :: 0 <= i < n && InSpaceRange(c, i);
      }
    }
  }

  /** An ASCII decimal digit (the model's reading of `isdigit` and `\d`). */
  predicate IsDigit(c: char) {
    '0' <= c <= '9'
  }

  /** The character classes the parser scans runs of. */
  datatype CharClass = Digit | Space | NonSpace

  predicate In(c: char, k: CharClass) {
    match k
    case Digit => IsDigit(c)
    case Space => IsSpace(c)
    case NonSpace => !IsSpace(c)
  }

  predicate All(s: string, k: CharClass) {
    forall i :: 0 <= i < |s| ==> In(s[i], k)
  }

  /** Python's `s.isdigit()`: non-empty and made of digits only. */
  predicate IsDigitString(s: string) {
    |s| > 0 && All(s, Digit)
  }

  /** Where the run of class-`k` characters that starts at offset `from`
      of `s` ends: how far a greedy regex repetition such as `\d+` or `\s*`
      reaches. */
  function Skip(s: string, from: nat, k: CharClass): (e: nat)
    requires from <= |s|
    ensures from <= e <= |s|
    ensures All(s[from..e], k)
    ensures e < |s| ==> !In(s[e], k)
    decreases |s| - from
  {
    if from == |s| || !In(s[from], k) then from
    else
      var e := Skip(s, from + 1, k);
      assert s[from..e] == [s[from]] + s[from + 1..e];
      e
  }

  /** The end of a run is unique: a stretch of class-`k` characters from
      `from` that cannot be extended ends where `Skip` says. */
  lemma SkipUnique(s: string, from: nat, k: CharClass, e: nat)
    requires from <= e <= |s|
    requires All(s[from..e], k)
    requires e < |s| ==> !In(s[e], k)
    ensures Skip(s, from, k) == e
  {
    var f := Skip(s, from, k);
    forall j | from <= j < e ensures In(s[j], k) {
      assert s[from..e][j - from] == s[j];
    }
    forall j | from <= j < f ensures In(s[j], k) {
      assert s[from..f][j - from] == s[j];
    }
  }

  lemma AllPrefix(s: string, k: CharClass, n: nat)
    requires All(s, k) && n <= |s|
    ensures All(s[..n], k)
  {
  }

  /** Printable ASCII (digits included), the Latin-1 letters, Cyrillic
      and the dashes U+2010 to U+2015 are not whitespace. */
  lemma NotSpace(c: char)
    requires || ('!' <= c <= '\U{84}')
             || ('\U{A1}' <= c <= '\U{167F}')
             || ('\U{200B}' <= c <= '\U{2027}')
    ensures !IsSpace(c)
  {
    SpaceChars(c);
  }

  /** The blank and the ASCII control whitespace `\t` to `\r` (newline
      among them) are whitespace. */
  lemma AsciiSpace(c: char)
    requires c == ' ' || '\t' <= c <= '\r'
    ensures IsSpace(c)
  {
    if c == ' ' {
      assert InSpaceRange(c, 0);
    } else {
      assert InSpaceRange(c, 1);
    }
    SpaceChars(c);
  }

  lemma SpaceIsNotDigit(c: char)
    ensures IsSpace(c) ==> !IsDigit(c)
  {
    if IsDigit(c) {
      NotSpace(c);
    }
  }

  function DigitValue(c: char): (v: nat)
    requires IsDigit(c)
    ensures v < 10
  {
    c as int - '0' as int
  }

  /** Python's `int(s)` for a string of ASCII digits. */
  function Value(s: string): nat
    requires All(s, Digit)
  {
    if |s| == 0 then 0
    else
      AllPrefix(s, Digit, |s| - 1);
      10 * Value(s[..|s| - 1]) + DigitValue(s[|s| - 1])
  }

  function DigitChar(d: nat): (c: char)
    requires d < 10
    ensures IsDigit(c) && DigitValue(c) == d
  {
    ('0' as int + d) as char
  }

  /** Python's `str(n)` for a non-negative integer. */
  function NatToString(n: nat): (s: string)
    ensures IsDigitString(s)
    ensures Value(s) == n
    decreases n
  {
    if n < 10 then
      var s := [DigitChar(n)];
      assert s[..0] == [];
      s
    else
      var p := NatToString(n / 10);
      var s := p + [DigitChar(n % 10)];
      assert s[..|s| - 1] == p;
      s
  }

  /** Python's `str(n)` for any integer: a minus sign before the magnitude. */
  function IntToString(n: int): string {
    if n < 0 then "-" + NatToString(-n) else NatToString(n)
  }

  /** No leading and no trailing whitespace: what `str.strip()` returns. */
  predicate IsStripped(s: string) {
    |s| == 0 || (!IsSpace(s[0]) && !IsSpace(s[|s| - 1]))
  }

  /** Where the run of class-`k` characters that ends at offset `to` of
      `s` starts: `Skip` read from right to left. */
  function SkipBack(s: string, to: nat, k: CharClass): (b: nat)
    requires to <= |s|
    ensures b <= to
    ensures All(s[b..to], k)
    ensures 0 < b ==> !In(s[b - 1], k)
  {
    if to == 0 || !In(s[to - 1], k) then to
    else
      var b := SkipBack(s, to - 1, k);
      assert s[b..to] == s[b..to - 1] + [s[to - 1]];
      b
  }

  /** The start of a run is unique, as its end is for `Skip`. */
  lemma SkipBackUnique(s: string, to: nat, k: CharClass, b: nat)
    requires b <= to <= |s|
    requires All(s[b..to], k)
    requires 0 < b ==> !In(s[b - 1], k)
    ensures SkipBack(s, to, k) == b
  {
    var c := SkipBack(s, to, k);
    forall j | b <= j < to ensures In(s[j], k) {
      assert s[b..to][j - b] == s[j];
    }
    forall j | c <= j < to ensures In(s[j], k) {
      assert s[c..to][j - c] == s[j];
    }
  }

  /** `s` is `r` surrounded by whitespace that starts at offset `i`. */
  ghost predicate Padded(s: string, i: int, r: string) {
    && 0 <= i && i + |r| <= |s|
    && s[i..i + |r|] == r
    && All(s[..i], Space)
    && All(s[i + |r|..], Space)
  }

  /** Python's `str.strip()` with no argument. */
  function Strip(s: string): (r: string)
    ensures IsStripped(r)
    ensures Padded(s, Skip(s, 0, Space), r)
  {
    var i := Skip(s, 0, Space);
    if i == |s| then
      assert s[..i] == s;
      ""
    else
      var e := SkipBack(s, |s|, Space);
      assert !In(s[i], Space);
      var r := s[i..e];
      assert s[..i] == s[0..i] && s[i + |r|..] == s[e..|s|];
      assert r[0] == s[i] && r[|r| - 1] == s[e - 1];
      r
  }

  /** Stripping is determined by the padding: whatever whitespace surrounds a
      stripped text, `strip` gives that text back. */
  lemma {:induction false} StripPadded(s: string, i: int, r: string)
    requires Padded(s, i, r)
    requires IsStripped(r)
    ensures Strip(s) == r
  {
    if |r| == 0 {
      assert s[0..|s|] == s[..i] + s[i..];
      SkipUnique(s, 0, Space, |s|);
    } else {
      PaddingBounds(s, i, r);
    }
  }

  /** Around a non-empty stripped text, the leading whitespace ends where
      the text starts and the trailing whitespace starts where it ends. */
  lemma PaddingBounds(s: string, i: int, r: string)
    requires Padded(s, i, r)
    requires IsStripped(r) && |r| > 0
    ensures Skip(s, 0, Space) == i
    ensures SkipBack(s, |s|, Space) == i + |r|
  {
    PaddedEnds(s, i, r);
    SkipUnique(s, 0, Space, i);
    SkipBackUnique(s, |s|, Space, i + |r|);
  }

  /** The padding, and the first and last character of the padded text, as
      offsets into `s`. */
  lemma PaddedEnds(s: string, i: int, r: string)
    requires Padded(s, i, r) && |r| > 0
    ensures All(s[0..i], Space) && All(s[i + |r|..|s|], Space)
    ensures s[i] == r[0] && s[i + |r| - 1] == r[|r| - 1]
  {
    assert s[0..i] == s[..i];
    assert s[i + |r|..|s|] == s[i + |r|..];
    assert s[i..i + |r|][0] == s[i];
    assert s[i..i + |r|][|r| - 1] == s[i + |r| - 1];
  }

  /** Python's `str.lower()` on ASCII and the basic Cyrillic block
      (U+0400 to U+042F); every other character is left as it is. */
  function LowerChar(c: char): char {
    if 'A' <= c <= 'Z' || '\U{410}' <= c <= '\U{42F}' then (c as int + 32) as char
    else if '\U{400}' <= c <= '\U{40F}' then (c as int + 80) as char
    else c
  }

  /** Lower-casing keeps the length, and lower-cased text has nothing
      left to lower. */
  function Lower(s: string): (r: string)
    ensures |r| == |s|
    ensures forall i :: 0 <= i < |r| ==> LowerChar(r[i]) == r[i]
  {
    seq(|s|, i requires 0 <= i < |s| => LowerChar(s[i]))
  }

  /** The character at `i` of the lower-cased text. */
  lemma LowerAt(s: string, i: nat)
    requires i < |s|
    ensures Lower(s)[i] == LowerChar(s[i])
  {
  }

  /** `p` occurs in `s` starting at offset `i`. */
  ghost predicate OccursAt(s: string, p: string, i: int) {
    0 <= i && i + |p| <= |s| && s[i..i + |p|] == p
  }

  /** Python's `p in s` for strings, as a left-to-right scan. */
  predicate Contains(s: string, p: string) {
    p <= s || (|s| > 0 && Contains(s[1..], p))
  }

  /** Every occurrence is found by the scan. */
  lemma {:induction false} OccursContained(s: string, p: string, i: int)
    requires OccursAt(s, p, i)
    ensures Contains(s, p)
    decreases i
  {
    if i == 0 {
      assert s[..|p|] == p;
    } else {
      assert s[1..][i - 1..i - 1 + |p|] == s[i..i + |p|];
      OccursContained(s[1..], p, i - 1);
    }
  }

  /** What the scan finds is an occurrence. */
  lemma {:induction false} ContainedOccurs(s: string, p: string)
    requires Contains(s, p)
    ensures exists i :: OccursAt(s, p, i)
  {
    if p <= s {
      assert s[..|p|] == p;
      assert OccursAt(s, p, 0);
    } else {
      ContainedOccurs(s[1..], p);
      var i :| OccursAt(s[1..], p, i);
      assert s[i + 1..i + 1 + |p|] == s[1..][i..i + |p|];
      assert OccursAt(s, p, i + 1);
    }
  }

  /** The scan finds `p` exactly when `p` occurs somewhere in `s`. */
  lemma ContainsOccurs(s: string, p: string)
    ensures Contains(s, p) <==> exists i :: OccursAt(s, p, i)
  {
    if Contains(s, p) {
      ContainedOccurs(s, p);
    }
    forall i | OccursAt(s, p, i) ensures Contains(s, p) {
      OccursContained(s, p, i);
    }
  }

  /** Python's truthiness of a cleaned cell: present and non-empty. */
  predicate Truthy(c: Option<string>) {
    c.Some? && |c.value| > 0
  }

  /** A phrase longer than the text does not occur in it. */
  lemma {:induction false} TooShortToContain(s: string, p: string)
    requires |s| < |p|
    ensures !Contains(s, p)
  {
    if |s| > 0 {
      TooShortToContain(s[1..], p);
    }
  }

  /** A phrase whose first character is absent from the text does not occur
      in it. */
  lemma {:induction false} HeadMissing(s: string, p: string)
    requires |p| > 0 && p[0] !in s
    ensures !Contains(s, p)
  {
    if |s| > 0 {
      assert s[0] in s;
      HeadMissing(s[1..], p);
    }
  }

  /** A cell whose lower-case form has `p` at offset `i` mentions `p`. */
  lemma MentionedAt(cell: Option<string>, lower: string, p: string, i: nat)
    requires cell.Some? && Lower(cell.value) == lower
    requires |p| > 0 && i + |p| <= |lower| && lower[i..i + |p|] == p
    ensures Mentions(cell, p)
  {
    OccursContained(lower, p, i);
  }

  /** A text that is already stripped and has no line break comes out of
      the cleaning unchanged. */
  lemma CleanStripped(s: string)
    requires IsStripped(s) && '\n' !in s
    ensures Strip(s) == s && Clean(s) == s
  {
    assert ReplaceNewlines(s) == s;
    assert s[..0] == [] && s[0..0 + |s|] == s && s[0 + |s|..] == [];
    StripPadded(s, 0, s);
  }

  /** `cell and phrase in cell.lower()`: the cell holds text whose
      lower-case form contains `phrase`. */
  predicate Mentions(cell: Option<string>, phrase: string) {
    Truthy(cell) && Contains(Lower(cell.value), phrase)
  }

  /** `cell and cell.isdigit()`: the cell holds a count. */
  predicate IsCount(cell: Option<string>) {
    Truthy(cell) && IsDigitString(cell.value)
  }

  /** `s.replace('\n', ' ')`. */
  function ReplaceNewlines(s: string): (r: string)
    ensures |r| == |s|
    ensures '\n' !in r
    ensures '\n' !in s ==> r == s
  {
    seq(|s|, i requires 0 <= i < |s| => if s[i] == '\n' then ' ' else s[i])
  }

  /** The cleaning every cell gets before any test:
      `str(v).replace('\n', ' ').strip()`. */
  function Clean(s: string): string {
    Strip(ReplaceNewlines(s))
  }

  /** A missing cell stays missing; a present one is cleaned. */
  function CleanCell(c: Option<string>): Option<string> {
    match c
    case None => None
    case Some(v) => Some(Clean(v))
  }

  /** A cleaned cell survives a second cleaning unchanged, so the
      `replace('\n', ' ').strip()` the parser applies again to a region or
      nation name before storing it returns that name as it is. */
  lemma CleanIdempotent(s: string)
    ensures Clean(Clean(s)) == Clean(s)
  {
    var r := Clean(s);
    var u := ReplaceNewlines(s);
    assert Padded(u, Skip(u, 0, Space), r);
    assert forall i :: 0 <= i < |r| ==> r[i] == u[Skip(u, 0, Space) + i];
    assert ReplaceNewlines(r) == r;
    StripPadded(r, 0, r);
  }

  /** `s.split('.')[0]`: everything before the first full stop. */
  function BeforeDot(s: string): (r: string)
    ensures r <= s
    ensures '.' !in r
    ensures |r| < |s| ==> s[|r|] == '.'
  {
    if |s| == 0 || s[0] == '.' then ""
    else [s[0]] + BeforeDot(s[1..])
  }

  /** `s.split()[0]` for a string with some non-space character: the first
      whitespace-delimited token. */
  function FirstToken(s: string): (r: string)
    ensures All(r, NonSpace)
  {
    var i := Skip(s, 0, Space);
    s[i..Skip(s, i, NonSpace)]
  }

  predicate HasDigit(s: string) {
    exists i :: 0 <= i < |s| && IsDigit(s[i])
  }

  /** The first token is part of the text, so a text without digits has a
      first token without digits. */
  lemma TokenDigitsFromText(s: string)
    requires !HasDigit(s)
    ensures !HasDigit(FirstToken(s))
  {
    var i := Skip(s, 0, Space);
    var e := Skip(s, i, NonSpace);
    forall k | 0 <= k < e - i
      ensures !IsDigit(FirstToken(s)[k])
    {
      assert FirstToken(s)[k] == s[i + k];
    }
  }

}
