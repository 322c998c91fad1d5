/**
 * House-number standardisation (`cim_standardizalas`): `hrsz` (lot number)
 * addresses and addresses without a street are moved into the street column,
 * and every remaining house number is cut at its building keyword, freed of
 * `/` and of dashes outside number ranges, has its letters separated from the
 * numbers, is collapsed, stripped and upper-cased.
 */
module Cim {
  import opened Util
  import opened Text
  import opened Regex

  /** Only a word that matches the building-part keywords. */
  function W(w: string): Alt { Alt(w, false) }

  /**
   * `\s*(épület|epulet|l[eé]pcs[őo]h[áa]z|lph\.?|lh\.?|emelet|ajt[óo]|szint|building)\b.*$`,
   * ignoring case, with the character classes spelled out; the spellings of
   * one class never match at the same place, so their order does not matter.
   */
  const KeywordCut: Rule := KeywordTail([
    W("épület"), W("epulet"),
    W("lepcsohaz"), W("lepcsoház"), W("lepcsőhaz"), W("lepcsőház"),
    W("lépcsohaz"), W("lépcsoház"), W("lépcsőhaz"), W("lépcsőház"),
    Alt("lph", true), Alt("lh", true),
    W("emelet"), W("ajtó"), W("ajto"), W("szint"), W("building")
  ])

  /** `\bhrsz\b`, ignoring case. */
  const Hrsz: Rule := Words([W("hrsz")], "")

  lemma RulesWellFormed()
    ensures WellFormed(KeywordCut) && WellFormed(Hrsz)
  {
  }

  /** The standardisation of one non-blank house number. */
  function StandardCim(c: string): string {
    RulesWellFormed();
    var s1 := SubAll(KeywordCut, Strip(c));
    var s2 := BlankOut(s1, {'/'});
    var s3 := DashToSpace(s2);
    var s4 := SpaceDigitLetter(s3);
    ToUpper(Strip(Collapse(s4)))
  }

  // ----- What a standardised house number looks like -----

  /** Single blanks only, no whitespace at either end, upper-case. */
  lemma StandardShape(c: string)
    ensures SingleSpaced(StandardCim(c)) && Stripped(StandardCim(c)) && IsUpperCased(StandardCim(c))
  {
    RulesWellFormed();
    var s4 := SpaceDigitLetter(DashToSpace(BlankOut(SubAll(KeywordCut, Strip(c)), {'/'})));
    CollapseSingleSpaced(s4);
    StripKeepsSingleSpaced(Collapse(s4));
    ToUpperKeepsShape(Strip(Collapse(s4)));
  }

  /** `a` directly followed by `b` somewhere in `s`. */
  ghost predicate PairIn(s: string, a: char, b: char) {
    exists j :: 0 <= j < |s| - 1 && s[j] == a && s[j + 1] == b
  }

  /** Every `-` of `s` has a digit on both sides. */
  predicate DashesInRanges(s: string) {
    forall k {:trigger DigitDash(s, k)} :: 0 <= k < |s| && s[k] == '-' ==> DigitDash(s, k)
  }

  /** No digit of `s` is directly followed by a letter. */
  predicate LettersApart(s: string) {
    forall k :: 0 <= k < |s| ==> !DigitLetter(s, k)
  }

  /**
   * After the dash rewrite every dash lies in a number range, and a dash with
   * a digit on both sides stays where it is (`112-114` is kept, `31-B`
   * becomes `31 B`).
   */
  lemma DashToSpaceRanges(s: string)
    ensures DashesInRanges(DashToSpace(s))
    ensures forall k :: 0 <= k < |s| && DigitDash(s, k) ==> DigitDash(DashToSpace(s), k)
    ensures forall k :: 0 <= k < |s| && s[k] == '-' && !DigitDash(s, k) ==> DashToSpace(s)[k] == ' '
  {
    var r := DashToSpace(s);
    forall k | 0 <= k < |s| && DigitDash(s, k) ensures DigitDash(r, k) {
      assert r[k - 1] == s[k - 1] && r[k + 1] == s[k + 1];
    }
    forall k | 0 <= k < |r| && r[k] == '-' ensures DigitDash(r, k) {
      assert DigitDash(s, k);
      assert r[k - 1] == s[k - 1] && r[k + 1] == s[k + 1];
    }
  }

  /**
   * Every adjacent pair of the text with the blanks inserted is an adjacent
   * pair of the original, or a digit then a blank, or a blank then a letter.
   */
  lemma {:induction false} SpaceDigitLetterPairs(s: string)
    ensures var r := SpaceDigitLetter(s);
            forall k :: 0 <= k < |r| - 1 ==>
              PairIn(s, r[k], r[k + 1]) || (IsDigit(r[k]) && r[k + 1] == ' ') || (r[k] == ' ' && IsLetter(r[k + 1]))
  {
    if s != [] {
      var n := |s| - 1;
      SpaceDigitLetterPairs(s[..n]);
      SpaceDigitLetterShape(s[..n]);
      var r0 := SpaceDigitLetter(s[..n]);
      var r := SpaceDigitLetter(s);
      var tail := if n > 0 && IsDigit(s[n - 1]) && IsLetter(s[n]) then [' ', s[n]] else [s[n]];
      assert r == r0 + tail;
      forall k | 0 <= k < |r| - 1
        ensures PairIn(s, r[k], r[k + 1]) || (IsDigit(r[k]) && r[k + 1] == ' ') || (r[k] == ' ' && IsLetter(r[k + 1]))
      {
        if k + 1 < |r0| {
          assert r[k] == r0[k] && r[k + 1] == r0[k + 1];
          if PairIn(s[..n], r0[k], r0[k + 1]) {
            var j :| 0 <= j < n - 1 && s[..n][j] == r0[k] && s[..n][j + 1] == r0[k + 1];
            assert s[j] == r[k] && s[j + 1] == r[k + 1];
          }
        } else if k + 1 == |r0| {
          assert r[k] == s[n - 1];
          if |tail| == 1 {
            assert s[n - 1] == r[k] && s[n] == r[k + 1];
          }
        }
      }
    }
  }

  /** A text whose dashes all lie in number ranges neither starts nor ends with a dash. */
  lemma RangesEnds(s: string)
    requires DashesInRanges(s) && |s| > 0
    ensures s[0] != '-' && s[|s| - 1] != '-'
  {
    assert !DigitDash(s, 0) && !DigitDash(s, |s| - 1);
  }

  /** Inserting the blanks keeps every dash in a number range. */
  lemma SpaceDigitLetterRanges(s: string)
    requires DashesInRanges(s)
    ensures DashesInRanges(SpaceDigitLetter(s))
  {
    var r := SpaceDigitLetter(s);
    SpaceDigitLetterPairs(s);
    SpaceDigitLetterShape(s);
    if s != [] { RangesEnds(s); }
    forall k | 0 <= k < |r| && r[k] == '-' ensures DigitDash(r, k) {
      assert PairIn(s, r[k - 1], r[k]);
      var j :| 0 <= j < |s| - 1 && s[j] == r[k - 1] && s[j + 1] == r[k];
      assert DigitDash(s, j + 1);
      assert PairIn(s, r[k], r[k + 1]);
      var j2 :| 0 <= j2 < |s| - 1 && s[j2] == r[k] && s[j2 + 1] == r[k + 1];
      assert DigitDash(s, j2);
    }
  }

  /** Collapsing whitespace keeps every dash in a number range. */
  lemma CollapseRanges(s: string)
    requires DashesInRanges(s)
    ensures DashesInRanges(Collapse(s))
  {
    var r := Collapse(s);
    CollapsePairs(s);
    if s != [] {
      CollapseFirst(s);
      CollapseLast(s);
      RangesEnds(s);
    }
    forall k | 0 <= k < |r| && r[k] == '-' ensures DigitDash(r, k) {
      assert NeighboursIn(s, r[k - 1], r[k]);
      var j :| 0 <= j < |s| - 1 && Blank(s[j]) == r[k - 1] && Blank(s[j + 1]) == r[k];
      assert DigitDash(s, j + 1);
      assert NeighboursIn(s, r[k], r[k + 1]);
      var j2 :| 0 <= j2 < |s| - 1 && Blank(s[j2]) == r[k] && Blank(s[j2 + 1]) == r[k + 1];
      assert DigitDash(s, j2);
    }
  }

  /** Stripping keeps every dash in a number range. */
  lemma StripRanges(s: string)
    requires DashesInRanges(s)
    ensures DashesInRanges(Strip(s))
  {
    SliceRanges(s, Strip(s), LeadingSpaces(s));
  }

  /** A slice cut off between whitespace keeps every dash in a number range. */
  lemma SliceRanges(s: string, r: string, l: nat)
    requires DashesInRanges(s)
    requires l + |r| <= |s| && r == s[l..l + |r|]
    requires forall j :: 0 <= j < l ==> IsSpace(s[j])
    requires forall j :: l + |r| <= j < |s| ==> IsSpace(s[j])
    ensures DashesInRanges(r)
  {
    forall k | 0 <= k < |r| && r[k] == '-' ensures DigitDash(r, k) {
      assert s[l + k] == r[k];
      StripRangeAt(s, l, r, k);
    }
  }

  /** A dash of the slice lies between two digits of it, since its neighbours in `s` are not whitespace. */
  lemma StripRangeAt(s: string, l: nat, r: string, k: nat)
    requires l + |r| <= |s| && r == s[l..l + |r|]
    requires forall j :: 0 <= j < l ==> IsSpace(s[j])
    requires forall j :: l + |r| <= j < |s| ==> IsSpace(s[j])
    requires k < |r| && DigitDash(s, l + k)
    ensures DigitDash(r, k)
  {
    var j := l + k;
    assert !IsSpace(s[j - 1]) && !IsSpace(s[j + 1]);
    assert l <= j - 1 && j + 1 < l + |r|;
    assert r[k - 1] == s[j - 1] && r[k + 1] == s[j + 1];
  }

  /** Upper-casing keeps every dash in a number range. */
  lemma UpperRanges(s: string)
    requires DashesInRanges(s)
    ensures DashesInRanges(ToUpper(s))
  {
    var r := ToUpper(s);
    forall k | 0 <= k < |r| && r[k] == '-' ensures DigitDash(r, k) {
      assert DigitDash(s, k);
    }
  }

  /** Every dash left in a standardised house number lies between two digits. */
  lemma StandardDashes(c: string)
    ensures DashesInRanges(StandardCim(c))
  {
    RulesWellFormed();
    var s3 := DashToSpace(BlankOut(SubAll(KeywordCut, Strip(c)), {'/'}));
    DashToSpaceRanges(BlankOut(SubAll(KeywordCut, Strip(c)), {'/'}));
    var s4 := SpaceDigitLetter(s3);
    SpaceDigitLetterRanges(s3);
    CollapseRanges(s4);
    StripRanges(Collapse(s4));
    UpperRanges(Strip(Collapse(s4)));
  }

  /**
   * A number range of a house number without a building keyword survives the
   * standardisation with its two digits: `112-114` stays `112-114`.
   */
  lemma {:induction false} StandardKeepsRange(c: string, j: nat)
    requires NoKeyword(Strip(c))
    requires DigitDash(Strip(c), j)
    ensures exists m: nat :: DigitDash(StandardCim(c), m) && StandardCim(c)[m - 1] == Strip(c)[j - 1] && StandardCim(c)[m + 1] == Strip(c)[j + 1]
  {
    RulesWellFormed();
    var s0 := Strip(c);
    var s4 := SpaceDigitLetter(DashToSpace(BlankOut(SubAll(KeywordCut, s0), {'/'})));
    var p := RewritesKeepRange(s0, j);
    var m := FinishKeepsRange(s4, p);
    assert StandardCim(c) == ToUpper(Strip(Collapse(s4)));
  }

  /** The keyword cut, the `/` and dash rewrites and the inserted blanks keep a range of a text without a keyword. */
  lemma {:induction false} RewritesKeepRange(s0: string, j: nat) returns (p: nat)
    requires NoKeyword(s0)
    requires DigitDash(s0, j)
    ensures WellFormed(KeywordCut)
    ensures RangeBetween(SpaceDigitLetter(DashToSpace(BlankOut(SubAll(KeywordCut, s0), {'/'}))), p, s0[j - 1], s0[j + 1])
  {
    RulesWellFormed();
    KeywordCutAbsent(s0);
    p := BlankingKeepsRange(s0, j);
  }

  /** Collapsing whitespace keeps digits apart from letters. */
  lemma CollapseLettersApart(s: string)
    requires LettersApart(s)
    ensures LettersApart(Collapse(s))
  {
    var r := Collapse(s);
    CollapsePairs(s);
    forall k | 0 <= k < |r| ensures !DigitLetter(r, k) {
      if k + 1 < |r| {
        assert NeighboursIn(s, r[k], r[k + 1]);
        var j :| 0 <= j < |s| - 1 && Blank(s[j]) == r[k] && Blank(s[j + 1]) == r[k + 1];
        assert !DigitLetter(s, j);
      }
    }
  }

  /** Stripping keeps digits apart from letters. */
  lemma StripLettersApart(s: string)
    requires LettersApart(s)
    ensures LettersApart(Strip(s))
  {
    SliceLettersApart(s, Strip(s), LeadingSpaces(s));
  }

  /** Any slice keeps digits apart from letters. */
  lemma SliceLettersApart(s: string, r: string, l: nat)
    requires LettersApart(s)
    requires l + |r| <= |s| && r == s[l..l + |r|]
    ensures LettersApart(r)
  {
    forall k | 0 <= k < |r| ensures !DigitLetter(r, k) {
      if k + 1 < |r| {
        assert r[k] == s[l + k] && r[k + 1] == s[l + k + 1];
        assert !DigitLetter(s, l + k);
      }
    }
  }

  /** Upper-casing keeps digits apart from letters. */
  lemma UpperLettersApart(s: string)
    requires LettersApart(s)
    ensures LettersApart(ToUpper(s))
  {
    var r := ToUpper(s);
    forall k | 0 <= k < |r| ensures !DigitLetter(r, k) {
      assert !DigitLetter(s, k);
    }
  }

  /** No digit of a standardised house number is directly followed by a letter. */
  lemma StandardLettersApart(c: string)
    ensures LettersApart(StandardCim(c))
  {
    RulesWellFormed();
    var s3 := DashToSpace(BlankOut(SubAll(KeywordCut, Strip(c)), {'/'}));
    var s4 := SpaceDigitLetter(s3);
    SpaceDigitLetterShape(s3);
    CollapseLettersApart(s4);
    StripLettersApart(Collapse(s4));
    UpperLettersApart(Strip(Collapse(s4)));
  }

  /** No character of `s` is a `/`. */
  predicate NoSlash(s: string) {
    forall k :: 0 <= k < |s| ==> s[k] != '/'
  }

  lemma SpaceDigitLetterNoSlash(s: string)
    requires NoSlash(s)
    ensures NoSlash(SpaceDigitLetter(s))
  {
    SpaceDigitLetterChars(s);
  }

  lemma CollapseNoSlash(s: string)
    requires NoSlash(s)
    ensures NoSlash(Collapse(s))
  {
    var co := Collapse(s);
    CollapseChars(s);
    forall k | 0 <= k < |co| ensures co[k] != '/' {
      var j :| 0 <= j < |s| && Blank(s[j]) == co[k];
    }
  }

  lemma StripUpperNoSlash(s: string)
    requires NoSlash(s)
    ensures NoSlash(ToUpper(Strip(s)))
  {
    var st := Strip(s);
    forall k | 0 <= k < |st| ensures st[k] != '/' {
      assert st[k] == s[LeadingSpaces(s) + k];
    }
    UpperNoSlash(st);
  }

  lemma UpperNoSlash(t: string)
    requires NoSlash(t)
    ensures NoSlash(ToUpper(t))
  {
    var u := ToUpper(t);
    forall k | 0 <= k < |u| ensures u[k] != '/' {
      assert u[k] == Upper(t[k]);
    }
  }

  /** No `/` is left in a standardised house number. */
  lemma StandardNoSlash(c: string)
    ensures NoSlash(StandardCim(c))
  {
    RulesWellFormed();
    var s3 := DashToSpace(BlankOut(SubAll(KeywordCut, Strip(c)), {'/'}));
    var s4 := SpaceDigitLetter(s3);
    SpaceDigitLetterNoSlash(s3);
    CollapseNoSlash(s4);
    StripUpperNoSlash(Collapse(s4));
  }

  /**
   * A keyword match runs to the end of the text, or to a final newline,
   * before which `$` also holds.
   */
  lemma KeywordCutEnd(s: string, i: nat)
    requires i < |s| && MatchAt(KeywordCut, s, i).Some?
    ensures MatchAt(KeywordCut, s, i).value.1 == if s[|s| - 1] == '\n' then |s| - 1 else |s|
  {
    RulesWellFormed();
    var j := SpaceRunEnd(s, i);
    var k := FirstAlt(s, j, KeywordCut.keys).value;
    FirstAltEndsAtBoundary(s, j, KeywordCut.keys);
    assert EndAnchor(s, DotStarEnd(s, k).value);
    if s[|s| - 1] == '\n' {
      assert k < |s| by {
        assert Boundary(s, k) && !IsWord(s[|s| - 1]);
      }
    }
  }

  /**
   * The keyword cut removes the leftmost building-part keyword, with the
   * whitespace before it, and everything after it; only a final newline,
   * before which `$` also holds, is kept.
   */
  lemma KeywordCutLeftmost(s: string, i: nat)
    requires i < |s|
    requires MatchAt(KeywordCut, s, i).Some?
    requires forall k :: 0 <= k < i ==> MatchAt(KeywordCut, s, k).None?
    ensures SubAll(KeywordCut, s) == s[..i] + (if s[|s| - 1] == '\n' then "\n" else [])
  {
    RulesWellFormed();
    KeywordCutEnd(s, i);
    SubFirstMatch(KeywordCut, s, i);
    if s[|s| - 1] == '\n' {
      KeywordCutFinalNewline(s);
    }
  }

  /** A final newline is copied: no keyword starts there. */
  lemma KeywordCutFinalNewline(s: string)
    requires |s| > 0 && s[|s| - 1] == '\n'
    ensures WellFormed(KeywordCut) && Sub(KeywordCut, s, |s| - 1) == "\n"
  {
    RulesWellFormed();
    var e := |s| - 1;
    NewlineSpaceRun(s, e);
    FirstAltAtEnd(s, KeywordCut.keys);
  }

  /** No building-part keyword matches anywhere in `s`. */
  predicate NoKeyword(s: string) {
    RulesWellFormed();
    forall k :: 0 <= k < |s| ==> MatchAt(KeywordCut, s, k).None?
  }

  /** A house number without a building-part keyword is not cut. */
  lemma KeywordCutAbsent(s: string)
    requires NoKeyword(s)
    ensures WellFormed(KeywordCut) && SubAll(KeywordCut, s) == s
  {
    RulesWellFormed();
    SubNoMatch(KeywordCut, s);
  }

  // ----- The table -----

  /** The street and house-number columns of one row; NA is `None`. */
  datatype AddrRow = AddrRow(utca: Option<string>, cim: Option<string>)

  /** A value that is NA or only whitespace. */
  predicate Blankish(v: Option<string>) {
    v.None? || |Strip(v.value)| == 0
  }

  /** `str.contains(r"\bhrsz\b", case=False, na=False)`. */
  function HasHrsz(v: Option<string>): bool {
    RulesWellFormed();
    v.Some? && Search(Hrsz, v.value, 0)
  }

  /** Step 1: a `hrsz` address becomes the street, and the house number is NA. */
  function MoveHrsz(r: AddrRow): AddrRow {
    if HasHrsz(r.cim) then AddrRow(r.cim, None) else r
  }

  /** Step 2: without a street, a non-blank house number becomes the street. */
  function MoveToStreet(r: AddrRow): AddrRow {
    if Blankish(r.utca) && !Blankish(r.cim) then AddrRow(r.cim, None) else r
  }

  /** Step 3: a non-blank house number is standardised. */
  function Standardize(r: AddrRow): AddrRow {
    if !Blankish(r.cim) then AddrRow(r.utca, Some(StandardCim(r.cim.value))) else r
  }

  /** The three steps on one row. */
  function StandardRow(r: AddrRow): AddrRow {
    Standardize(MoveToStreet(MoveHrsz(r)))
  }

  /** A value that contains `hrsz` is not blank. */
  lemma HrszNotBlank(v: Option<string>)
    requires HasHrsz(v)
    ensures !Blankish(v)
  {
    var c := v.value;
    RulesWellFormed();
    SearchMeaning(Hrsz, c, 0);
    var k :| 0 <= k <= |c| && MatchAt(Hrsz, c, k).Some?;
    var a := W("hrsz");
    assert FirstAlt(c, k, [a]).Some?;
    FirstAltStarts(c, k, [a]);
    assert CiAt(c, k, a.word);
    assert CiEq(c[k + 0], a.word[0]) && a.word[0] == 'h';
    CiLetterNotBlank(c[k], 'h');
    VisibleNotBlank(c, k);
  }

  /** A text with a non-whitespace character strips to a non-empty text. */
  lemma VisibleNotBlank(c: string, k: nat)
    requires k < |c| && !IsSpace(c[k])
    ensures Strip(c) != []
  {
    assert !(k < LeadingSpaces(c));
    assert k < LeadingSpaces(c) + |Strip(c)|;
  }

  /** A `hrsz` address ends as the street, with an NA house number. */
  lemma HrszRow(r: AddrRow)
    requires HasHrsz(r.cim)
    ensures StandardRow(r) == AddrRow(r.cim, None)
  {
    HrszNotBlank(r.cim);
  }

  /**
   * Without `hrsz`, a row with an NA or blank street and a non-blank house
   * number ends with the house number as its street and an NA house number.
   */
  lemma MovedRow(r: AddrRow)
    requires !HasHrsz(r.cim) && Blankish(r.utca) && !Blankish(r.cim)
    ensures StandardRow(r) == AddrRow(r.cim, None)
  {
  }

  /** Any other row keeps its street. */
  lemma StreetKept(r: AddrRow)
    requires !HasHrsz(r.cim) && !(Blankish(r.utca) && !Blankish(r.cim))
    ensures StandardRow(r).utca == r.utca
  {
  }

  /**
   * A row whose house number is NA or blank is not touched; any other row
   * that keeps its house number has it standardised.
   */
  lemma CimOfRow(r: AddrRow)
    ensures Blankish(r.cim) ==> StandardRow(r) == r
    ensures !HasHrsz(r.cim) && !Blankish(r.utca) && !Blankish(r.cim) ==>
            StandardRow(r) == AddrRow(r.utca, Some(StandardCim(r.cim.value)))
  {
    if HasHrsz(r.cim) { HrszNotBlank(r.cim); }
  }

  /** A frame whose two columns are rewritten in place. */
  class AddressTable {
    var rows: seq<AddrRow>

    constructor (rows0: seq<AddrRow>)
      ensures rows == rows0
    {
      rows := rows0;
    }

    /** `cim_standardizalas`: the three masked passes over the frame, in order. */
    method CimStandardizalas()
      modifies this
      ensures |rows| == |old(rows)|
      ensures forall i :: 0 <= i < |rows| ==> rows[i] == StandardRow(old(rows)[i])
    {
      MoveHrszPass();
      MoveToStreetPass();
      StandardizePass();
    }

    /** Step 1 over the frame: `hrsz` rows get their address as street and an NA house number. */
    method MoveHrszPass()
      modifies this
      ensures |rows| == |old(rows)|
      ensures forall i :: 0 <= i < |rows| ==> rows[i] == MoveHrsz(old(rows)[i])
    {
      var i := 0;
      while i < |rows|
        invariant 0 <= i <= |rows| == |old(rows)|
        invariant forall k :: 0 <= k < i ==> rows[k] == MoveHrsz(old(rows)[k])
        invariant forall k :: i <= k < |rows| ==> rows[k] == old(rows)[k]
      {
        rows := rows[i := MoveHrsz(rows[i])];
        i := i + 1;
      }
    }

    /** Step 2 over the frame: rows without a street take their house number as street. */
    method MoveToStreetPass()
      modifies this
      ensures |rows| == |old(rows)|
      ensures forall i :: 0 <= i < |rows| ==> rows[i] == MoveToStreet(old(rows)[i])
    {
      var i := 0;
      while i < |rows|
        invariant 0 <= i <= |rows| == |old(rows)|
        invariant forall k :: 0 <= k < i ==> rows[k] == MoveToStreet(old(rows)[k])
        invariant forall k :: i <= k < |rows| ==> rows[k] == old(rows)[k]
      {
        rows := rows[i := MoveToStreet(rows[i])];
        i := i + 1;
      }
    }

    /** Step 3 over the frame: every non-blank house number is standardised. */
    method StandardizePass()
      modifies this
      ensures |rows| == |old(rows)|
      ensures forall i :: 0 <= i < |rows| ==> rows[i] == Standardize(old(rows)[i])
    {
      var i := 0;
      while i < |rows|
        invariant 0 <= i <= |rows| == |old(rows)|
        invariant forall k :: 0 <= k < i ==> rows[k] == Standardize(old(rows)[k])
        invariant forall k :: i <= k < |rows| ==> rows[k] == old(rows)[k]
      {
        rows := rows[i := Standardize(rows[i])];
        i := i + 1;
      }
    }
  }
}
