/**
 * Street-name normalisation (`utca_normalizalas`): each street-type
 * abbreviation is written out, in the order of the abbreviation table, and
 * the result is collapsed, stripped and freed of trailing dots.
 */
module Street {
  import opened Util
  import opened Text
  import opened Regex

  /** `\bword\.?\b`, ignoring case, replaced by `full`. */
  function Abbrev(word: string, full: string): Rule {
    Words([Alt(word, true)], full)
  }

  /** The abbreviation table, in the order its entries are applied. */
  const KozterMap: seq<Rule> := [
    Abbrev("u", "utca"),
    Abbrev("krt", "körút"),
    Abbrev("stny", "sétány"),
    Abbrev("rkp", "rakpart"),
    Abbrev("fs", "fasor"),
    Abbrev("sgt", "sugárút"),
    Abbrev("ltp", "lakótelep"),
    Abbrev("udv", "udvar"),
    Words([Alt("hrsz", false)], "helyrajzi szám"),
    Abbrev("st", "utca"),
    Abbrev("rd", "út"),
    Abbrev("ave", "sugárút"),
    Abbrev("blvd", "körút")
  ]

  /** Every rule of a table matches only non-empty words. */
  predicate AllWellFormed(rules: seq<Rule>) {
    forall k :: 0 <= k < |rules| ==> WellFormed(rules[k])
  }

  lemma KozterMapWellFormed()
    ensures AllWellFormed(KozterMap)
  {
  }

  /** The rules of a table applied one after another, first rule first. */
  function ApplyAll(s: string, rules: seq<Rule>): string
    requires AllWellFormed(rules)
  {
    if rules == [] then s
    else
      var n := |rules| - 1;
      SubAll(rules[n], ApplyAll(s, rules[..n]))
  }

  /** No rule of the table matches anywhere in `s`. */
  predicate NoRuleMatches(rules: seq<Rule>, s: string)
    requires AllWellFormed(rules)
  {
    forall k, i :: 0 <= k < |rules| && 0 <= i < |s| ==> MatchAt(rules[k], s, i).None?
  }

  /** A table none of whose rules matches anywhere in the text it meets leaves the text as it is. */
  lemma {:induction false} ApplyAllNoMatch(s: string, rules: seq<Rule>)
    requires AllWellFormed(rules) && NoRuleMatches(rules, s)
    ensures ApplyAll(s, rules) == s
  {
    if rules != [] {
      var n := |rules| - 1;
      ApplyAllNoMatch(s, rules[..n]);
      SubNoMatch(rules[n], s);
    }
  }

  /** `utca_normalizalas` of one street name. */
  function NormalizedStreet(s: string): string {
    KozterMapWellFormed();
    NormalizedBy(s, KozterMap)
  }

  /** The rules of a table applied in order, then the collapse, strip and trailing-dot strip. */
  function NormalizedBy(s: string, rules: seq<Rule>): string
    requires AllWellFormed(rules)
  {
    Tidy(ApplyAll(s, rules))
  }

  /** Whitespace collapsed, the ends stripped and the trailing dots dropped. */
  function Tidy(a: string): string {
    RStripChar(Strip(Collapse(a)), '.')
  }

  /** Only single blanks as whitespace, no leading whitespace and no trailing dot. */
  predicate StreetShaped(t: string) {
    SingleSpaced(t) && (t == [] || (!IsSpace(t[0]) && t[|t| - 1] != '.'))
  }

  /** `utca_normalizalas` of one cell of a column: NA stays NA. */
  function NormalizedColumn(v: Option<string>): (r: Option<string>)
    ensures r.Some? <==> v.Some?
    ensures r.Some? ==> StreetShaped(r.value)
  {
    if v.Some? then
      NormalizedStreetShape(v.value);
      Some(NormalizedStreet(v.value))
    else None
  }

  /**
   * `utca_normalizalas` as the loop over the abbreviation table, then the
   * whitespace collapse, strip and trailing-dot strip.
   */
  method UtcaNormalizalas(s: string) returns (r: string)
    ensures r == NormalizedStreet(s)
  {
    KozterMapWellFormed();
    var t := s;
    var k := 0;
    while k < |KozterMap|
      invariant 0 <= k <= |KozterMap|
      invariant t == ApplyAll(s, KozterMap[..k])
    {
      assert KozterMap[..k + 1][..k] == KozterMap[..k];
      t := SubAll(KozterMap[k], t);
      k := k + 1;
    }
    assert KozterMap[..|KozterMap|] == KozterMap;
    r := Tidy(t);
  }

  /**
   * The normalised street name has only single blanks as whitespace, does
   * not start with whitespace and does not end in a dot.
   */
  lemma NormalizedStreetShape(s: string)
    ensures StreetShaped(NormalizedStreet(s))
  {
    KozterMapWellFormed();
    NormalizedByShape(s, KozterMap);
  }

  /** Whatever the table, the result is single-spaced, not led by whitespace and not ended by a dot. */
  lemma NormalizedByShape(s: string, rules: seq<Rule>)
    requires AllWellFormed(rules)
    ensures StreetShaped(NormalizedBy(s, rules))
  {
    TidyShape(ApplyAll(s, rules));
  }

  /** The tidied text is single-spaced, not led by whitespace and not ended by a dot. */
  lemma TidyShape(a: string)
    ensures StreetShaped(Tidy(a))
  {
    CollapseSingleSpaced(a);
    StripKeepsSingleSpaced(Collapse(a));
    DotStripShape(Strip(Collapse(a)));
  }

  /** Dropping the trailing dots of a stripped, single-spaced text gives a street-shaped one. */
  lemma DotStripShape(st: string)
    requires SingleSpaced(st) && Stripped(st)
    ensures StreetShaped(RStripChar(st, '.'))
  {
    var r := RStripChar(st, '.');
    assert r == st[0..|r|];
    SliceSingleSpaced(st, r, 0);
    if r != [] {
      assert r[0] == st[0];
    }
  }

  /** A street name without any abbreviation is only collapsed, stripped and freed of trailing dots. */
  lemma NormalizedStreetPlain(s: string)
    requires AllWellFormed(KozterMap) && NoRuleMatches(KozterMap, s)
    ensures NormalizedStreet(s) == Tidy(s)
  {
    KozterMapWellFormed();
    NormalizedByPlain(s, KozterMap);
  }

  /** A table none of whose rules matches leaves only the collapse, strip and trailing-dot strip. */
  lemma NormalizedByPlain(s: string, rules: seq<Rule>)
    requires AllWellFormed(rules) && NoRuleMatches(rules, s)
    ensures NormalizedBy(s, rules) == Tidy(s)
  {
    ApplyAllNoMatch(s, rules);
  }

  /**
   * The first abbreviation of a rule is written out: the text before it is
   * kept and the scan goes on after it.
   */
  lemma AbbrevWrittenOut(word: string, full: string, s: string, i: nat)
    requires |word| > 0 && i < |s| && forall k :: 0 <= k < |word| ==> IsLetter(word[k])
    requires Boundary(s, i) && CiAt(s, i, word) && !WordAt(s, i + |word|)
    requires forall k :: 0 <= k < i ==> MatchAt(Abbrev(word, full), s, k).None?
    ensures exists e :: i + |word| <= e <= |s| && SubAll(Abbrev(word, full), s) == s[..i] + full + Sub(Abbrev(word, full), s, e)
  {
    var p := Abbrev(word, full);
    var j := i + |word|;
    assert CiEq(s[i + (|word| - 1)], word[|word| - 1]);
    assert WordBefore(s, j);
    assert AltEnd(s, i, Alt(word, true)).Some?;
    assert MatchAt(p, s, i).Some?;
    SubFirstMatch(p, s, i);
  }
}
