/**
 * Preparation of the map-search addresses (`gm_feldolgozas`): each returned
 * address is split at its first digit into a street and a house number, the
 * street is normalised and the house numbers are standardised.
 */
module Gm {
  import opened Util
  import opened Text
  import opened Regex
  import opened Street
  import opened Cim

  /**
   * `^(.*?)(\d.*)$` scanned from `k`: the lazy prefix grows one character at a
   * time, never over a newline, until a digit starts a tail that reaches the
   * end of the text (or a final newline). Gives where the tail starts and ends.
   */
  function LazyDigitSplit(s: string, k: nat): (r: Option<(nat, nat)>)
    requires k <= |s|
    ensures r.Some? ==> k <= r.value.0 < r.value.1 <= |s|
    decreases |s| - k
  {
    if k == |s| || s[k] == '\n' then None
    else if IsDigit(s[k]) && DotStarEnd(s, k + 1).Some? then Some((k, DotStarEnd(s, k + 1).value))
    else LazyDigitSplit(s, k + 1)
  }

  /** No newline in `s` from `k` on. */
  predicate OneLine(s: string, k: nat) {
    forall i :: k <= i < |s| ==> s[i] != '\n'
  }

  /** On a text without newlines the tail starts at the first digit and runs to the end. */
  lemma {:induction false} LazyDigitSplitOneLine(s: string, k: nat)
    requires k <= |s| && OneLine(s, k)
    ensures var r := LazyDigitSplit(s, k);
            (r.Some? <==> exists j :: k <= j < |s| && IsDigit(s[j])) &&
            (r.Some? ==> r.value.1 == |s| && IsDigit(s[r.value.0]) &&
                         forall j :: k <= j < r.value.0 ==> !IsDigit(s[j]))
    decreases |s| - k
  {
    if k < |s| {
      var d := DotStarEnd(s, k + 1);
      assert d.Some? && d.value == |s|;
      if !IsDigit(s[k]) {
        LazyDigitSplitOneLine(s, k + 1);
      }
    }
  }

  /** `str.extract(r"^(.*?)(\d.*)$")` of a stripped address, each part stripped again. */
  function GmSplit(c: Option<string>): AddrRow {
    if c.None? then AddrRow(None, None)
    else
      SplitParts(Strip(c.value))
  }

  /** The two groups of the split of a stripped address, each stripped again; both NA without a match. */
  function SplitParts(t: string): AddrRow {
    var m := LazyDigitSplit(t, 0);
    if m.None? then AddrRow(None, None)
    else AddrRow(Some(Strip(t[..m.value.0])), Some(Strip(t[m.value.0..m.value.1])))
  }

  /** The stripped form of a one-line text is one line too. */
  lemma StripOneLine(c: string)
    requires OneLine(c, 0)
    ensures OneLine(Strip(c), 0)
  {
    var t := Strip(c);
    forall i | 0 <= i < |t| ensures t[i] != '\n' {
      assert t[i] == c[LeadingSpaces(c) + i];
    }
  }

  /**
   * A one-line address is split at the first digit of its stripped form: the
   * part before is the street, stripped, and the rest is the house number.
   */
  lemma GmSplitAtDigit(c: string, k: nat)
    requires OneLine(c, 0)
    requires k < |Strip(c)| && IsDigit(Strip(c)[k])
    requires forall j :: 0 <= j < k ==> !IsDigit(Strip(c)[j])
    ensures GmSplit(Some(c)) == AddrRow(Some(Strip(Strip(c)[..k])), Some(Strip(c)[k..]))
  {
    var t := Strip(c);
    StripOneLine(c);
    SplitAtFirstDigit(t, k);
    GmSplitOf(c, t, k);
    StripStripped(t[k..]);
  }

  /** The split of an address whose tail starts at `k` and runs to the end. */
  lemma GmSplitOf(c: string, t: string, k: nat)
    requires t == Strip(c) && k < |t|
    requires LazyDigitSplit(t, 0) == Some((k, |t|))
    ensures GmSplit(Some(c)) == AddrRow(Some(Strip(t[..k])), Some(Strip(t[k..])))
  {
    SplitPartsAt(t, k);
  }

  /** The groups of a match whose tail runs from `k` to the end. */
  lemma SplitPartsAt(t: string, k: nat)
    requires k < |t| && LazyDigitSplit(t, 0) == Some((k, |t|))
    ensures SplitParts(t) == AddrRow(Some(Strip(t[..k])), Some(Strip(t[k..])))
  {
    assert t[k..|t|] == t[k..];
  }

  /** The tail of a stripped one-line text starts at its first digit and is stripped. */
  lemma SplitAtFirstDigit(t: string, k: nat)
    requires OneLine(t, 0) && Stripped(t)
    requires k < |t| && IsDigit(t[k])
    requires forall j :: 0 <= j < k ==> !IsDigit(t[j])
    ensures LazyDigitSplit(t, 0) == Some((k, |t|))
    ensures Stripped(t[k..])
  {
    LazyDigitSplitOneLine(t, 0);
    var m := LazyDigitSplit(t, 0).value;
    assert m.0 == k;
  }

  /** Without a digit from `k` on, the tail never starts, over newlines or not. */
  lemma {:induction false} LazyDigitSplitNoDigit(s: string, k: nat)
    requires k <= |s| && forall j :: k <= j < |s| ==> !IsDigit(s[j])
    ensures LazyDigitSplit(s, k).None?
    decreases |s| - k
  {
    if k < |s| && s[k] != '\n' {
      LazyDigitSplitNoDigit(s, k + 1);
    }
  }

  /** An address without any digit gives NA for both parts. */
  lemma GmSplitNoDigit(c: string)
    requires forall j :: 0 <= j < |c| ==> !IsDigit(c[j])
    ensures GmSplit(Some(c)) == AddrRow(None, None)
  {
    var t := Strip(c);
    forall j | 0 <= j < |t| ensures !IsDigit(t[j]) {
      assert t[j] == c[LeadingSpaces(c) + j];
    }
    LazyDigitSplitNoDigit(t, 0);
  }

  /** The street name normalised, then the house-number standardisation, of one address. */
  function GmRow(c: Option<string>): AddrRow {
    var g := GmSplit(c);
    StandardRow(AddrRow(NormalizedColumn(g.utca), g.cim))
  }

  lemma NormalizedEmptyStreet()
    ensures NormalizedStreet([]) == []
  {
    KozterMapWellFormed();
    NormalizedStreetPlain([]);
  }

  /**
   * A one-line address that starts with a digit has an empty street, so the
   * whole address ends in the street column and the house number is NA.
   */
  lemma GmLeadingDigit(c: string)
    requires OneLine(c, 0) && |Strip(c)| > 0 && IsDigit(Strip(c)[0])
    ensures GmRow(Some(c)) == AddrRow(Some(Strip(c)), None)
  {
    var t := Strip(c);
    GmSplitAtDigit(c, 0);
    assert t[..0] == [] && t[0..] == t;
    assert GmSplit(Some(c)) == AddrRow(Some([]), Some(t));
    NormalizedEmptyStreet();
    EmptyStreetRow(t);
  }

  /** A row with an empty street and a non-blank stripped house number ends with the number as its street. */
  lemma EmptyStreetRow(t: string)
    requires Stripped(t) && |t| > 0
    ensures StandardRow(AddrRow(Some([]), Some(t))) == AddrRow(Some(t), None)
  {
    StripStripped(t);
    var r := AddrRow(Some([]), Some(t));
    assert LStrip([]) == [];
    assert Blankish(r.utca) && !Blankish(r.cim);
    if HasHrsz(r.cim) {
      HrszRow(r);
    } else {
      MovedRow(r);
    }
  }

  /**
   * An address without digits keeps nothing: both columns are NA.
   */
  lemma GmNoDigit(c: string)
    requires forall j :: 0 <= j < |c| ==> !IsDigit(c[j])
    ensures GmRow(Some(c)) == AddrRow(None, None)
  {
    GmSplitNoDigit(c);
  }

  /**
   * `gm_feldolgozas` on the address column: the split and the street
   * normalisation, then the standardisation pass over the whole table.
   */
  method GmFeldolgozas(cims: seq<Option<string>>) returns (rows: seq<AddrRow>)
    ensures |rows| == |cims|
    ensures forall i :: 0 <= i < |cims| ==> rows[i] == GmRow(cims[i])
  {
    var split := seq(|cims|, i requires 0 <= i < |cims| => var g := GmSplit(cims[i]); AddrRow(NormalizedColumn(g.utca), g.cim));
    var table := new AddressTable(split);
    table.CimStandardizalas();
    rows := table.rows;
  }
}
