/**
 * Preparation of the stored address register (`db_feldolgozas`): rows without
 * identifiers, repeated rows and rows of elections without addresses are
 * dropped, the settlement names are translated, the house numbers are freed
 * of markup, building words, leading zeros and repeated letters, and then go
 * through the same street and house-number standardisation as the map-search
 * addresses.
 */
module Db {
  import opened Util
  import opened Text
  import opened Regex
  import opened Street
  import opened Cim

  /** One row of the register as read; NA is `None`. */
  datatype DbRow = DbRow(
    szavazokorid: int, kozteruletid: Option<int>, kozteruletnevid: int,
    kozteruletnev: Option<string>, utcacim: Option<string>, telepulesid: Option<int>,
    telepulesnev: Option<string>, eventfromid: int, date: Option<string>)

  /** The columns that decide whether two rows repeat each other. */
  datatype SubsetKey = SubsetKey(
    szavazokorid: int, kozteruletid: Option<int>, kozteruletnevid: int,
    kozteruletnev: Option<string>, utcacim: Option<string>, telepulesid: Option<int>,
    date: Option<string>)

  /** One row of the prepared register. */
  datatype DbOut = DbOut(
    szavazokorid: int, kozteruletid: Option<int>, kozteruletnevid: int,
    utca: Option<string>, cim: Option<string>, telepulesid: Option<int>,
    telepulesnev: Option<string>, telepulesnevHu: Option<string>, eventfromid: int,
    date: Option<string>)

  function KeyOf(r: DbRow): SubsetKey {
    SubsetKey(r.szavazokorid, r.kozteruletid, r.kozteruletnevid, r.kozteruletnev, r.utcacim, r.telepulesid, r.date)
  }

  function KeysOf(rows: seq<DbRow>): (ks: seq<SubsetKey>)
    ensures |ks| == |rows| && forall i :: 0 <= i < |rows| ==> ks[i] == KeyOf(rows[i])
  {
    seq(|rows|, i requires 0 <= i < |rows| => KeyOf(rows[i]))
  }

  // ----- Row filters -----

  /** The rows that `keep` accepts, in order. */
  function Filter<T>(s: seq<T>, keep: T -> bool): (r: seq<T>)
    ensures |r| <= |s|
  {
    if s == [] then []
    else
      var n := |s| - 1;
      Filter(s[..n], keep) + (if keep(s[n]) then [s[n]] else [])
  }

  /** A row is kept exactly when it is a row of the input that `keep` accepts. */
  lemma {:induction false} FilterMeaning<T>(s: seq<T>, keep: T -> bool)
    ensures forall x :: x in Filter(s, keep) <==> x in s && keep(x)
  {
    if s != [] {
      var n := |s| - 1;
      FilterMeaning(s[..n], keep);
      assert s == s[..n] + [s[n]];
    }
  }

  /**
   * The filter keeps the order and the repetitions of the rows it accepts: a
   * rejected row goes, an accepted one stays, and a concatenation is
   * filtered part by part.
   */
  lemma {:induction false} FilterAppend<T>(a: seq<T>, b: seq<T>, keep: T -> bool)
    ensures Filter(a + b, keep) == Filter(a, keep) + Filter(b, keep)
    ensures |b| == 1 ==> Filter(b, keep) == if keep(b[0]) then b else []
    decreases |b|
  {
    if b == [] {
      assert a + b == a;
    } else {
      var n := |b| - 1;
      var front, c := b[..n], b[n];
      assert b == front + [c];
      var x := (if keep(c) then [c] else []);
      assert a + b == (a + front) + [c];
      calc {
        Filter(a + b, keep);
        { FilterSnoc(a + front, c, keep); }
        Filter(a + front, keep) + x;
        { FilterAppend(a, front, keep); }
        (Filter(a, keep) + Filter(front, keep)) + x;
        Filter(a, keep) + (Filter(front, keep) + x);
        { FilterSnoc(front, c, keep); }
        Filter(a, keep) + Filter(b, keep);
      }
    }
    if |b| == 1 {
      assert b == [] + [b[0]];
      FilterSnoc([], b[0], keep);
    }
  }

  /** One more element at the end is kept or dropped on its own. */
  lemma FilterSnoc<T>(s: seq<T>, c: T, keep: T -> bool)
    ensures Filter(s + [c], keep) == Filter(s, keep) + (if keep(c) then [c] else [])
  {
    var t := s + [c];
    assert t[..|t| - 1] == s;
    assert t[|t| - 1] == c;
  }

  /** `dropna(subset=['telepulesid', 'kozteruletid'])` keeps the row. */
  predicate HasIds(r: DbRow) {
    r.telepulesid.Some? && r.kozteruletid.Some?
  }

  /** The election dates for which the register holds addresses. */
  const VanCim: seq<string> := ["2014-04-06", "2022-04-03"]

  /** `df['date'].isin(van_cim)`: NA is not in the list. */
  predicate HasAddressDate(r: DbRow) {
    r.date.Some? && r.date.value in VanCim
  }

  const Zero: string := "0"

  /** `df['utcacim'] != '0'`: an NA house number is kept. */
  predicate NotZero(r: DbRow) {
    r.utcacim != Some(Zero)
  }

  /** No earlier row has the same subset key as row `i`. */
  predicate FirstOfKey(rows: seq<DbRow>, i: nat)
    requires i < |rows|
  {
    forall j :: 0 <= j < i ==> KeyOf(rows[j]) != KeyOf(rows[i])
  }

  /** `drop_duplicates(subset=…)`: the first row of each subset key, in order. */
  function DedupByKey(rows: seq<DbRow>): (r: seq<DbRow>)
    ensures |r| <= |rows|
  {
    if rows == [] then []
    else
      var n := |rows| - 1;
      var r := DedupByKey(rows[..n]);
      if KeyOf(rows[n]) in KeysOf(r) then r else r + [rows[n]]
  }

  /** Every kept row is a row of the input, and no two kept rows share a key. */
  lemma {:induction false} DedupSound(rows: seq<DbRow>)
    ensures forall x :: x in DedupByKey(rows) ==> x in rows
    ensures NoDuplicates(KeysOf(DedupByKey(rows)))
  {
    if rows != [] {
      var n := |rows| - 1;
      DedupSound(rows[..n]);
      var r := DedupByKey(rows[..n]);
      assert forall x :: x in rows[..n] ==> x in rows;
      if KeyOf(rows[n]) !in KeysOf(r) {
        var r2 := r + [rows[n]];
        var ks := KeysOf(r2);
        forall i, j | 0 <= i < j < |ks| ensures ks[i] != ks[j] {
          if j == |r| {
            assert ks[i] == KeysOf(r)[i];
          } else {
            assert ks[i] == KeysOf(r)[i] && ks[j] == KeysOf(r)[j];
          }
        }
      }
    }
  }

  /** Every key of the kept rows is the key of a row of the input. */
  lemma DedupKeysFrom(rows: seq<DbRow>)
    ensures forall key :: key in KeysOf(DedupByKey(rows)) ==> exists j :: 0 <= j < |rows| && KeyOf(rows[j]) == key
  {
    DedupSound(rows);
    var r := DedupByKey(rows);
    forall key | key in KeysOf(r) ensures exists j :: 0 <= j < |rows| && KeyOf(rows[j]) == key {
      var k :| 0 <= k < |r| && KeysOf(r)[k] == key;
      assert r[k] in rows;
      var j :| 0 <= j < |rows| && rows[j] == r[k];
      assert KeyOf(rows[j]) == key;
    }
  }

  /** The first row of each key is kept, and so every key of the input keeps a row. */
  lemma {:induction false} DedupKeepsFirst(rows: seq<DbRow>)
    ensures forall i :: 0 <= i < |rows| && FirstOfKey(rows, i) ==> rows[i] in DedupByKey(rows)
  {
    if rows != [] {
      var n := |rows| - 1;
      DedupKeepsFirst(rows[..n]);
      DedupSound(rows[..n]);
      var r := DedupByKey(rows[..n]);
      forall i | 0 <= i < |rows| && FirstOfKey(rows, i) ensures rows[i] in DedupByKey(rows) {
        if i < n {
          assert FirstOfKey(rows[..n], i) by {
            forall j | 0 <= j < i ensures KeyOf(rows[..n][j]) != KeyOf(rows[..n][i]) {
              assert KeyOf(rows[j]) != KeyOf(rows[i]);
            }
          }
        } else {
          DedupKeysFrom(rows[..n]);
          assert KeyOf(rows[n]) !in KeysOf(r);
        }
      }
    }
  }

  /** The row filters, in the order they are applied. */
  function Prepared(rows: seq<DbRow>): seq<DbRow> {
    Filter(Filter(DedupByKey(Filter(rows, HasIds)), HasAddressDate), NotZero)
  }

  // ----- Settlement names -----

  /**
   * `telepulesnev.map(m).fillna(telepulesnev)`: the translated name when the
   * dictionary gives one, the original name otherwise.
   */
  function HuName(name: Option<string>, m: map<string, Option<string>>): (r: Option<string>)
    ensures r.None? ==> name.None?
    ensures name.Some? && name.value !in m ==> r == name
    ensures name.Some? && name.value in m && m[name.value].None? ==> r == name
    ensures name.Some? && name.value in m && m[name.value].Some? ==> r == m[name.value]
  {
    if name.Some? && name.value in m && m[name.value].Some? then m[name.value] else name
  }

  // ----- House-number clean-up -----

  const Braces: set<char> := {'{', '}', '='}
  const Angles: set<char> := {'<', '>'}

  /** `\b(building|bldg\.?|block|blokk|épület|epulet)\b`, ignoring case, replaced by a blank. */
  const BuildingWords: Rule := Words([
    Alt("building", false), Alt("bldg", true), Alt("block", false),
    Alt("blokk", false), Alt("épület", false), Alt("epulet", false)], " ")

  lemma BuildingWordsWellFormed()
    ensures WellFormed(BuildingWords)
  {
  }

  /**
   * The leftmost building word that stands as a whole word is replaced by a
   * blank: the text before it is kept and the scan goes on after it.
   */
  lemma BuildingWordBlanked(s: string, i: nat, k: nat)
    requires k < |BuildingWords.alts| && i < |s| && Boundary(s, i)
    requires CiAt(s, i, BuildingWords.alts[k].word)
    requires Boundary(s, i + |BuildingWords.alts[k].word|)
    requires forall j :: 0 <= j < i ==> MatchAt(BuildingWords, s, j).None?
    ensures exists e :: i < e <= |s| && SubAll(BuildingWords, s) == s[..i] + " " + Sub(BuildingWords, s, e)
  {
    BuildingWordsWellFormed();
    FirstAltSome(s, i, BuildingWords.alts, k);
    SubFirstMatch(BuildingWords, s, i);
  }

  /** The clean-up of one present `utcacim` value, before the shared standardisation. */
  function CleanUtcacim(s: string): string {
    BuildingWordsWellFormed();
    var s1 := BlankOut(BlankOut(s, Braces), Angles);
    var s2 := Strip(Collapse(SubAll(BuildingWords, s1)));
    var s3 := Strip(Collapse(SubAll(DigitRun, s2)));
    SubAll(RangeSuffix, SubAll(SpaceSuffix, SubAll(SlashSuffix, s3)))
  }

  function CleanColumn(v: Option<string>): (r: Option<string>)
    ensures r.Some? <==> v.Some?
  {
    if v.Some? then Some(CleanUtcacim(v.value)) else None
  }

  /** No character of `s` is one of `cs`. */
  predicate Avoids(s: string, cs: set<char>) {
    forall k :: 0 <= k < |s| ==> s[k] !in cs
  }

  /** What a rule writes in place of a match avoids what the text avoids. */
  lemma RewriteAvoids(p: Rule, s: string, i: nat, g: nat, e: nat, cs: set<char>)
    requires i <= g <= e <= |s| && Avoids(s, cs)
    requires p.Words? ==> Avoids(p.repl, cs)
    ensures Avoids(Rewrite(p, s, i, g, e), cs)
  {
    var w := Rewrite(p, s, i, g, e);
    if p.DigitRun? {
      forall k | 0 <= k < |w| ensures w[k] !in cs {
        var t := s[i..e];
        assert w == t[|t| - |w|..];
        assert w[k] == s[i + |t| - |w| + k];
      }
    } else if !p.Words? && !p.KeywordTail? {
      forall k | 0 <= k < |w| ensures w[k] !in cs {
        assert w[k] == s[i + k];
      }
    }
  }

  /** A substitution never brings in a character that neither the text nor the replacement has. */
  lemma {:induction false} SubAvoids(p: Rule, s: string, i: nat, cs: set<char>)
    requires WellFormed(p) && i <= |s| && Avoids(s, cs)
    requires p.Words? ==> Avoids(p.repl, cs)
    ensures Avoids(Sub(p, s, i), cs)
    decreases |s| - i
  {
    if i < |s| {
      var m := MatchAt(p, s, i);
      if m.Some? {
        var (g, e) := m.value;
        SubAvoids(p, s, e, cs);
        RewriteAvoids(p, s, i, g, e, cs);
        AvoidsConcat(Rewrite(p, s, i, g, e), Sub(p, s, e), cs);
      } else {
        SubAvoids(p, s, i + 1, cs);
        AvoidsConcat([s[i]], Sub(p, s, i + 1), cs);
      }
    }
  }

  lemma AvoidsConcat(a: string, b: string, cs: set<char>)
    requires Avoids(a, cs) && Avoids(b, cs)
    ensures Avoids(a + b, cs)
  {
    forall k | 0 <= k < |a + b| ensures (a + b)[k] !in cs {
      if k >= |a| { assert (a + b)[k] == b[k - |a|]; }
    }
  }

  lemma CollapseStripAvoids(s: string, cs: set<char>)
    requires Avoids(s, cs) && ' ' !in cs
    ensures Avoids(Strip(Collapse(s)), cs)
  {
    var co := Collapse(s);
    CollapseChars(s);
    forall k | 0 <= k < |co| ensures co[k] !in cs {
      var j :| 0 <= j < |s| && Blank(s[j]) == co[k];
    }
    var st := Strip(co);
    forall k | 0 <= k < |st| ensures st[k] !in cs {
      assert st[k] == co[LeadingSpaces(co) + k];
    }
  }

  /** One rule, then the collapse and strip, keeps a text free of `cs`. */
  lemma StageAvoids(p: Rule, t: string, cs: set<char>)
    requires WellFormed(p) && Avoids(t, cs) && ' ' !in cs
    requires p.Words? ==> Avoids(p.repl, cs)
    ensures Avoids(Strip(Collapse(SubAll(p, t))), cs)
  {
    SubAvoids(p, t, 0, cs);
    CollapseStripAvoids(SubAll(p, t), cs);
  }

  /** The three suffix rules keep a text free of markup. */
  lemma SuffixesAvoid(t: string)
    requires Avoids(t, Braces + Angles)
    ensures Avoids(SubAll(RangeSuffix, SubAll(SpaceSuffix, SubAll(SlashSuffix, t))), Braces + Angles)
  {
    BuildingWordsWellFormed();
    var cs := Braces + Angles;
    SubAvoids(SlashSuffix, t, 0, cs);
    SubAvoids(SpaceSuffix, SubAll(SlashSuffix, t), 0, cs);
    SubAvoids(RangeSuffix, SubAll(SpaceSuffix, SubAll(SlashSuffix, t)), 0, cs);
  }

  /** Curly braces, `=` and angle brackets never survive the clean-up. */
  lemma CleanUtcacimNoMarkup(s: string)
    ensures Avoids(CleanUtcacim(s), Braces + Angles)
  {
    BuildingWordsWellFormed();
    var cs := Braces + Angles;
    var s1 := BlankOut(BlankOut(s, Braces), Angles);
    assert Avoids(s1, cs);
    StageAvoids(BuildingWords, s1, cs);
    var s2 := Strip(Collapse(SubAll(BuildingWords, s1)));
    StageAvoids(DigitRun, s2, cs);
    SuffixesAvoid(Strip(Collapse(SubAll(DigitRun, s2))));
  }

  // ----- The prepared register -----

  /** The renamed row after the standardisation pass: street normalised, translated name added. */
  function Finish(r: DbRow, a: AddrRow, m: map<string, Option<string>>): DbOut {
    DbOut(r.szavazokorid, r.kozteruletid, r.kozteruletnevid, NormalizedColumn(a.utca), a.cim,
          r.telepulesid, r.telepulesnev, HuName(r.telepulesnev, m), r.eventfromid, r.date)
  }

  /** The street and the cleaned house number of a row, under their new names. */
  function Renamed(r: DbRow): AddrRow {
    AddrRow(r.kozteruletnev, CleanColumn(r.utcacim))
  }

  /** One kept row as it leaves the preparation. */
  function DbRowOut(r: DbRow, m: map<string, Option<string>>): DbOut {
    Finish(r, StandardRow(Renamed(r)), m)
  }

  /** The prepared register: every kept row prepared, then the repeated rows dropped. */
  function DbSpec(rows: seq<DbRow>, m: map<string, Option<string>>): seq<DbOut> {
    var p := Prepared(rows);
    Unique(seq(|p|, i requires 0 <= i < |p| => DbRowOut(p[i], m)))
  }

  /**
   * `db_feldolgozas` after the file reads: the filters, the renamed columns
   * through the standardisation pass of the whole table, the street
   * normalisation and the final de-duplication.
   */
  method DbFeldolgozas(rows: seq<DbRow>, m: map<string, Option<string>>) returns (out: seq<DbOut>)
    ensures out == DbSpec(rows, m)
  {
    var p := Prepared(rows);
    var table := new AddressTable(seq(|p|, i requires 0 <= i < |p| => Renamed(p[i])));
    table.CimStandardizalas();
    var std := table.rows;
    var finished := seq(|p|, i requires 0 <= i < |p| => Finish(p[i], std[i], m));
    assert finished == seq(|p|, i requires 0 <= i < |p| => DbRowOut(p[i], m));
    out := Unique(finished);
  }

  /** Each prepared row passes every filter and is the preparation of a row of the input. */
  lemma PreparedSound(rows: seq<DbRow>)
    ensures forall x :: x in Prepared(rows) ==> x in rows && HasIds(x) && HasAddressDate(x) && NotZero(x)
  {
    var f := Filter(rows, HasIds);
    FilterMeaning(rows, HasIds);
    DedupSound(f);
    var d := DedupByKey(f);
    FilterMeaning(d, HasAddressDate);
    FilterMeaning(Filter(d, HasAddressDate), NotZero);
  }

  /** Every row of the prepared register comes from a kept row of the input, and none repeats. */
  lemma DbSound(rows: seq<DbRow>, m: map<string, Option<string>>)
    ensures NoDuplicates(DbSpec(rows, m))
    ensures forall x :: x in DbSpec(rows, m) ==>
              exists r :: r in rows && HasIds(r) && HasAddressDate(r) && NotZero(r) && x == DbRowOut(r, m)
  {
    var p := Prepared(rows);
    PreparedSound(rows);
    var mapped := seq(|p|, i requires 0 <= i < |p| => DbRowOut(p[i], m));
    forall x | x in DbSpec(rows, m)
      ensures exists r :: r in rows && HasIds(r) && HasAddressDate(r) && NotZero(r) && x == DbRowOut(r, m)
    {
      assert x in mapped;
      var i :| 0 <= i < |p| && mapped[i] == x;
      assert p[i] in p;
    }
  }

  /**
   * Every row of the input that passes the filters is represented: the first
   * row with its subset key is prepared into the register.
   */
  lemma DbComplete(rows: seq<DbRow>, m: map<string, Option<string>>, r: DbRow)
    requires r in rows && HasIds(r) && HasAddressDate(r) && NotZero(r)
    ensures exists r' :: r' in rows && KeyOf(r') == KeyOf(r) && DbRowOut(r', m) in DbSpec(rows, m)
  {
    var first := FirstOfKeyPrepared(rows, r);
    PreparedInSpec(rows, m, first);
  }

  /** The first row with the subset key of a passing row is prepared. */
  lemma FirstOfKeyPrepared(rows: seq<DbRow>, r: DbRow) returns (first: DbRow)
    requires r in rows && HasIds(r) && HasAddressDate(r) && NotZero(r)
    ensures first in rows && KeyOf(first) == KeyOf(r) && first in Prepared(rows)
  {
    var f := Filter(rows, HasIds);
    FilterMeaning(rows, HasIds);
    var ks := KeysOf(f);
    assert r in f;
    var i0 := IndexOf(f, r);
    assert ks[i0] == KeyOf(r);
    var i := IndexOf(ks, KeyOf(r));
    first := f[i];
    assert FirstOfKey(f, i);
    DedupKeepsFirst(f);
    var d := DedupByKey(f);
    assert first in d;
    assert HasAddressDate(first) && NotZero(first);
    FilterMeaning(d, HasAddressDate);
    FilterMeaning(Filter(d, HasAddressDate), NotZero);
    assert first in Prepared(rows);
  }

  /** A prepared row is written to the register. */
  lemma PreparedInSpec(rows: seq<DbRow>, m: map<string, Option<string>>, x: DbRow)
    requires x in Prepared(rows)
    ensures DbRowOut(x, m) in DbSpec(rows, m)
  {
    var p := Prepared(rows);
    var j := IndexOf(p, x);
    var mapped := seq(|p|, k requires 0 <= k < |p| => DbRowOut(p[k], m));
    assert mapped[j] == DbRowOut(x, m);
  }
}
