/**
 * Joining the geocoded addresses to the official address register: both sides
 * get a street key and a house-number key built by the same normalisation, and
 * the register is inner-joined to the geocoded rows on the pair of keys.
 */
module Join {
  import opened Util
  import opened Text

  /** The kinds of missing value an object column can hold: a float NaN, Python's `None` and pandas' `NA`. */
  datatype Missing = FloatNan | PyNone | PandasNA

  /** A cell of an object column: a text or a missing value. */
  datatype Cell = Text(s: string) | Absent(kind: Missing)

  /** The text pandas' `astype(str)` gives a cell: each kind of missing value is spelled its own way. */
  function AsStr(v: Cell): string {
    match v
    case Text(s) => s
    case Absent(FloatNan) => "nan"
    case Absent(PyNone) => "None"
    case Absent(PandasNA) => "<NA>"
  }

  /** The zero-width characters removed from street names: ZWSP, ZWNJ, ZWJ, WJ and BOM. */
  predicate ZeroWidth(c: char) {
    c == '\U{200B}' || c == '\U{200C}' || c == '\U{200D}' || c == '\U{2060}' || c == '\U{FEFF}'
  }

  /** No zero-width character and no no-break space in `s`. */
  predicate Clean(s: string) {
    forall i :: 0 <= i < |s| ==> !ZeroWidth(s[i]) && s[i] != '\U{A0}'
  }

  /** Every no-break space becomes a blank. */
  function NbspToSpace(s: string): (r: string)
    ensures |r| == |s| && forall i :: 0 <= i < |s| ==> r[i] == (if s[i] == '\U{A0}' then ' ' else s[i])
  {
    seq(|s|, i requires 0 <= i < |s| => if s[i] == '\U{A0}' then ' ' else s[i])
  }

  /** Every zero-width character is deleted. */
  function DropZeroWidth(s: string): (r: string)
    ensures forall c :: c in r <==> c in s && !ZeroWidth(c)
  {
    if s == [] then []
    else DropZeroWidth(s[..|s| - 1]) + (if ZeroWidth(s[|s| - 1]) then [] else [s[|s| - 1]])
  }

  /**
   * Zero-width characters are deleted one by one and the rest keeps its
   * order: a zero-width character goes, any other stays, and a
   * concatenation is handled part by part.
   */
  lemma {:induction false} DropZeroWidthAppend(a: string, b: string)
    ensures DropZeroWidth(a + b) == DropZeroWidth(a) + DropZeroWidth(b)
    ensures |b| == 1 ==> DropZeroWidth(b) == if ZeroWidth(b[0]) then [] else b
    decreases |b|
  {
    if b == [] {
      assert a + b == a;
    } else {
      var n := |b| - 1;
      var front, c := b[..n], b[n];
      assert b == front + [c];
      var x := (if ZeroWidth(c) then [] else [c]);
      assert a + b == (a + front) + [c];
      calc {
        DropZeroWidth(a + b);
        { DropZeroWidthSnoc(a + front, c); }
        DropZeroWidth(a + front) + x;
        { DropZeroWidthAppend(a, front); }
        (DropZeroWidth(a) + DropZeroWidth(front)) + x;
        DropZeroWidth(a) + (DropZeroWidth(front) + x);
        { DropZeroWidthSnoc(front, c); }
        DropZeroWidth(a) + DropZeroWidth(b);
      }
    }
    if |b| == 1 {
      assert b == [] + [b[0]];
      DropZeroWidthSnoc([], b[0]);
    }
  }

  /** One more element at the end is kept or dropped on its own. */
  lemma DropZeroWidthSnoc(s: string, c: char)
    ensures DropZeroWidth(s + [c]) == DropZeroWidth(s) + (if ZeroWidth(c) then [] else [c])
  {
    var t := s + [c];
    assert t[..|t| - 1] == s;
    assert t[|t| - 1] == c;
  }

  /**
   * The first position from `p` on where `m` matches, the way `re.sub` scans.
   * Every ending pattern is anchored by `$`, so the first match runs to the
   * end and is the only one.
   */
  function FirstMatch(s: string, p: nat, m: (string, nat) -> bool): (r: Option<nat>)
    requires p <= |s| + 1
    ensures r.Some? ==> p <= r.value <= |s|
    decreases |s| + 1 - p
  {
    if p > |s| then None
    else if m(s, p) then Some(p)
    else FirstMatch(s, p + 1, m)
  }

  /** The first match is a match, nothing before it matches, and no match means none at any position. */
  lemma {:induction false} FirstMatchSpec(s: string, p: nat, m: (string, nat) -> bool)
    requires p <= |s| + 1
    ensures var r := FirstMatch(s, p, m);
            (r.Some? ==> m(s, r.value) && forall q :: p <= q < r.value ==> !m(s, q)) &&
            (r.None? ==> forall q :: p <= q <= |s| ==> !m(s, q))
    decreases |s| + 1 - p
  {
    if p <= |s| && !m(s, p) {
      FirstMatchSpec(s, p + 1, m);
    }
  }

  /** Replaces the text from the first match to the end by a blank and `w`. */
  function SubTail(s: string, m: (string, nat) -> bool, w: string): string {
    match FirstMatch(s, 0, m)
    case Some(q) => s[..q] + " " + w
    case None => s
  }

  /** From `i` to the end, whitespace, at most one `.`, then whitespace: `\s*\.?\s*$`. */
  predicate DotTail(s: string, i: nat)
    requires i <= |s|
  {
    var n := SpaceRunEnd(s, i);
    n == |s| || (s[n] == '.' && SpaceRunEnd(s, n + 1) == |s|)
  }

  /** `\bu\s*\.?\s*$`, ignoring case, matches at `q`. */
  predicate UAbbrevAt(s: string, q: nat) {
    q < |s| && Boundary(s, q) && CiEq(s[q], 'u') && DotTail(s, q + 1)
  }

  /** `\b`, then `first` and `t` ignoring case, then `.` and trailing whitespace match at `q`. */
  predicate UtAbbrevAt(s: string, q: nat, first: char) {
    q + 3 <= |s| && Boundary(s, q) && CiEq(s[q], first) && CiEq(s[q + 1], 't') &&
    s[q + 2] == '.' && SpaceRunEnd(s, q + 3) == |s|
  }

  /** `\bút\.\s*$`, ignoring case, matches at `q`. */
  predicate UtAccentAt(s: string, q: nat) { UtAbbrevAt(s, q, 'ú') }

  /** `\but\.\s*$`, ignoring case, matches at `q`. */
  predicate UtPlainAt(s: string, q: nat) { UtAbbrevAt(s, q, 'u') }

  /** The street name after the character fixes and the first whitespace collapse. */
  function Prepared(v: string): string {
    Collapse(DropZeroWidth(NbspToSpace(v)))
  }

  /** The word `utca` (street). */
  const Utca: string := "utca"

  /** The word `út` (road). */
  const Ut: string := "út"

  /** The street name after the three ending rewrites, in the order they are applied. */
  function Endings(s: string): string {
    SubTail(SubTail(SubTail(s, UAbbrevAt, Utca), UtAccentAt, Ut), UtPlainAt, Ut)
  }

  /** `norm_utca` of one cell's text, before transliteration. */
  function NormUtca(v: string): string {
    ToLower(Strip(Collapse(Endings(Prepared(v)))))
  }

  /** The street key uses only single blanks as whitespace, is stripped and lower-case. */
  lemma NormUtcaShape(v: string)
    ensures SingleSpaced(NormUtca(v)) && Stripped(NormUtca(v)) && IsLowerCased(NormUtca(v))
  {
    var c := Collapse(Endings(Prepared(v)));
    CollapseSingleSpaced(Endings(Prepared(v)));
    StripKeepsSingleSpaced(c);
    ToLowerKeepsShape(Strip(c));
  }

  /** Collapsing whitespace keeps a text clean. */
  lemma CollapseClean(s: string)
    requires forall i :: 0 <= i < |s| ==> !ZeroWidth(s[i])
    ensures Clean(Collapse(s))
  {
    CollapseChars(s);
    CollapseSingleSpaced(s);
    var r := Collapse(s);
    forall i | 0 <= i < |r| ensures !ZeroWidth(r[i]) {
      var j :| 0 <= j < |s| && Blank(s[j]) == r[i];
    }
  }

  /** The text after the character fixes is clean. */
  lemma PreparedClean(v: string)
    ensures Clean(Prepared(v))
  {
    var d := DropZeroWidth(NbspToSpace(v));
    forall i | 0 <= i < |d| ensures !ZeroWidth(d[i]) {
      assert d[i] in d;
    }
    CollapseClean(d);
  }

  /** Rewriting an ending keeps a text clean. */
  lemma SubTailClean(s: string, m: (string, nat) -> bool, w: string)
    requires Clean(s) && Clean(w)
    ensures Clean(SubTail(s, m, w))
  {
    match FirstMatch(s, 0, m)
    case Some(q) =>
      var r := s[..q] + " " + w;
      forall i | 0 <= i < |r| ensures !ZeroWidth(r[i]) && r[i] != '\U{A0}' {
        if i < q { assert r[i] == s[i]; } else if i > q { assert r[i] == w[i - q - 1]; }
      }
    case None =>
  }

  /** Stripping and lower-casing keep a text clean. */
  lemma StripLowerClean(s: string)
    requires Clean(s)
    ensures Clean(ToLower(Strip(s)))
  {
    StripClean(s);
    ToLowerClean(Strip(s));
  }

  /** Stripping keeps a text clean. */
  lemma StripClean(s: string)
    requires Clean(s)
    ensures Clean(Strip(s))
  {
    CleanSlice(s, Strip(s), LeadingSpaces(s));
  }

  /** A piece of a clean text is clean. */
  lemma CleanSlice(s: string, r: string, n: nat)
    requires Clean(s) && n + |r| <= |s| && r == s[n..n + |r|]
    ensures Clean(r)
  {
    forall i | 0 <= i < |r| ensures !ZeroWidth(r[i]) && r[i] != '\U{A0}' {
      assert r[i] == s[n + i];
    }
  }

  /** Lower-casing keeps a text clean. */
  lemma ToLowerClean(s: string)
    requires Clean(s)
    ensures Clean(ToLower(s))
  {
    var r := ToLower(s);
    forall i | 0 <= i < |r| ensures !ZeroWidth(r[i]) && r[i] != '\U{A0}' {
      LowerClean(s[i]);
    }
  }

  /** Lower-casing a character other than a zero-width one or a no-break space gives neither. */
  lemma LowerClean(c: char)
    requires !ZeroWidth(c) && c != '\U{A0}'
    ensures !ZeroWidth(Lower(c)) && Lower(c) != '\U{A0}'
  {
  }

  /** The ending rewrites keep a text clean. */
  lemma EndingsClean(p: string)
    requires Clean(p)
    ensures Clean(Endings(p))
  {
    var s1 := SubTail(p, UAbbrevAt, Utca);
    SubTailClean(p, UAbbrevAt, Utca);
    var s2 := SubTail(s1, UtAccentAt, Ut);
    SubTailClean(s1, UtAccentAt, Ut);
    SubTailClean(s2, UtPlainAt, Ut);
  }

  /** The final collapse, strip and lower-casing keep a text clean. */
  lemma FinishClean(e: string)
    requires Clean(e)
    ensures Clean(ToLower(Strip(Collapse(e))))
  {
    CollapseClean(e);
    StripLowerClean(Collapse(e));
  }

  /** No zero-width character and no no-break space survives into the street key. */
  lemma NormUtcaClean(v: string)
    ensures Clean(NormUtca(v))
  {
    PreparedClean(v);
    EndingsClean(Prepared(v));
    FinishClean(Endings(Prepared(v)));
  }

  /** No `út.` or `ut.` ending matches a text whose last character is a letter. */
  lemma NoUtAfterLetter(s: string, first: char)
    requires |s| > 0 && IsLetter(s[|s| - 1])
    ensures forall q :: 0 <= q <= |s| ==> !UtAbbrevAt(s, q, first)
  {
    forall q | 0 <= q <= |s| ensures !UtAbbrevAt(s, q, first) {
      if q + 3 <= |s| && s[q + 2] == '.' {
        var t := s[q + 3..];
        assert t[|t| - 1] == s[|s| - 1];
      }
    }
  }

  /** Collapsing and stripping a text that ends in a word keeps the word at the end. */
  lemma CollapseStripEndsWith(y: string, w: string)
    requires |w| > 0 && NoSpace(w)
    ensures EndsWith(Strip(Collapse(y + w)), w)
  {
    CollapseAppendWord(y, w);
    StripEndsWithWord(Collapse(y), w);
  }

  /** Lower-casing keeps a lower-case ending. */
  lemma ToLowerEndsWith(st: string, w: string)
    requires IsLowerCased(w)
    requires EndsWith(st, w)
    ensures EndsWith(ToLower(st), w)
  {
    var r := ToLower(st);
    forall k | 0 <= k < |w| ensures r[|r| - |w| + k] == w[k] {
      assert st[|st| - |w| + k] == w[k];
    }
  }

  /** The street key of a text ending in a lower-case word ends in that word. */
  lemma NormalisedEndsWith(y: string, w: string)
    requires |w| > 0 && NoSpace(w) && IsLowerCased(w)
    ensures EndsWith(ToLower(Strip(Collapse(y + w))), w)
  {
    CollapseStripEndsWith(y, w);
    ToLowerEndsWith(Strip(Collapse(y + w)), w);
  }

  /** Neither `út.` rewrite changes a text that ends in a letter. */
  lemma LetterEndKept(s: string)
    requires |s| > 0 && IsLetter(s[|s| - 1])
    ensures SubTail(s, UtAccentAt, Ut) == s && SubTail(s, UtPlainAt, Ut) == s
  {
    NoUtAfterLetter(s, 'ú');
    FirstMatchSpec(s, 0, UtAccentAt);
    NoUtAfterLetter(s, 'u');
    FirstMatchSpec(s, 0, UtPlainAt);
  }

  /** The ending rewrites turn a standalone `u` ending into ` utca`. */
  lemma EndingsU(p: string, q0: nat) returns (y: string)
    requires UAbbrevAt(p, q0)
    ensures y == p[..q0] + " " && Endings(p) == y + Utca
  {
    FirstMatchSpec(p, 0, UAbbrevAt);
    var q := FirstMatch(p, 0, UAbbrevAt).value;
    UAbbrevOnce(p, q, q0);
    y := p[..q] + " ";
    var s1 := y + Utca;
    assert SubTail(p, UAbbrevAt, Utca) == s1;
    assert s1[|s1| - 1] == Utca[3];
    LetterEndKept(s1);
  }

  /** The `út.` rewrite turns its ending into ` út`, and the `ut.` rewrite then changes nothing. */
  lemma EndingsUtAccent(p: string, q0: nat) returns (y: string)
    requires UtAccentAt(p, q0)
    ensures y == p[..q0] + " " && SubTail(SubTail(p, UtAccentAt, Ut), UtPlainAt, Ut) == y + Ut
  {
    FirstMatchSpec(p, 0, UtAccentAt);
    var q := FirstMatch(p, 0, UtAccentAt).value;
    UtAbbrevOnce(p, q, q0, 'ú', 'ú');
    y := p[..q] + " ";
    var s2 := y + Ut;
    assert SubTail(p, UtAccentAt, Ut) == s2;
    assert s2[|s2| - 1] == Ut[1];
    LetterEndKept(s2);
  }

  /** With no `út.` ending, the `ut.` rewrite turns its ending into ` út`. */
  lemma EndingsUtPlain(p: string, q0: nat) returns (y: string)
    requires FirstMatch(p, 0, UtAccentAt).None? && UtPlainAt(p, q0)
    ensures y == p[..q0] + " " && SubTail(SubTail(p, UtAccentAt, Ut), UtPlainAt, Ut) == y + Ut
  {
    FirstMatchSpec(p, 0, UtPlainAt);
    var q := FirstMatch(p, 0, UtPlainAt).value;
    UtAbbrevOnce(p, q, q0, 'u', 'u');
    y := p[..q] + " ";
  }

  /** A text matched by `\s*\.?\s*$` holds only whitespace and dots. */
  lemma DotTailChars(s: string, i: nat)
    requires i <= |s| && DotTail(s, i)
    ensures forall k :: i <= k < |s| ==> IsSpace(s[k]) || s[k] == '.'
  {
    var n := SpaceRunEnd(s, i);
    if n < |s| {
      var e := SpaceRunEnd(s, n + 1);
    }
  }

  /** Two `u` endings sit at the same place: only whitespace and a dot follow the `u`. */
  lemma UAbbrevOnce(s: string, q: nat, q0: nat)
    requires UAbbrevAt(s, q) && UAbbrevAt(s, q0)
    ensures q == q0
  {
    if q < q0 {
      DotTailChars(s, q + 1);
      CiLetterNotBlank(s[q0], 'u');
    } else if q0 < q {
      DotTailChars(s, q0 + 1);
      CiLetterNotBlank(s[q], 'u');
    }
  }

  /** A text with an `út.` or `ut.` ending has no `u` ending. */
  lemma UtExcludesU(p: string, q0: nat, first: char)
    requires UtAbbrevAt(p, q0, first)
    ensures forall q :: 0 <= q <= |p| ==> !UAbbrevAt(p, q)
  {
    var e := SpaceRunEnd(p, q0 + 3);
    CiLetterNotBlank(p[q0 + 1], 't');
    forall q | 0 <= q <= |p| && UAbbrevAt(p, q) ensures false {
      DotTailChars(p, q + 1);
      CiLetterNotBlank(p[q], 'u');
    }
  }

  /** The `út.` and `ut.` endings never both match. */
  lemma UtEndingsDisjoint(p: string, q0: nat)
    requires UtPlainAt(p, q0)
    ensures forall q :: 0 <= q <= |p| ==> !UtAccentAt(p, q)
  {
    forall q | 0 <= q <= |p| && UtAccentAt(p, q) ensures false {
      UtAbbrevOnce(p, q, q0, 'ú', 'u');
    }
  }

  /** Two `?t.` endings sit at the same place: only whitespace follows the dot. */
  lemma UtAbbrevOnce(s: string, q: nat, q0: nat, a: char, b: char)
    requires UtAbbrevAt(s, q, a) && UtAbbrevAt(s, q0, b)
    ensures q == q0
  {
    var e := SpaceRunEnd(s, q + 3);
    var e0 := SpaceRunEnd(s, q0 + 3);
    assert !IsSpace(s[q + 2]) && !IsSpace(s[q0 + 2]);
  }

  /** The ending rewrites turn a standalone `út.` ending into ` út`. */
  lemma EndingsUtAccentEnd(p: string, q0: nat) returns (y: string)
    requires UtAccentAt(p, q0)
    ensures y == p[..q0] + " " && Endings(p) == y + Ut
  {
    UtExcludesU(p, q0, 'ú');
    FirstMatchSpec(p, 0, UAbbrevAt);
    assert SubTail(p, UAbbrevAt, Utca) == p;
    FirstMatchSpec(p, 0, UtAccentAt);
    y := EndingsUtAccent(p, q0);
  }

  /** The ending rewrites turn a standalone `ut.` ending into ` út`. */
  lemma EndingsUtPlainEnd(p: string, q0: nat) returns (y: string)
    requires UtPlainAt(p, q0)
    ensures y == p[..q0] + " " && Endings(p) == y + Ut
  {
    UtExcludesU(p, q0, 'u');
    FirstMatchSpec(p, 0, UAbbrevAt);
    assert SubTail(p, UAbbrevAt, Utca) == p;
    UtEndingsDisjoint(p, q0);
    FirstMatchSpec(p, 0, UtAccentAt);
    y := EndingsUtPlain(p, q0);
  }

  /** Both replacement words are non-empty, blank-free and lower-case. */
  lemma EndingWords()
    ensures |Utca| > 0 && NoSpace(Utca) && IsLowerCased(Utca)
    ensures |Ut| > 0 && NoSpace(Ut) && IsLowerCased(Ut)
  {
  }

  /** A street name whose rewritten ending is a lower-case word keeps that word at the end of its key. */
  lemma NormUtcaEndsWith(v: string, y: string, w: string)
    requires |w| > 0 && NoSpace(w) && IsLowerCased(w)
    requires Endings(Prepared(v)) == y + w
    ensures EndsWith(NormUtca(v), w)
  {
    NormalisedEndsWith(y, w);
  }

  /** A street name ending in a standalone `u`, `u.` or `U .` ends in `utca` once normalised. */
  lemma NormUtcaU(v: string, q0: nat)
    requires UAbbrevAt(Prepared(v), q0)
    ensures NormUtca(v) == ToLower(Strip(Collapse(Prepared(v)[..q0] + " " + Utca)))
    ensures EndsWith(NormUtca(v), Utca)
  {
    EndingWords();
    var y := EndingsU(Prepared(v), q0);
    NormUtcaEndsWith(v, y, Utca);
  }

  /** A street name ending in a standalone `út.`, ignoring case and trailing whitespace, ends in `út` once normalised. */
  lemma NormUtcaUtAccent(v: string, q0: nat)
    requires UtAccentAt(Prepared(v), q0)
    ensures NormUtca(v) == ToLower(Strip(Collapse(Prepared(v)[..q0] + " " + Ut)))
    ensures EndsWith(NormUtca(v), Ut)
  {
    EndingWords();
    var y := EndingsUtAccentEnd(Prepared(v), q0);
    NormUtcaEndsWith(v, y, Ut);
  }

  /** A street name ending in a standalone `ut.`, ignoring case and trailing whitespace, ends in `út` once normalised. */
  lemma NormUtcaUtPlain(v: string, q0: nat)
    requires UtPlainAt(Prepared(v), q0)
    ensures NormUtca(v) == ToLower(Strip(Collapse(Prepared(v)[..q0] + " " + Ut)))
    ensures EndsWith(NormUtca(v), Ut)
  {
    EndingWords();
    var y := EndingsUtPlainEnd(Prepared(v), q0);
    NormUtcaEndsWith(v, y, Ut);
  }

  /** A street name with none of the three endings is only cleaned, collapsed, stripped and lower-cased. */
  lemma NormUtcaPlain(v: string)
    requires forall q :: 0 <= q <= |Prepared(v)| ==> !UAbbrevAt(Prepared(v), q)
    requires forall q :: 0 <= q <= |Prepared(v)| ==> !UtAccentAt(Prepared(v), q) && !UtPlainAt(Prepared(v), q)
    ensures NormUtca(v) == ToLower(Strip(Collapse(Prepared(v))))
  {
    var p := Prepared(v);
    FirstMatchSpec(p, 0, UAbbrevAt);
    FirstMatchSpec(p, 0, UtAccentAt);
    FirstMatchSpec(p, 0, UtPlainAt);
  }

  /** `norm_hazszam` of one cell's text: strip, drop one trailing `.0`, delete all whitespace. */
  function NormHazszam(v: string): string {
    DeleteSpaces(DropPointZero(Strip(v)))
  }

  /** `re.sub(r"\.0$", "", s)` on a stripped text: one trailing `.0` removed. */
  function DropPointZero(s: string): string {
    if |s| >= 2 && s[|s| - 2] == '.' && s[|s| - 1] == '0' then s[..|s| - 2] else s
  }

  /** The house-number key holds no whitespace. */
  lemma NormHazszamNoSpace(v: string)
    ensures NoSpace(NormHazszam(v))
  {
    DeleteSpacesMeaning(DropPointZero(Strip(v)));
  }

  /** A float-formatted number loses its `.0`: `"29.0"` becomes `"29"`. */
  lemma NormHazszamPointZero(x: string)
    requires NoSpace(x)
    ensures NormHazszam(x + ".0") == x
  {
    var s := x + ['.', '0'];
    assert s == x + ".0";
    assert s[|s| - 2] == '.' && s[|s| - 1] == '0' && s[..|s| - 2] == x;
    assert !IsSpace(s[0]) && !IsSpace(s[|s| - 1]);
    StripStripped(s);
    assert DropPointZero(s) == x;
    DeleteSpacesNoSpace(x);
  }

  /** A row of either frame: the street and house-number columns, and the rest. */
  datatype Rec = Rec(street: Cell, number: Cell, rest: seq<string>)

  /** A join key: the street key and the house-number key. */
  datatype Key = Key(utca: string, hazszam: string)

  /** The key of a row; `fold` is the transliteration (`unidecode`) applied to the street key. */
  function KeyOf(r: Rec, fold: string -> string): Key {
    Key(fold(NormUtca(AsStr(r.street))), NormHazszam(AsStr(r.number)))
  }

  /** The key column of a frame, row by row. */
  function KeysOf(rows: seq<Rec>, fold: string -> string): (ks: seq<Key>)
    ensures |ks| == |rows| && forall i :: 0 <= i < |rows| ==> ks[i] == KeyOf(rows[i], fold)
  {
    seq(|rows|, i requires 0 <= i < |rows| => KeyOf(rows[i], fold))
  }

  /** A frame that gets its key columns added in place. */
  class Frame {
    var rows: seq<Rec>
    var keys: seq<Key>

    constructor (rows0: seq<Rec>)
      ensures rows == rows0 && keys == []
    {
      rows := rows0;
      keys := [];
    }

    /** Writes the street-key and house-number-key columns; the rows are left as they were. */
    method AddKeys(fold: string -> string)
      modifies this
      ensures rows == old(rows) && keys == KeysOf(rows, fold)
    {
      keys := KeysOf(rows, fold);
    }
  }

  /** The matches of one left row among the right rows, in right order. */
  function Matches(a: Rec, ka: Key, right: seq<Rec>, rk: seq<Key>): seq<(Rec, Rec)>
    requires |right| == |rk|
  {
    if right == [] then []
    else
      var n := |right| - 1;
      Matches(a, ka, right[..n], rk[..n]) + (if rk[n] == ka then [(a, right[n])] else [])
  }

  /** An inner merge on the key columns: left order, then right order within each left row. */
  function InnerJoin(left: seq<Rec>, lk: seq<Key>, right: seq<Rec>, rk: seq<Key>): seq<(Rec, Rec)>
    requires |left| == |lk| && |right| == |rk|
  {
    if left == [] then []
    else
      var n := |left| - 1;
      InnerJoin(left[..n], lk[..n], right, rk) + Matches(left[n], lk[n], right, rk)
  }

  lemma {:induction false} MatchesMeaning(a: Rec, ka: Key, right: seq<Rec>, rk: seq<Key>, b: Rec)
    requires |right| == |rk|
    ensures (a, b) in Matches(a, ka, right, rk) <==> exists j :: 0 <= j < |right| && right[j] == b && rk[j] == ka
    ensures forall x :: x in Matches(a, ka, right, rk) ==> x.0 == a
  {
    if right != [] {
      var n := |right| - 1;
      MatchesMeaning(a, ka, right[..n], rk[..n], b);
      if exists j :: 0 <= j < |right| && right[j] == b && rk[j] == ka {
        var j :| 0 <= j < |right| && right[j] == b && rk[j] == ka;
        if j < n { assert right[..n][j] == b && rk[..n][j] == ka; }
      }
      if exists j :: 0 <= j < n && right[..n][j] == b && rk[..n][j] == ka {
        var j :| 0 <= j < n && right[..n][j] == b && rk[..n][j] == ka;
        assert right[j] == b && rk[j] == ka;
      }
    }
  }

  /** A pair is in the inner join exactly when a left row and a right row with equal keys form it. */
  lemma InnerJoinMeaning(left: seq<Rec>, lk: seq<Key>, right: seq<Rec>, rk: seq<Key>, a: Rec, b: Rec)
    requires |left| == |lk| && |right| == |rk|
    ensures (a, b) in InnerJoin(left, lk, right, rk) <==>
            exists i, j :: 0 <= i < |left| && 0 <= j < |right| && left[i] == a && right[j] == b && lk[i] == rk[j]
  {
    if (a, b) in InnerJoin(left, lk, right, rk) {
      InnerJoinSound(left, lk, right, rk, a, b);
    }
    if exists i, j :: 0 <= i < |left| && 0 <= j < |right| && left[i] == a && right[j] == b && lk[i] == rk[j] {
      var i, j :| 0 <= i < |left| && 0 <= j < |right| && left[i] == a && right[j] == b && lk[i] == rk[j];
      InnerJoinComplete(left, lk, right, rk, i, j);
    }
  }

  /** Every joined pair is a left row and a right row with equal keys. */
  lemma {:induction false} InnerJoinSound(left: seq<Rec>, lk: seq<Key>, right: seq<Rec>, rk: seq<Key>, a: Rec, b: Rec)
    requires |left| == |lk| && |right| == |rk| && (a, b) in InnerJoin(left, lk, right, rk)
    ensures exists i, j :: 0 <= i < |left| && 0 <= j < |right| && left[i] == a && right[j] == b && lk[i] == rk[j]
  {
    var n := |left| - 1;
    if (a, b) in InnerJoin(left[..n], lk[..n], right, rk) {
      InnerJoinSound(left[..n], lk[..n], right, rk, a, b);
      var i, j :| 0 <= i < n && 0 <= j < |right| && left[..n][i] == a && right[j] == b && lk[..n][i] == rk[j];
      assert left[i] == a && lk[i] == rk[j];
    } else {
      assert (a, b) in Matches(left[n], lk[n], right, rk);
      MatchesMeaning(left[n], lk[n], right, rk, b);
      assert left[n] == a;
      var j :| 0 <= j < |right| && right[j] == b && rk[j] == lk[n];
    }
  }

  /** Every left row and right row with equal keys are joined. */
  lemma {:induction false} InnerJoinComplete(left: seq<Rec>, lk: seq<Key>, right: seq<Rec>, rk: seq<Key>, i: nat, j: nat)
    requires |left| == |lk| && |right| == |rk| && i < |left| && j < |right| && lk[i] == rk[j]
    ensures (left[i], right[j]) in InnerJoin(left, lk, right, rk)
  {
    var n := |left| - 1;
    if i < n {
      InnerJoinComplete(left[..n], lk[..n], right, rk, i, j);
      assert left[..n][i] == left[i];
    } else {
      MatchesMeaning(left[n], lk[n], right, rk, right[j]);
    }
  }

  /** The register rows joined to the geocoded rows on both keys. */
  function JoinRows(register: seq<Rec>, gm: seq<Rec>, fold: string -> string): seq<(Rec, Rec)> {
    InnerJoin(register, KeysOf(register, fold), gm, KeysOf(gm, fold))
  }

  /**
   * A pair is joined exactly when it is a register row and a geocoded row
   * whose street keys and house-number keys are both equal.
   */
  lemma JoinRowsMeaning(register: seq<Rec>, gm: seq<Rec>, fold: string -> string, a: Rec, b: Rec)
    ensures (a, b) in JoinRows(register, gm, fold) <==>
            a in register && b in gm && KeyOf(a, fold) == KeyOf(b, fold)
  {
    var lk := KeysOf(register, fold);
    var rk := KeysOf(gm, fold);
    InnerJoinMeaning(register, lk, gm, rk, a, b);
    if a in register && b in gm && KeyOf(a, fold) == KeyOf(b, fold) {
      var i :| 0 <= i < |register| && register[i] == a;
      var j :| 0 <= j < |gm| && gm[j] == b;
      assert lk[i] == rk[j];
    }
  }

  /** The register read from storage, without duplicate rows. */
  function ImportRegister(stored: seq<Rec>): seq<Rec> {
    Unique(stored)
  }

  /** The exception `osszekapcs` raises as written. */
  datatype JoinError = AmbiguousTruthValue

  /**
   * `osszekapcs` as written: `if not df_cimjegyzek` asks a DataFrame for its
   * truth value, which pandas refuses with a ValueError for every frame,
   * empty or not; only a missing register reaches the join.
   */
  function OsszekapcsAsWritten(gm: seq<Rec>, register: Option<seq<Rec>>, stored: seq<Rec>, fold: string -> string):
    Result<seq<(Rec, Rec)>, JoinError>
  {
    if register.Some? then Failure(AmbiguousTruthValue)
    else Success(JoinRows(ImportRegister(stored), gm, fold))
  }

  /**
   * As written, a register passed by the caller is never joined, even when
   * it holds a row whose keys equal those of a geocoded row.
   */
  lemma AsWrittenDropsRegister(gm: seq<Rec>, register: seq<Rec>, stored: seq<Rec>, fold: string -> string, a: Rec, b: Rec)
    requires a in register && b in gm && KeyOf(a, fold) == KeyOf(b, fold)
    ensures OsszekapcsAsWritten(gm, Some(register), stored, fold).Failure?
    ensures (a, b) in JoinRows(register, gm, fold)
  {
    JoinRowsMeaning(register, gm, fold, a, b);
  }

  /**
   * `osszekapcs` with the register check read as `is None`: a missing
   * register is read from storage, both frames get their keys in place, and
   * the register is inner-joined to the geocoded rows.
   */
  method Osszekapcs(gm: Frame, register: Frame?, stored: seq<Rec>, fold: string -> string)
    returns (joined: seq<(Rec, Rec)>)
    modifies gm, register
    ensures gm.rows == old(gm.rows) && gm.keys == KeysOf(gm.rows, fold)
    ensures register != null ==> register.rows == old(register.rows) && register.keys == KeysOf(register.rows, fold)
    ensures joined == JoinRows(if register == null then ImportRegister(stored) else old(register.rows), gm.rows, fold)
  {
    var reg := register;
    if reg == null {
      reg := new Frame(ImportRegister(stored));
    }
    gm.AddKeys(fold);
    reg.AddKeys(fold);
    joined := InnerJoin(reg.rows, reg.keys, gm.rows, gm.keys);
  }
}
