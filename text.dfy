/**
 * Character classes and the whitespace, case and token primitives that the
 * address-cleaning code takes from Python's `str` methods and `re` classes.
 *
 * Letters are the ASCII letters and the Hungarian accented letters; digits are
 * the ASCII digits; whitespace is the set Python's `str.isspace` (and `\s` in a
 * `str` pattern) accepts.
 */
module Text {
  import opened Util

  predicate IsDigit(c: char) { '0' <= c <= '9' }

  predicate IsLowerLetter(c: char) {
    ('a' <= c <= 'z') || c == 'á' || c == 'é' || c == 'í' || c == 'ó' || c == 'ö'
    || c == 'ő' || c == 'ú' || c == 'ü' || c == 'ű'
  }

  predicate IsUpperLetter(c: char) {
    ('A' <= c <= 'Z') || c == 'Á' || c == 'É' || c == 'Í' || c == 'Ó' || c == 'Ö'
    || c == 'Ő' || c == 'Ú' || c == 'Ü' || c == 'Ű'
  }

  /** The class `[A-Za-zÁÉÍÓÖŐÚÜŰáéíóöőúüű]`, also used for `str.isalpha`. */
  predicate IsLetter(c: char) { IsLowerLetter(c) || IsUpperLetter(c) }

  /** A character of the regular-expression class `\w`. */
  predicate IsWord(c: char) { IsLetter(c) || IsDigit(c) || c == '_' }

  /** `str.isspace` and the regular-expression class `\s`. */
  predicate IsSpace(c: char) {
    c == ' ' || ('\t' <= c <= '\r') || ('\U{1C}' <= c <= '\U{1F}') || c == '\U{85}'
    || c == '\U{A0}' || c == '\U{1680}' || ('\U{2000}' <= c <= '\U{200A}')
    || c == '\U{2028}' || c == '\U{2029}' || c == '\U{202F}' || c == '\U{205F}'
    || c == '\U{3000}'
  }

  function Upper(c: char): (d: char)
    ensures IsLetter(c) <==> IsLetter(d)
    ensures !IsLetter(c) ==> d == c
    ensures IsLetter(c) ==> IsUpperLetter(d)
  {
    if 'a' <= c <= 'z' then (c as int - 32) as char
    else if c == 'á' then 'Á' else if c == 'é' then 'É' else if c == 'í' then 'Í'
    else if c == 'ó' then 'Ó' else if c == 'ö' then 'Ö' else if c == 'ő' then 'Ő'
    else if c == 'ú' then 'Ú' else if c == 'ü' then 'Ü' else if c == 'ű' then 'Ű'
    else c
  }

  function Lower(c: char): (d: char)
    ensures IsLetter(c) <==> IsLetter(d)
    ensures !IsLetter(c) ==> d == c
    ensures IsLetter(c) ==> IsLowerLetter(d)
  {
    if 'A' <= c <= 'Z' then (c as int + 32) as char
    else if c == 'Á' then 'á' else if c == 'É' then 'é' else if c == 'Í' then 'í'
    else if c == 'Ó' then 'ó' else if c == 'Ö' then 'ö' else if c == 'Ő' then 'ő'
    else if c == 'Ú' then 'ú' else if c == 'Ü' then 'ü' else if c == 'Ű' then 'ű'
    else c
  }

  /** `str.upper`, restricted to the letters above. */
  function ToUpper(s: string): (r: string)
    ensures |r| == |s|
    ensures forall i :: 0 <= i < |s| ==> r[i] == Upper(s[i])
  {
    seq(|s|, i requires 0 <= i < |s| => Upper(s[i]))
  }

  /** `str.lower`, restricted to the letters above. */
  function ToLower(s: string): (r: string)
    ensures |r| == |s|
    ensures forall i :: 0 <= i < |s| ==> r[i] == Lower(s[i])
  {
    seq(|s|, i requires 0 <= i < |s| => Lower(s[i]))
  }

  /** No letter of `s` is lower-case: `s` is its own upper-case form. */
  predicate IsUpperCased(s: string) { forall i :: 0 <= i < |s| ==> s[i] == Upper(s[i]) }

  /** No letter of `s` is upper-case: `s` is its own lower-case form. */
  predicate IsLowerCased(s: string) { forall i :: 0 <= i < |s| ==> s[i] == Lower(s[i]) }

  lemma UpperIdempotent(c: char)
    ensures Upper(Upper(c)) == Upper(c)
  {
  }

  lemma LowerIdempotent(c: char)
    ensures Lower(Lower(c)) == Lower(c)
  {
  }

  /** Case-insensitive equality of two characters (the `re.IGNORECASE` flag). */
  predicate CiEq(c: char, d: char) { Lower(c) == Lower(d) }

  /** `w` occurs case-insensitively in `s` at position `i`. */
  predicate CiAt(s: string, i: nat, w: string) {
    i + |w| <= |s| && forall k :: 0 <= k < |w| ==> CiEq(s[i + k], w[k])
  }

  /** A letter that equals `c` ignoring case is neither whitespace nor a dot. */
  lemma CiLetterNotBlank(d: char, c: char)
    requires IsLetter(c) && CiEq(d, c)
    ensures !IsSpace(d) && d != '.' && IsLetter(d)
  {
  }

  /** The character before position `i` is a word character. */
  predicate WordBefore(s: string, i: nat) { 0 < i <= |s| && IsWord(s[i - 1]) }

  /** The character at position `i` is a word character. */
  predicate WordAt(s: string, i: nat) { i < |s| && IsWord(s[i]) }

  /** The regular-expression assertion `\b` at position `i`. */
  predicate Boundary(s: string, i: nat) { WordBefore(s, i) != WordAt(s, i) }

  /** The regular-expression assertion `$`: the end, or just before a final newline. */
  predicate EndAnchor(s: string, p: nat) {
    p == |s| || (p + 1 == |s| && s[p] == '\n')
  }

  /**
   * Where `.*$` starting at `k` ends: `.` stops at a newline, and `$` must
   * then hold there. `None` when a newline before the last character blocks it.
   */
  function DotStarEnd(s: string, k: nat): (e: Option<nat>)
    requires k <= |s|
    ensures e.Some? ==> k <= e.value <= |s| && EndAnchor(s, e.value)
    ensures e.Some? ==> forall i :: k <= i < e.value ==> s[i] != '\n'
    ensures e.None? ==> exists i :: k <= i < |s| - 1 && s[i] == '\n'
    decreases |s| - k
  {
    if k == |s| then Some(k)
    else if s[k] == '\n' then (if k + 1 == |s| then Some(k) else None)
    else DotStarEnd(s, k + 1)
  }

  /** No whitespace anywhere in `s`. */
  predicate NoSpace(s: string) { forall i :: 0 <= i < |s| ==> !IsSpace(s[i]) }

  /** Every whitespace character is a single blank. */
  predicate SingleSpaced(s: string) {
    forall i :: 0 <= i < |s| && IsSpace(s[i]) ==> s[i] == ' ' && (i + 1 == |s| || !IsSpace(s[i + 1]))
  }

  /** Neither begins nor ends with whitespace. */
  predicate Stripped(s: string) { |s| == 0 || (!IsSpace(s[0]) && !IsSpace(s[|s| - 1])) }

  /** `str.lstrip()`: drops the leading whitespace. */
  function LStrip(s: string): (r: string)
    ensures |r| <= |s| && r == s[|s| - |r|..]
    ensures r == [] || !IsSpace(r[0])
    ensures forall i :: 0 <= i < |s| - |r| ==> IsSpace(s[i])
  {
    if s == [] || !IsSpace(s[0]) then s else LStrip(s[1..])
  }

  /** `str.rstrip()`: drops the trailing whitespace. */
  function RStrip(s: string): (r: string)
    ensures |r| <= |s| && r == s[..|r|]
    ensures r == [] || !IsSpace(r[|r| - 1])
    ensures forall i :: |r| <= i < |s| ==> IsSpace(s[i])
  {
    if s == [] || !IsSpace(s[|s| - 1]) then s else RStrip(s[..|s| - 1])
  }

  /** Number of leading whitespace characters. */
  function LeadingSpaces(s: string): (n: nat)
    ensures n <= |s| && LStrip(s) == s[n..]
  {
    |s| - |LStrip(s)|
  }

  /** `str.strip()`: the text between the leading and the trailing whitespace. */
  function Strip(s: string): (r: string)
    ensures Stripped(r)
    ensures LeadingSpaces(s) + |r| <= |s| && r == s[LeadingSpaces(s)..LeadingSpaces(s) + |r|]
    ensures forall k :: 0 <= k < LeadingSpaces(s) ==> IsSpace(s[k])
    ensures forall k :: LeadingSpaces(s) + |r| <= k < |s| ==> IsSpace(s[k])
  {
    var l := LStrip(s);
    var r := RStrip(l);
    assert forall k :: |r| <= k < |l| ==> IsSpace(l[k]);
    r
  }

  /** `str.rstrip(ch)`: drops every trailing `ch`. */
  function RStripChar(s: string, ch: char): (r: string)
    ensures |r| <= |s| && r == s[..|r|]
    ensures r == [] || r[|r| - 1] != ch
    ensures forall i :: |r| <= i < |s| ==> s[i] == ch
  {
    if s == [] || s[|s| - 1] != ch then s else RStripChar(s[..|s| - 1], ch)
  }

  /**
   * `re.sub(r"\s+", " ", s)`: each run of whitespace becomes one blank. Read
   * character by character: a whitespace character followed by another one is
   * dropped, and the last one of a run is written as a blank.
   */
  function Collapse(s: string): (r: string)
    ensures |r| <= |s|
  {
    if s == [] then []
    else if IsSpace(s[0]) && |s| > 1 && IsSpace(s[1]) then Collapse(s[1..])
    else [Blank(s[0])] + Collapse(s[1..])
  }

  /** A collapsed text is single-spaced, and empty exactly when the text is. */
  lemma {:induction false} CollapseSingleSpaced(s: string)
    ensures SingleSpaced(Collapse(s))
    ensures |Collapse(s)| == 0 <==> |s| == 0
    decreases |s|
  {
    if s != [] {
      CollapseSingleSpaced(s[1..]);
      if !(IsSpace(s[0]) && |s| > 1 && IsSpace(s[1])) {
        var c := Collapse(s[1..]);
        var r := [Blank(s[0])] + c;
        if |s| > 1 { CollapseFirst(s[1..]); }
        forall i | 0 <= i < |r| && IsSpace(r[i]) ensures r[i] == ' ' && (i + 1 == |r| || !IsSpace(r[i + 1])) {
          if i > 0 { assert r[i] == c[i - 1]; }
        }
      }
    }
  }

  /** Removing whitespace from the ends keeps a single-spaced text single-spaced. */
  lemma StripKeepsSingleSpaced(s: string)
    requires SingleSpaced(s)
    ensures SingleSpaced(Strip(s))
  {
    SliceSingleSpaced(s, Strip(s), LeadingSpaces(s));
  }

  /** A piece of a single-spaced text is single-spaced. */
  lemma SliceSingleSpaced(s: string, r: string, i: nat)
    requires SingleSpaced(s) && i + |r| <= |s| && r == s[i..i + |r|]
    ensures SingleSpaced(r)
  {
    forall k | 0 <= k < |r| && IsSpace(r[k])
      ensures r[k] == ' ' && (k + 1 == |r| || !IsSpace(r[k + 1]))
    {
      assert r[k] == s[i + k];
      if k + 1 < |r| { assert r[k + 1] == s[i + k + 1]; }
    }
  }

  /** The longest whitespace-free prefix. */
  function TakeWord(s: string): (w: string)
    ensures |w| <= |s| && w == s[..|w|]
    ensures NoSpace(w)
    ensures |w| == |s| || IsSpace(s[|w|])
  {
    if s == [] || IsSpace(s[0]) then [] else [s[0]] + TakeWord(s[1..])
  }

  /** `str.split()` with no separator: the maximal whitespace-free pieces. */
  function Tokens(s: string): (r: seq<string>)
    decreases |s|
  {
    if s == [] then []
    else if IsSpace(s[0]) then Tokens(s[1..])
    else
      var w := TakeWord(s);
      [w] + Tokens(s[|w|..])
  }

  /** A text with a non-whitespace character splits into at least one piece. */
  lemma {:induction false} TokensNonEmpty(s: string, i: nat)
    requires i < |s| && !IsSpace(s[i])
    ensures |Tokens(s)| >= 1
    decreases |s|
  {
    if IsSpace(s[0]) {
      TokensNonEmpty(s[1..], i - 1);
    }
  }

  /** The pieces of `str.split()` are non-empty and free of whitespace. */
  lemma {:induction false} TokensAreWords(s: string)
    ensures forall k :: 0 <= k < |Tokens(s)| ==> |Tokens(s)[k]| > 0 && NoSpace(Tokens(s)[k])
    decreases |s|
  {
    if s != [] {
      if IsSpace(s[0]) {
        TokensAreWords(s[1..]);
      } else {
        var w := TakeWord(s);
        TokensAreWords(s[|w|..]);
        var r := Tokens(s);
        forall k | 0 <= k < |r| ensures |r[k]| > 0 && NoSpace(r[k]) {
          if k > 0 { assert r[k] == Tokens(s[|w|..])[k - 1]; }
        }
      }
    }
  }

  /** Some character of `s` is a letter and some is a digit. */
  predicate HasLetterAndDigit(s: string) {
    (exists i :: 0 <= i < |s| && IsLetter(s[i])) && (exists i :: 0 <= i < |s| && IsDigit(s[i]))
  }

  /** A whitespace character read as the blank that `re.sub(r"\s+", " ", …)` writes for it. */
  function Blank(c: char): char { if IsSpace(c) then ' ' else c }

  /** The end of the whitespace run starting at `i`. */
  function SpaceRunEnd(s: string, i: nat): (e: nat)
    requires i <= |s|
    ensures i <= e <= |s|
    ensures forall k :: i <= k < e ==> IsSpace(s[k])
    ensures e == |s| || !IsSpace(s[e])
    decreases |s| - i
  {
    if i == |s| || !IsSpace(s[i]) then i else SpaceRunEnd(s, i + 1)
  }

  /** A newline is whitespace, so a run of blanks goes over it. */
  lemma NewlineSpaceRun(s: string, i: nat)
    requires i < |s| && s[i] == '\n'
    ensures SpaceRunEnd(s, i) == SpaceRunEnd(s, i + 1)
  {
    assert IsSpace('\n');
  }

  /** The end of the digit run starting at `i`. */
  function DigitRunEnd(s: string, i: nat): (e: nat)
    requires i <= |s|
    ensures i <= e <= |s|
    ensures forall k :: i <= k < e ==> IsDigit(s[k])
    ensures e == |s| || !IsDigit(s[e])
    decreases |s| - i
  {
    if i == |s| || !IsDigit(s[i]) then i else DigitRunEnd(s, i + 1)
  }

  /** The end of the whitespace-free run starting at `i`. */
  function WordRunEnd(s: string, i: nat): (e: nat)
    requires i <= |s|
    ensures i <= e <= |s|
    ensures forall k :: i <= k < e ==> !IsSpace(s[k])
    ensures e == |s| || IsSpace(s[e])
    decreases |s| - i
  {
    if i == |s| || IsSpace(s[i]) then i else WordRunEnd(s, i + 1)
  }

  /** The first character of a collapsed text is the first character of the text, blanked. */
  lemma {:induction false} CollapseFirst(s: string)
    requires |s| > 0
    ensures |Collapse(s)| > 0 && Collapse(s)[0] == Blank(s[0])
    decreases |s|
  {
    if IsSpace(s[0]) && |s| > 1 && IsSpace(s[1]) {
      CollapseFirst(s[1..]);
    }
  }

  /** A character other than whitespace lies inside the stripped text, shifted by the leading whitespace. */
  lemma {:induction false} StripKeeps(s: string, k: nat)
    requires k < |s| && !IsSpace(s[k])
    ensures LeadingSpaces(s) <= k < LeadingSpaces(s) + |Strip(s)| && Strip(s)[k - LeadingSpaces(s)] == s[k]
  {
    var l := LeadingSpaces(s);
    var r := Strip(s);
    assert r[k - l] == s[l..l + |r|][k - l];
  }

  /** Three characters in a row, none of them whitespace, stay in a row after the collapse and the strip. */
  lemma {:induction false} StripCollapseKeepsTriple(s: string, j: nat) returns (q: nat)
    requires 0 < j < |s| - 1 && !IsSpace(s[j - 1]) && !IsSpace(s[j]) && !IsSpace(s[j + 1])
    ensures 0 < q < |Strip(Collapse(s))| - 1
    ensures Strip(Collapse(s))[q - 1] == s[j - 1] && Strip(Collapse(s))[q] == s[j] && Strip(Collapse(s))[q + 1] == s[j + 1]
  {
    var m := CollapseKeepsTriple(s, j - 1);
    var q0 := StripKeepsTriple(Collapse(s), m);
    q := q0 + 1;
  }

  /** Three characters in a row, the outer two not whitespace, stay in a row after the strip. */
  lemma {:induction false} StripKeepsTriple(c: string, m: nat) returns (q: nat)
    requires m + 2 < |c| && !IsSpace(c[m]) && !IsSpace(c[m + 2])
    ensures q + 2 < |Strip(c)| && Strip(c)[q] == c[m] && Strip(c)[q + 1] == c[m + 1] && Strip(c)[q + 2] == c[m + 2]
  {
    StripKeeps(c, m);
    StripKeeps(c, m + 2);
    var l := LeadingSpaces(c);
    var r := Strip(c);
    q := m - l;
    assert r == c[l..l + |r|];
    assert r[q + 1] == c[m + 1];
  }

  /** Three characters in a row, none of them whitespace, stay in a row after the collapse. */
  lemma {:induction false} CollapseKeepsTriple(s: string, j: nat) returns (m: nat)
    requires j + 2 < |s| && !IsSpace(s[j]) && !IsSpace(s[j + 1]) && !IsSpace(s[j + 2])
    ensures m + 2 < |Collapse(s)| && Collapse(s)[m] == s[j] && Collapse(s)[m + 1] == s[j + 1] && Collapse(s)[m + 2] == s[j + 2]
    decreases j
  {
    var t := s[1..];
    if j == 0 {
      assert Collapse(s) == [s[0]] + Collapse(t);
      assert t[0] == s[1];
      assert Collapse(t) == [s[1]] + Collapse(t[1..]);
      CollapseFirst(t[1..]);
      assert t[1..][0] == s[2];
      m := 0;
    } else {
      assert t[j - 1] == s[j] && t[j] == s[j + 1] && t[j + 1] == s[j + 2];
      var m0 := CollapseKeepsTriple(t, j - 1);
      if IsSpace(s[0]) && |s| > 1 && IsSpace(s[1]) {
        assert Collapse(s) == Collapse(t);
        m := m0;
      } else {
        assert Collapse(s) == [Blank(s[0])] + Collapse(t);
        m := m0 + 1;
      }
    }
  }

  /** The last character of a collapsed text is the last character of the text, blanked. */
  lemma {:induction false} CollapseLast(s: string)
    requires |s| > 0
    ensures |Collapse(s)| > 0 && Collapse(s)[|Collapse(s)| - 1] == Blank(s[|s| - 1])
    decreases |s|
  {
    if |s| > 1 {
      CollapseLast(s[1..]);
      assert s[1..][|s| - 2] == s[|s| - 1];
    }
  }

  /** `a` then `b` occur as neighbours in `s`, up to blanking. */
  ghost predicate NeighboursIn(s: string, a: char, b: char) {
    exists j :: 0 <= j < |s| - 1 && Blank(s[j]) == a && Blank(s[j + 1]) == b
  }

  /** `a` occurs in `s`, up to blanking. */
  ghost predicate OccursIn(s: string, a: char) {
    exists j :: 0 <= j < |s| && Blank(s[j]) == a
  }

  /**
   * Every two neighbouring characters of a collapsed text were neighbours in the
   * text, up to blanking: collapsing never brings two characters together.
   */
  lemma {:induction false} CollapsePairs(s: string)
    ensures forall k :: 0 <= k < |Collapse(s)| - 1 ==> NeighboursIn(s, Collapse(s)[k], Collapse(s)[k + 1])
    decreases |s|
  {
    var r := Collapse(s);
    if |s| > 1 {
      var t := s[1..];
      var c := Collapse(t);
      CollapsePairs(t);
      forall k | 0 <= k < |c| - 1 ensures NeighboursIn(s, c[k], c[k + 1]) {
        assert NeighboursIn(t, c[k], c[k + 1]);
        var j :| 0 <= j < |t| - 1 && Blank(t[j]) == c[k] && Blank(t[j + 1]) == c[k + 1];
        assert s[j + 1] == t[j] && s[j + 2] == t[j + 1];
      }
      if !(IsSpace(s[0]) && IsSpace(s[1])) {
        assert r == [Blank(s[0])] + c;
        CollapseFirst(t);
        assert Blank(s[0]) == r[0] && Blank(s[1]) == r[1];
        forall k | 0 <= k < |r| - 1 ensures NeighboursIn(s, r[k], r[k + 1]) {
          if k > 0 { assert r[k] == c[k - 1] && r[k + 1] == c[k]; }
        }
      }
    }
  }

  /** Every character of a collapsed text is a character of the text, blanked. */
  lemma {:induction false} CollapseChars(s: string)
    ensures forall k :: 0 <= k < |Collapse(s)| ==> OccursIn(s, Collapse(s)[k])
    decreases |s|
  {
    var r := Collapse(s);
    if s != [] {
      var t := s[1..];
      var c := Collapse(t);
      CollapseChars(t);
      forall k | 0 <= k < |c| ensures OccursIn(s, c[k]) {
        var j :| 0 <= j < |t| && Blank(t[j]) == c[k];
        assert s[j + 1] == t[j];
      }
      if !(IsSpace(s[0]) && |s| > 1 && IsSpace(s[1])) {
        assert r == [Blank(s[0])] + c;
        forall k | 0 <= k < |r| ensures OccursIn(s, r[k]) {
          if k == 0 { assert Blank(s[0]) == r[0]; } else { assert r[k] == c[k - 1]; }
        }
      }
    }
  }

  /** A text that is already single-spaced is its own collapse. */
  lemma {:induction false} CollapseIdentity(s: string)
    requires SingleSpaced(s)
    ensures Collapse(s) == s
    decreases |s|
  {
    if s != [] {
      assert IsSpace(s[0]) ==> s[0] == ' ' && (|s| == 1 || !IsSpace(s[1]));
      assert SingleSpaced(s[1..]) by {
        forall i | 0 <= i < |s[1..]| && IsSpace(s[1..][i])
          ensures s[1..][i] == ' ' && (i + 1 == |s[1..]| || !IsSpace(s[1..][i + 1]))
        {
          assert s[1..][i] == s[i + 1];
        }
      }
      CollapseIdentity(s[1..]);
      assert s == [s[0]] + s[1..];
    }
  }

  /** Collapsing a text followed by a whitespace-free word leaves the word as it is. */
  lemma {:induction false} CollapseAppendWord(a: string, w: string)
    requires NoSpace(w)
    ensures Collapse(a + w) == Collapse(a) + w
    decreases |a|
  {
    if a == [] {
      assert a + w == w;
      assert SingleSpaced(w);
      CollapseIdentity(w);
    } else {
      var t := a + w;
      assert t[0] == a[0] && t[1..] == a[1..] + w;
      CollapseAppendWord(a[1..], w);
      var skip := IsSpace(a[0]) && |a| > 1 && IsSpace(a[1]);
      assert skip == (IsSpace(t[0]) && |t| > 1 && IsSpace(t[1])) by {
        if |a| > 1 { assert t[1] == a[1]; } else if w != [] { assert t[1] == w[0]; }
      }
      if !skip {
        assert Collapse(t) == [Blank(a[0])] + (Collapse(a[1..]) + w);
      }
    }
  }

  /** A text with whitespace and blanks in the same places keeps single spacing and stripped ends. */
  lemma SameBlanks(s: string, r: string)
    requires |r| == |s|
    requires forall i :: 0 <= i < |s| ==> IsSpace(r[i]) == IsSpace(s[i]) && (r[i] == ' ' <==> s[i] == ' ')
    ensures SingleSpaced(s) ==> SingleSpaced(r)
    ensures Stripped(s) ==> Stripped(r)
  {
  }

  /** Lower-casing keeps single spacing and stripped ends, and its result is lower-cased. */
  lemma ToLowerKeepsShape(s: string)
    ensures SingleSpaced(s) ==> SingleSpaced(ToLower(s))
    ensures Stripped(s) ==> Stripped(ToLower(s))
    ensures IsLowerCased(ToLower(s))
  {
    var r := ToLower(s);
    forall i | 0 <= i < |s| ensures IsSpace(r[i]) == IsSpace(s[i]) && (r[i] == ' ' <==> s[i] == ' ') && r[i] == Lower(r[i]) {
      LowerKeepsBlank(s[i]);
    }
    SameBlanks(s, r);
  }

  /** Lower-casing a character keeps whitespace and the blank, and is idempotent. */
  lemma LowerKeepsBlank(c: char)
    ensures IsSpace(Lower(c)) == IsSpace(c) && (Lower(c) == ' ' <==> c == ' ') && Lower(Lower(c)) == Lower(c)
  {
    LowerIdempotent(c);
  }

  /** Upper-casing keeps single spacing and stripped ends, and its result is upper-cased. */
  lemma ToUpperKeepsShape(s: string)
    ensures SingleSpaced(s) ==> SingleSpaced(ToUpper(s))
    ensures Stripped(s) ==> Stripped(ToUpper(s))
    ensures IsUpperCased(ToUpper(s))
  {
    var r := ToUpper(s);
    forall i | 0 <= i < |s| ensures IsSpace(r[i]) == IsSpace(s[i]) && (r[i] == ' ' <==> s[i] == ' ') && r[i] == Upper(r[i]) {
      UpperKeepsBlank(s[i]);
    }
    SameBlanks(s, r);
  }

  /** Upper-casing a character keeps whitespace and the blank, and is idempotent. */
  lemma UpperKeepsBlank(c: char)
    ensures IsSpace(Upper(c)) == IsSpace(c) && (Upper(c) == ' ' <==> c == ' ') && Upper(Upper(c)) == Upper(c)
  {
    UpperIdempotent(c);
  }

  /** `re.sub(r"\s+", "", s)`: every whitespace character deleted. */
  function DeleteSpaces(s: string): (r: string)
    ensures |r| <= |s|
  {
    if s == [] then []
    else DeleteSpaces(s[..|s| - 1]) + (if IsSpace(s[|s| - 1]) then [] else [s[|s| - 1]])
  }

  /** Deleting whitespace leaves none, and keeps every other character. */
  lemma {:induction false} DeleteSpacesMeaning(s: string)
    ensures NoSpace(DeleteSpaces(s))
    ensures forall c :: c in DeleteSpaces(s) <==> c in s && !IsSpace(c)
  {
    if s != [] {
      var front := s[..|s| - 1];
      DeleteSpacesMeaning(front);
      assert s == front + [s[|s| - 1]];
      var r := DeleteSpaces(s);
      forall i | 0 <= i < |r| ensures !IsSpace(r[i]) {
        if i < |DeleteSpaces(front)| { assert r[i] == DeleteSpaces(front)[i]; }
      }
    }
  }

  /**
   * Deleting whitespace works character by character and keeps the order: a
   * blank goes, any other character stays, and a concatenation is handled
   * part by part.
   */
  lemma {:induction false} DeleteSpacesAppend(a: string, b: string)
    ensures DeleteSpaces(a + b) == DeleteSpaces(a) + DeleteSpaces(b)
    ensures |b| == 1 ==> DeleteSpaces(b) == if IsSpace(b[0]) then [] else b
    decreases |b|
  {
    if b == [] {
      assert a + b == a;
    } else {
      var n := |b| - 1;
      var front, c := b[..n], b[n];
      assert b == front + [c];
      var x := (if IsSpace(c) then [] else [c]);
      assert a + b == (a + front) + [c];
      calc {
        DeleteSpaces(a + b);
        { DeleteSpacesSnoc(a + front, c); }
        DeleteSpaces(a + front) + x;
        { DeleteSpacesAppend(a, front); }
        (DeleteSpaces(a) + DeleteSpaces(front)) + x;
        DeleteSpaces(a) + (DeleteSpaces(front) + x);
        { DeleteSpacesSnoc(front, c); }
        DeleteSpaces(a) + DeleteSpaces(b);
      }
    }
    if |b| == 1 {
      assert b == [] + [b[0]];
      DeleteSpacesSnoc([], b[0]);
    }
  }

  /** One more element at the end is kept or dropped on its own. */
  lemma DeleteSpacesSnoc(s: string, c: char)
    ensures DeleteSpaces(s + [c]) == DeleteSpaces(s) + (if IsSpace(c) then [] else [c])
  {
    var t := s + [c];
    assert t[..|t| - 1] == s;
    assert t[|t| - 1] == c;
  }

  /** A text without whitespace is left as it is. */
  lemma {:induction false} DeleteSpacesNoSpace(s: string)
    requires NoSpace(s)
    ensures DeleteSpaces(s) == s
  {
    if s != [] {
      var front := s[..|s| - 1];
      assert NoSpace(front) by {
        forall i | 0 <= i < |front| ensures !IsSpace(front[i]) { assert front[i] == s[i]; }
      }
      DeleteSpacesNoSpace(front);
      assert s == front + [s[|s| - 1]];
    }
  }

  /** A text already stripped is its own `strip()`. */
  lemma StripStripped(s: string)
    requires Stripped(s)
    ensures Strip(s) == s
  {
  }

  /** `w` is a suffix of `r`. */
  predicate EndsWith(r: string, w: string) {
    |r| >= |w| && r[|r| - |w|..] == w
  }

  /** Stripping a text that ends in a whitespace-free word keeps the word at the end. */
  lemma {:induction false} StripEndsWithWord(x: string, w: string)
    requires |w| > 0 && NoSpace(w)
    ensures EndsWith(Strip(x + w), w)
    decreases |x|
  {
    if x == [] {
      assert x + w == w;
      assert Stripped(w);
      StripStripped(w);
    } else if IsSpace(x[0]) {
      assert (x + w)[1..] == x[1..] + w;
      StripEndsWithWord(x[1..], w);
      assert Strip(x + w) == Strip(x[1..] + w);
    } else {
      var s := x + w;
      assert Stripped(s);
      StripStripped(s);
      assert s[|s| - |w|..] == w;
    }
  }
}
