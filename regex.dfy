/**
 * The regular-expression substitutions of the address cleanup, each as a rule
 * with its own matcher, run by one `re.sub` engine: the scan goes left to
 * right, the first position where the rule matches is rewritten, and the scan
 * goes on after the match, so matches never overlap. Lookarounds and `\b`
 * see the original text, as in Python.
 */
module Regex {
  import opened Util
  import opened Text

  /** One alternative of a word group: a literal word, optionally followed by `\.?`. */
  datatype Alt = Alt(word: string, dot: bool)

  /** Every alternative is a non-empty word. */
  predicate NonEmptyAlts(alts: seq<Alt>) {
    forall k :: 0 <= k < |alts| ==> |alts[k].word| > 0
  }

  /**
   * Where `word\.?\b` ends when it starts at `i`, ignoring case. The optional
   * dot is taken first and given back when the `\b` after it fails.
   */
  function AltEnd(s: string, i: nat, a: Alt): (r: Option<nat>)
    ensures r.Some? ==> i + |a.word| <= r.value <= |s|
  {
    if !CiAt(s, i, a.word) then None
    else
      var j := i + |a.word|;
      if a.dot && j < |s| && s[j] == '.' && Boundary(s, j + 1) then Some(j + 1)
      else if Boundary(s, j) then Some(j)
      else None
  }

  /** The end of the first alternative, in order, that matches at `i`. */
  function FirstAlt(s: string, i: nat, alts: seq<Alt>): (r: Option<nat>)
    requires NonEmptyAlts(alts)
    ensures r.Some? ==> i < r.value <= |s|
  {
    if alts == [] then None
    else
      match AltEnd(s, i, alts[0])
      case Some(e) => Some(e)
      case None => FirstAlt(s, i, alts[1..])
  }

  /** An alternative matches only where its word occurs. */
  lemma {:induction false} FirstAltStarts(s: string, i: nat, alts: seq<Alt>)
    requires NonEmptyAlts(alts) && FirstAlt(s, i, alts).Some?
    ensures exists k :: 0 <= k < |alts| && CiAt(s, i, alts[k].word)
  {
    if alts != [] && AltEnd(s, i, alts[0]).None? {
      FirstAltStarts(s, i, alts[1..]);
      var k :| 0 <= k < |alts[1..]| && CiAt(s, i, alts[1..][k].word);
      assert alts[1..][k] == alts[k + 1];
    }
  }

  /** The first alternative that matches ends at a word boundary. */
  lemma {:induction false} FirstAltEndsAtBoundary(s: string, i: nat, alts: seq<Alt>)
    requires NonEmptyAlts(alts) && FirstAlt(s, i, alts).Some?
    ensures Boundary(s, FirstAlt(s, i, alts).value)
  {
    if AltEnd(s, i, alts[0]).None? {
      FirstAltEndsAtBoundary(s, i, alts[1..]);
    }
  }

  /** No alternative matches at the end of the text. */
  lemma {:induction false} FirstAltAtEnd(s: string, alts: seq<Alt>)
    requires NonEmptyAlts(alts)
    ensures FirstAlt(s, |s|, alts).None?
  {
    if alts != [] {
      FirstAltAtEnd(s, alts[1..]);
    }
  }

  /** When some alternative matches at `i`, the first one that does is found. */
  lemma {:induction false} FirstAltSome(s: string, i: nat, alts: seq<Alt>, k: nat)
    requires NonEmptyAlts(alts) && k < |alts| && AltEnd(s, i, alts[k]).Some?
    ensures FirstAlt(s, i, alts).Some?
    decreases k
  {
    if AltEnd(s, i, alts[0]).None? {
      assert alts[1..][k - 1] == alts[k];
      FirstAltSome(s, i, alts[1..], k - 1);
    }
  }

  /** An upper-case ASCII letter, the class `[A-Z]`. */
  predicate IsAsciiUpper(c: char) { 'A' <= c <= 'Z' }

  /** A substitution: a pattern and what it is replaced by. */
  datatype Rule =
    | Words(alts: seq<Alt>, repl: string)
      // `\b(w1|w2|…)\b` ignoring case, replaced by `repl`
    | KeywordTail(keys: seq<Alt>)
      // `\s*(w1|w2|…)\b.*$` ignoring case, deleted
    | DigitRun
      // `\d+`, replaced by `str(int(…))`
    | SlashSuffix
      // `(\b\d+/\w)\s+[A-Z]\b`, replaced by the group
    | SpaceSuffix
      // `(\b\d+\s+[A-Z])\s+[A-Z]\b`, replaced by the group
    | RangeSuffix
      // `(\b\d+-\d+[A-Z])\s+[A-Z]\b`, replaced by the group

  predicate WellFormed(p: Rule) {
    match p
    case Words(alts, _) => NonEmptyAlts(alts)
    case KeywordTail(keys) => NonEmptyAlts(keys)
    case _ => true
  }

  /** `\s+[A-Z]\b` from `g`: where it ends. */
  function SpaceCapital(s: string, g: nat): (r: Option<nat>)
    requires g <= |s|
    ensures r.Some? ==> g < r.value <= |s|
  {
    var sp := SpaceRunEnd(s, g);
    if sp > g && sp < |s| && IsAsciiUpper(s[sp]) && Boundary(s, sp + 1) then Some(sp + 1) else None
  }

  /** `\b(w1|w2|…)\b` at `i`. */
  function WordsAt(alts: seq<Alt>, s: string, i: nat): (r: Option<nat>)
    requires NonEmptyAlts(alts)
    ensures r.Some? ==> i < r.value <= |s|
  {
    if Boundary(s, i) then FirstAlt(s, i, alts) else None
  }

  /**
   * `\s*(w1|w2|…)\b.*$` at `i`. The whitespace run is taken whole, since no
   * alternative starts with whitespace. When `.*$` fails after the first
   * alternative that fits it fails after every other, since they all end
   * before the same newline.
   */
  function KeywordTailAt(keys: seq<Alt>, s: string, i: nat): (r: Option<nat>)
    requires NonEmptyAlts(keys) && i <= |s|
    ensures r.Some? ==> i < r.value <= |s|
  {
    var k := FirstAlt(s, SpaceRunEnd(s, i), keys);
    if k.None? then None else DotStarEnd(s, k.value)
  }

  /** `(\b\d+/\w)\s+[A-Z]\b` at `i`: the end of the group and of the match. */
  function SlashSuffixAt(s: string, i: nat): (r: Option<(nat, nat)>)
    requires i <= |s|
    ensures r.Some? ==> i < r.value.0 < r.value.1 <= |s|
  {
    if i < |s| && IsDigit(s[i]) && Boundary(s, i) then
      var d := DigitRunEnd(s, i);
      if d + 1 < |s| && s[d] == '/' && IsWord(s[d + 1]) then
        var e := SpaceCapital(s, d + 2);
        if e.Some? then Some((d + 2, e.value)) else None
      else None
    else None
  }

  /** `(\b\d+\s+[A-Z])\s+[A-Z]\b` at `i`: the end of the group and of the match. */
  function SpaceSuffixAt(s: string, i: nat): (r: Option<(nat, nat)>)
    requires i <= |s|
    ensures r.Some? ==> i < r.value.0 < r.value.1 <= |s|
  {
    if i < |s| && IsDigit(s[i]) && Boundary(s, i) then
      var d := DigitRunEnd(s, i);
      var sp := SpaceRunEnd(s, d);
      if sp > d && sp < |s| && IsAsciiUpper(s[sp]) then
        var e := SpaceCapital(s, sp + 1);
        if e.Some? then Some((sp + 1, e.value)) else None
      else None
    else None
  }

  /** `(\b\d+-\d+[A-Z])\s+[A-Z]\b` at `i`: the end of the group and of the match. */
  function RangeSuffixAt(s: string, i: nat): (r: Option<(nat, nat)>)
    requires i <= |s|
    ensures r.Some? ==> i < r.value.0 < r.value.1 <= |s|
  {
    if i < |s| && IsDigit(s[i]) && Boundary(s, i) then
      var d := DigitRunEnd(s, i);
      if d + 1 < |s| && s[d] == '-' && IsDigit(s[d + 1]) then
        var d2 := DigitRunEnd(s, d + 1);
        if d2 < |s| && IsAsciiUpper(s[d2]) then
          var e := SpaceCapital(s, d2 + 1);
          if e.Some? then Some((d2 + 1, e.value)) else None
        else None
      else None
    else None
  }

  /** A match without a group: the whole match stands for the group. */
  function Whole(e: Option<nat>): Option<(nat, nat)> {
    if e.Some? then Some((e.value, e.value)) else None
  }

  /**
   * Where the rule matches at `i`: the end of its group (the end of the match
   * when it has none) and the end of the match. `\d+` is greedy, and giving
   * digits back never helps, since the next item of each pattern is not a digit.
   */
  function MatchAt(p: Rule, s: string, i: nat): (r: Option<(nat, nat)>)
    requires WellFormed(p) && i <= |s|
    ensures r.Some? ==> i <= r.value.0 <= r.value.1 <= |s| && i < r.value.1
  {
    match p
    case Words(alts, _) => Whole(WordsAt(alts, s, i))
    case KeywordTail(keys) => Whole(KeywordTailAt(keys, s, i))
    case DigitRun => if i < |s| && IsDigit(s[i]) then Whole(Some(DigitRunEnd(s, i))) else None
    case SlashSuffix => SlashSuffixAt(s, i)
    case SpaceSuffix => SpaceSuffixAt(s, i)
    case RangeSuffix => RangeSuffixAt(s, i)
  }

  /** `str(int(t))` of a run of digits: the leading zeros go, a lone `0` stays. */
  function StripZeros(t: string): (r: string)
    ensures |r| <= |t| && r == t[|t| - |r|..]
    ensures |t| > 0 ==> |r| > 0
  {
    if |t| > 1 && t[0] == '0' then StripZeros(t[1..]) else t
  }

  /** What a match from `i` is replaced by. */
  function Rewrite(p: Rule, s: string, i: nat, g: nat, e: nat): string
    requires i <= g <= e <= |s|
  {
    match p
    case Words(_, repl) => repl
    case KeywordTail(_) => []
    case DigitRun => StripZeros(s[i..e])
    case _ => s[i..g]
  }

  /** `re.sub` of the rule on `s`, from position `i` of the scan on. */
  function Sub(p: Rule, s: string, i: nat): string
    requires WellFormed(p) && i <= |s|
    decreases |s| - i
  {
    if i == |s| then []
    else
      match MatchAt(p, s, i)
      case Some(m) => Rewrite(p, s, i, m.0, m.1) + Sub(p, s, m.1)
      case None => [s[i]] + Sub(p, s, i + 1)
  }

  /** `re.sub` of the rule on the whole text. */
  function SubAll(p: Rule, s: string): string
    requires WellFormed(p)
  {
    Sub(p, s, 0)
  }

  /** Where the rule does not match, the character is copied and the scan moves one on. */
  lemma SubCopies(p: Rule, s: string, j: nat)
    requires WellFormed(p) && j < |s| && MatchAt(p, s, j).None?
    ensures Sub(p, s, j) == [s[j]] + Sub(p, s, j + 1)
  {
  }

  /** Positions where the rule does not match are copied unchanged, in order. */
  lemma {:induction false} SubSkip(p: Rule, s: string, j: nat, i: nat)
    requires WellFormed(p) && j <= i <= |s|
    requires forall k :: j <= k < i ==> MatchAt(p, s, k).None?
    ensures Sub(p, s, j) == s[j..i] + Sub(p, s, i)
    decreases i - j
  {
    if j < i {
      SubSkip(p, s, j + 1, i);
      SubSkipStep(p, s, j, i);
    }
  }

  /** One more copied position in front of a run of copied ones. */
  lemma SubSkipStep(p: Rule, s: string, j: nat, i: nat)
    requires WellFormed(p) && j < i <= |s| && MatchAt(p, s, j).None?
    requires Sub(p, s, j + 1) == s[j + 1..i] + Sub(p, s, i)
    ensures Sub(p, s, j) == s[j..i] + Sub(p, s, i)
  {
    SubCopies(p, s, j);
    ConsSlice(s, j, i, Sub(p, s, i));
  }

  /** A rule that matches nowhere leaves the text as it is. */
  lemma SubNoMatch(p: Rule, s: string)
    requires WellFormed(p)
    requires forall k :: 0 <= k < |s| ==> MatchAt(p, s, k).None?
    ensures SubAll(p, s) == s
  {
    SubSkip(p, s, 0, |s|);
  }

  /**
   * The leftmost match is the first one rewritten: the text before it is
   * kept, the match is replaced, and the scan resumes after it.
   */
  lemma SubFirstMatch(p: Rule, s: string, i: nat)
    requires WellFormed(p) && i < |s| && MatchAt(p, s, i).Some?
    requires forall k :: 0 <= k < i ==> MatchAt(p, s, k).None?
    ensures var m := MatchAt(p, s, i).value;
            SubAll(p, s) == s[..i] + Rewrite(p, s, i, m.0, m.1) + Sub(p, s, m.1)
  {
    SubSkip(p, s, 0, i);
  }

  /**
   * A leftmost match of a rule that keeps its group: the text up to the end
   * of the group is kept, and the scan resumes after the match.
   */
  lemma SubKeepsGroup(p: Rule, s: string, i: nat, g: nat, e: nat)
    requires p.SlashSuffix? || p.SpaceSuffix? || p.RangeSuffix?
    requires i < |s| && MatchAt(p, s, i) == Some((g, e))
    requires forall k :: 0 <= k < i ==> MatchAt(p, s, k).None?
    ensures SubAll(p, s) == s[..g] + Sub(p, s, e)
  {
    SubFirstMatch(p, s, i);
    assert Rewrite(p, s, i, g, e) == s[i..g];
    assert s[..i] + s[i..g] == s[..g];
  }

  /** `DigitRunEnd` from `i` is `d` when the digits run from `i` up to a non-digit at `d`. */
  lemma {:induction false} DigitRunTo(s: string, i: nat, d: nat)
    requires i <= d < |s| && !IsDigit(s[d]) && forall k :: i <= k < d ==> IsDigit(s[k])
    ensures DigitRunEnd(s, i) == d
    decreases d - i
  {
    if i < d {
      DigitRunTo(s, i + 1, d);
    }
  }

  /** `SpaceRunEnd` from `i` is `e` when whitespace runs from `i` up to a non-space at `e`. */
  lemma {:induction false} SpaceRunTo(s: string, i: nat, e: nat)
    requires i <= e < |s| && !IsSpace(s[e]) && forall k :: i <= k < e ==> IsSpace(s[k])
    ensures SpaceRunEnd(s, i) == e
    decreases e - i
  {
    if i < e {
      SpaceRunTo(s, i + 1, e);
    }
  }

  /** `\s+[A-Z]\b` from `g`: blanks up to a lone capital letter. */
  lemma {:induction false} SpaceCapitalAt(s: string, g: nat, sp: nat)
    requires g < sp < |s| && forall k :: g <= k < sp ==> IsSpace(s[k])
    requires IsAsciiUpper(s[sp]) && Boundary(s, sp + 1)
    ensures SpaceCapital(s, g) == Some(sp + 1)
  {
    SpaceRunTo(s, g, sp);
  }

  /**
   * `1/B A -> 1/B`: at the leftmost match, a digit run at a word start, a
   * `/`, a word character, blanks and a lone capital letter lose the blanks
   * and the capital; the text before is kept and the scan goes on after the
   * capital.
   */
  lemma {:induction false} SlashSuffixMatch(s: string, i: nat, d: nat, sp: nat)
    requires i < d && d + 2 < sp < |s|
    requires Boundary(s, i) && forall k :: i <= k < d ==> IsDigit(s[k])
    requires s[d] == '/' && IsWord(s[d + 1])
    requires forall k :: d + 2 <= k < sp ==> IsSpace(s[k])
    requires IsAsciiUpper(s[sp]) && Boundary(s, sp + 1)
    ensures MatchAt(SlashSuffix, s, i) == Some((d + 2, sp + 1))
  {
    DigitRunTo(s, i, d);
    SpaceCapitalAt(s, d + 2, sp);
    assert IsDigit(s[i]);
    assert SlashSuffixAt(s, i) == Some((d + 2, sp + 1));
  }

  lemma {:induction false} SlashSuffixDropsLetter(s: string, i: nat, d: nat, sp: nat)
    requires i < d && d + 2 < sp < |s|
    requires Boundary(s, i) && forall k :: i <= k < d ==> IsDigit(s[k])
    requires s[d] == '/' && IsWord(s[d + 1])
    requires forall k :: d + 2 <= k < sp ==> IsSpace(s[k])
    requires IsAsciiUpper(s[sp]) && Boundary(s, sp + 1)
    requires forall k :: 0 <= k < i ==> MatchAt(SlashSuffix, s, k).None?
    ensures SubAll(SlashSuffix, s) == s[..d + 2] + Sub(SlashSuffix, s, sp + 1)
  {
    SlashSuffixMatch(s, i, d, sp);
    SubKeepsGroup(SlashSuffix, s, i, d + 2, sp + 1);
  }

  /**
   * `10 A B -> 10 A`: at the leftmost match, a digit run at a word start,
   * blanks, a capital, blanks and a lone capital letter lose the second
   * blanks and capital; the text before is kept and the scan goes on after
   * it.
   */
  lemma {:induction false} SpaceSuffixMatch(s: string, i: nat, d: nat, c1: nat, c2: nat)
    requires i < d < c1 && c1 + 1 < c2 < |s|
    requires Boundary(s, i) && forall k :: i <= k < d ==> IsDigit(s[k])
    requires (forall k :: d <= k < c1 ==> IsSpace(s[k])) && IsAsciiUpper(s[c1])
    requires (forall k :: c1 + 1 <= k < c2 ==> IsSpace(s[k])) && IsAsciiUpper(s[c2]) && Boundary(s, c2 + 1)
    ensures MatchAt(SpaceSuffix, s, i) == Some((c1 + 1, c2 + 1))
  {
    DigitRunTo(s, i, d);
    SpaceRunTo(s, d, c1);
    SpaceCapitalAt(s, c1 + 1, c2);
    assert IsDigit(s[i]);
    assert SpaceSuffixAt(s, i) == Some((c1 + 1, c2 + 1));
  }

  lemma {:induction false} SpaceSuffixDropsLetter(s: string, i: nat, d: nat, c1: nat, c2: nat)
    requires i < d < c1 && c1 + 1 < c2 < |s|
    requires Boundary(s, i) && forall k :: i <= k < d ==> IsDigit(s[k])
    requires (forall k :: d <= k < c1 ==> IsSpace(s[k])) && IsAsciiUpper(s[c1])
    requires (forall k :: c1 + 1 <= k < c2 ==> IsSpace(s[k])) && IsAsciiUpper(s[c2]) && Boundary(s, c2 + 1)
    requires forall k :: 0 <= k < i ==> MatchAt(SpaceSuffix, s, k).None?
    ensures SubAll(SpaceSuffix, s) == s[..c1 + 1] + Sub(SpaceSuffix, s, c2 + 1)
  {
    SpaceSuffixMatch(s, i, d, c1, c2);
    SubKeepsGroup(SpaceSuffix, s, i, c1 + 1, c2 + 1);
  }

  /**
   * `2-4D D -> 2-4D`: at the leftmost match, a digit run at a word start, a
   * `-`, a digit run, a capital, blanks and a lone capital letter lose the
   * blanks and the second capital; the text before is kept and the scan goes
   * on after it.
   */
  lemma {:induction false} RangeSuffixMatch(s: string, i: nat, d: nat, d2: nat, sp: nat)
    requires i < d && d + 1 < d2 && d2 + 1 < sp < |s|
    requires Boundary(s, i) && forall k :: i <= k < d ==> IsDigit(s[k])
    requires s[d] == '-' && forall k :: d + 1 <= k < d2 ==> IsDigit(s[k])
    requires IsAsciiUpper(s[d2]) && forall k :: d2 + 1 <= k < sp ==> IsSpace(s[k])
    requires IsAsciiUpper(s[sp]) && Boundary(s, sp + 1)
    ensures MatchAt(RangeSuffix, s, i) == Some((d2 + 1, sp + 1))
  {
    DigitRunTo(s, i, d);
    DigitRunTo(s, d + 1, d2);
    SpaceCapitalAt(s, d2 + 1, sp);
    assert IsDigit(s[i]) && IsDigit(s[d + 1]);
    assert RangeSuffixAt(s, i) == Some((d2 + 1, sp + 1));
  }

  lemma {:induction false} RangeSuffixDropsLetter(s: string, i: nat, d: nat, d2: nat, sp: nat)
    requires i < d && d + 1 < d2 && d2 + 1 < sp < |s|
    requires Boundary(s, i) && forall k :: i <= k < d ==> IsDigit(s[k])
    requires s[d] == '-' && forall k :: d + 1 <= k < d2 ==> IsDigit(s[k])
    requires IsAsciiUpper(s[d2]) && forall k :: d2 + 1 <= k < sp ==> IsSpace(s[k])
    requires IsAsciiUpper(s[sp]) && Boundary(s, sp + 1)
    requires forall k :: 0 <= k < i ==> MatchAt(RangeSuffix, s, k).None?
    ensures SubAll(RangeSuffix, s) == s[..d2 + 1] + Sub(RangeSuffix, s, sp + 1)
  {
    RangeSuffixMatch(s, i, d, d2, sp);
    SubKeepsGroup(RangeSuffix, s, i, d2 + 1, sp + 1);
  }

  /** `re.search`: whether the rule matches at some position from `i` on. */
  function Search(p: Rule, s: string, i: nat): bool
    requires WellFormed(p) && i <= |s|
    decreases |s| - i
  {
    MatchAt(p, s, i).Some? || (i < |s| && Search(p, s, i + 1))
  }

  lemma {:induction false} SearchMeaning(p: Rule, s: string, i: nat)
    requires WellFormed(p) && i <= |s|
    ensures Search(p, s, i) <==> exists k :: i <= k <= |s| && MatchAt(p, s, k).Some?
    decreases |s| - i
  {
    if i < |s| {
      SearchMeaning(p, s, i + 1);
    }
  }

  // ----- Digit runs -----

  /** The number a run of ASCII digits spells. */
  function DigitsValue(t: string): nat
    requires forall k :: 0 <= k < |t| ==> IsDigit(t[k])
  {
    if t == [] then 0
    else
      var d := t[|t| - 1];
      assert IsDigit(d);
      10 * DigitsValue(t[..|t| - 1]) + (d as int - '0' as int)
  }

  /** A leading zero adds nothing to the value. */
  lemma {:induction false} LeadingZeroValue(t: string)
    requires |t| > 0 && t[0] == '0' && forall k :: 0 <= k < |t| ==> IsDigit(t[k])
    ensures DigitsValue(t) == DigitsValue(t[1..])
    decreases |t|
  {
    if |t| > 1 {
      var u := t[..|t| - 1];
      LeadingZeroValue(u);
      assert u[1..] == t[1..][..|t| - 2];
    }
  }

  /**
   * `str(int(t))` keeps the value of a digit run and has no leading zero
   * unless it is `0` itself.
   */
  lemma {:induction false} StripZerosValue(t: string)
    requires forall k :: 0 <= k < |t| ==> IsDigit(t[k])
    ensures var r := StripZeros(t);
            (forall k :: 0 <= k < |r| ==> IsDigit(r[k])) &&
            DigitsValue(r) == DigitsValue(t) && (|r| > 1 ==> r[0] != '0')
    decreases |t|
  {
    var r := StripZeros(t);
    assert forall k :: 0 <= k < |r| ==> r[k] == t[|t| - |r| + k];
    if |t| > 1 && t[0] == '0' {
      StripZerosValue(t[1..]);
      LeadingZeroValue(t);
    }
  }

  /** No digit run of `r` starts with a `0` followed by another digit. */
  predicate NoLeadingZeros(r: string) {
    forall k :: 0 <= k < |r| - 1 && r[k] == '0' && IsDigit(r[k + 1]) ==> k > 0 && IsDigit(r[k - 1])
  }

  /** A rewritten digit run followed by a text that does not start with a digit. */
  lemma DigitChunkNoLeadingZeros(c: string, rest: string)
    requires |c| > 0 && (forall k :: 0 <= k < |c| ==> IsDigit(c[k])) && (|c| > 1 ==> c[0] != '0')
    requires NoLeadingZeros(rest) && (|rest| > 0 ==> !IsDigit(rest[0]))
    ensures NoLeadingZeros(c + rest)
  {
    var r := c + rest;
    assert |rest| > 0 ==> r[|c|] == rest[0];
    forall k | 0 <= k < |r| - 1 && r[k] == '0' && IsDigit(r[k + 1]) ensures k > 0 && IsDigit(r[k - 1]) {
      if k + 1 < |c| {
        assert r[k] == c[k];
        assert r[k - 1] == c[k - 1];
      } else if k >= |c| {
        assert r[k] == rest[k - |c|] && r[k + 1] == rest[k - |c| + 1];
        if k > |c| {
          assert r[k - 1] == rest[k - |c| - 1];
        }
      }
    }
  }

  /** A character other than a digit in front of a text without leading zeros. */
  lemma OtherNoLeadingZeros(x: char, rest: string)
    requires !IsDigit(x) && NoLeadingZeros(rest)
    ensures NoLeadingZeros([x] + rest)
  {
    var r := [x] + rest;
    forall k | 0 <= k < |r| - 1 && r[k] == '0' && IsDigit(r[k + 1]) ensures k > 0 && IsDigit(r[k - 1]) {
      assert r[k] == rest[k - 1] && r[k + 1] == rest[k];
      assert r[k - 1] == rest[k - 2];
    }
  }

  /**
   * After the `\d+` rewrite no digit run has a leading zero; the scan from a
   * position that holds no digit starts with no digit.
   */
  lemma {:induction false} DigitRunNoLeadingZeros(s: string, i: nat)
    requires i <= |s|
    ensures NoLeadingZeros(Sub(DigitRun, s, i))
    ensures |Sub(DigitRun, s, i)| > 0 && IsDigit(Sub(DigitRun, s, i)[0]) ==> i < |s| && IsDigit(s[i])
    decreases |s| - i
  {
    if i < |s| {
      if IsDigit(s[i]) {
        var e := DigitRunEnd(s, i);
        DigitRunNoLeadingZeros(s, e);
        StripZerosValue(s[i..e]);
        DigitChunkNoLeadingZeros(StripZeros(s[i..e]), Sub(DigitRun, s, e));
      } else {
        DigitRunNoLeadingZeros(s, i + 1);
        OtherNoLeadingZeros(s[i], Sub(DigitRun, s, i + 1));
      }
    }
  }

  // ----- Character-wise rewrites -----

  /** Every character of `cs` becomes a blank (`re.sub('[…]', ' ', s)` or a plain `str.replace`). */
  function BlankOut(s: string, cs: set<char>): (r: string)
    ensures |r| == |s| && forall k :: 0 <= k < |s| ==> r[k] == (if s[k] in cs then ' ' else s[k])
  {
    seq(|s|, k requires 0 <= k < |s| => if s[k] in cs then ' ' else s[k])
  }

  /** A `-` at `k` with a digit on both sides, the one `-` that `(?<!\d)-|-(?!\d)` leaves alone. */
  predicate DigitDash(s: string, k: nat) {
    0 < k < |s| - 1 && s[k] == '-' && IsDigit(s[k - 1]) && IsDigit(s[k + 1])
  }

  /** `re.sub(r"(?<!\d)-|-(?!\d)", " ", s)`: every `-` without a digit on both sides becomes a blank. */
  function DashToSpace(s: string): (r: string)
    ensures |r| == |s|
    ensures forall k :: 0 <= k < |s| ==> r[k] == (if s[k] == '-' && !DigitDash(s, k) then ' ' else s[k])
  {
    seq(|s|, k requires 0 <= k < |s| => if s[k] == '-' && !DigitDash(s, k) then ' ' else s[k])
  }

  /** The three characters of a range are not whitespace. */
  lemma RangeNotSpace(s: string, k: nat)
    requires DigitDash(s, k)
    ensures !IsSpace(s[k - 1]) && !IsSpace(s[k]) && !IsSpace(s[k + 1])
  {
  }

  /** A `-` at `m` between the digits `a` and `b`. */
  predicate RangeBetween(s: string, m: nat, a: char, b: char) {
    DigitDash(s, m) && s[m - 1] == a && s[m + 1] == b
  }

  /** The collapse, the strip and upper-casing keep a range with its two digits. */
  lemma {:induction false} FinishKeepsRange(s4: string, p: nat) returns (m: nat)
    requires DigitDash(s4, p)
    ensures RangeBetween(ToUpper(Strip(Collapse(s4))), m, s4[p - 1], s4[p + 1])
  {
    RangeNotSpace(s4, p);
    m := StripCollapseKeepsTriple(s4, p);
    var r := Strip(Collapse(s4));
    CopiedRange(s4, p, r, m);
    UpperKeepsRange(r, m);
  }

  /** Three characters copied from around a range form a range. */
  lemma CopiedRange(s: string, p: nat, r: string, m: nat)
    requires DigitDash(s, p)
    requires 0 < m < |r| - 1 && r[m - 1] == s[p - 1] && r[m] == s[p] && r[m + 1] == s[p + 1]
    ensures DigitDash(r, m)
  {
  }

  /** Upper-casing keeps a range with its two digits. */
  lemma UpperKeepsRange(s: string, m: nat)
    requires DigitDash(s, m)
    ensures DigitDash(ToUpper(s), m) && ToUpper(s)[m - 1] == s[m - 1] && ToUpper(s)[m + 1] == s[m + 1]
  {
  }

  /** A digit directly followed by a letter at `k`. */
  predicate DigitLetter(s: string, k: nat) {
    k + 1 < |s| && IsDigit(s[k]) && IsLetter(s[k + 1])
  }

  /** `re.sub(r"(\d)([A-Za-zÁ…ű])", r"\1 \2", s)`: a blank between every digit and the letter after it. */
  function SpaceDigitLetter(s: string): (r: string)
  {
    if s == [] then []
    else
      var n := |s| - 1;
      SpaceDigitLetter(s[..n]) + (if n > 0 && IsDigit(s[n - 1]) && IsLetter(s[n]) then [' ', s[n]] else [s[n]])
  }

  /**
   * Inserting the blanks keeps the order of the characters, keeps the last
   * one last, and separates every digit from a following letter.
   */
  lemma {:induction false} SpaceDigitLetterShape(s: string)
    ensures var r := SpaceDigitLetter(s);
            (|r| == 0 <==> |s| == 0) &&
            (|s| > 0 ==> r[|r| - 1] == s[|s| - 1] && r[0] == s[0]) &&
            (forall k :: 0 <= k < |r| ==> !DigitLetter(r, k))
  {
    if s != [] {
      var n := |s| - 1;
      var r0 := SpaceDigitLetter(s[..n]);
      SpaceDigitLetterShape(s[..n]);
      var r := SpaceDigitLetter(s);
      var tail := if n > 0 && IsDigit(s[n - 1]) && IsLetter(s[n]) then [' ', s[n]] else [s[n]];
      assert r == r0 + tail;
      if n > 0 {
        assert r0[|r0| - 1] == s[..n][n - 1] == s[n - 1];
        assert r[0] == r0[0] == s[..n][0];
      }
      forall k | 0 <= k < |r| ensures !DigitLetter(r, k) {
        if k + 1 < |r0| {
          assert r[k] == r0[k] && r[k + 1] == r0[k + 1];
          assert !DigitLetter(r0, k);
        } else if k + 1 == |r0| {
          assert r[k] == s[n - 1];
        }
      }
    }
  }

  /** The number of blanks inserted up to `s[k]`: the digit-letter pairs that end at or before `k`. */
  function Inserted(s: string, k: nat): nat
    requires k < |s|
  {
    if k == 0 then 0 else Inserted(s, k - 1) + (if DigitLetter(s, k - 1) then 1 else 0)
  }

  /** All blanks inserted into `s`. */
  function InsertedAll(s: string): nat {
    if s == [] then 0 else Inserted(s, |s| - 1)
  }

  /** Cutting off the end of a text does not change the count before a position still inside it. */
  lemma {:induction false} InsertedPrefix(s: string, n: nat, k: nat)
    requires k < n <= |s|
    ensures Inserted(s[..n], k) == Inserted(s, k)
  {
    if k > 0 {
      InsertedPrefix(s, n, k - 1);
      assert s[..n][k - 1] == s[k - 1] && s[..n][k] == s[k];
    }
  }

  /** The last character of `s` is added on its own, after a blank when a digit precedes it. */
  lemma SpaceDigitLetterSnoc(s: string)
    requires |s| > 0
    ensures var n := |s| - 1;
            SpaceDigitLetter(s) == SpaceDigitLetter(s[..n]) + (if n > 0 && DigitLetter(s, n - 1) then [' ', s[n]] else [s[n]])
  {
  }

  /**
   * The rewrite copies every character of `s`, in order, and adds exactly one
   * blank in front of each letter that follows a digit. This lemma gives the
   * length; `SpaceDigitLetterMoves` and `SpaceDigitLetterBlank` say where each
   * input character and each added blank lands.
   */
  lemma {:induction false} SpaceDigitLetterLength(s: string)
    ensures |SpaceDigitLetter(s)| == |s| + InsertedAll(s)
  {
    if s != [] {
      var n := |s| - 1;
      SpaceDigitLetterSnoc(s);
      SpaceDigitLetterLength(s[..n]);
      if n > 0 {
        InsertedPrefix(s, n, n - 1);
      }
    }
  }

  /** `s[k]` lands `Inserted(s, k)` places to the right. */
  lemma {:induction false} SpaceDigitLetterMoves(s: string, k: nat)
    requires k < |s|
    ensures k + Inserted(s, k) < |SpaceDigitLetter(s)| && SpaceDigitLetter(s)[k + Inserted(s, k)] == s[k]
  {
    var n := |s| - 1;
    var p := s[..n];
    SpaceDigitLetterSnoc(s);
    SpaceDigitLetterLength(p);
    if k < n {
      SpaceDigitLetterMoves(p, k);
      InsertedPrefix(s, n, k);
      assert p[k] == s[k];
    } else if n > 0 {
      InsertedPrefix(s, n, n - 1);
    }
  }

  /** The position before a letter that follows a digit holds the inserted blank. */
  lemma {:induction false} SpaceDigitLetterBlank(s: string, k: nat)
    requires 0 < k < |s| && DigitLetter(s, k - 1)
    ensures 0 < k + Inserted(s, k) <= |SpaceDigitLetter(s)| && SpaceDigitLetter(s)[k + Inserted(s, k) - 1] == ' '
  {
    var n := |s| - 1;
    var p := s[..n];
    SpaceDigitLetterSnoc(s);
    SpaceDigitLetterLength(p);
    if k < n {
      assert DigitLetter(p, k - 1);
      SpaceDigitLetterBlank(p, k);
      InsertedPrefix(s, n, k);
    } else {
      InsertedPrefix(s, n, n - 1);
    }
  }

  /** A dash between two digits stays between them: no blank is inserted next to a dash. */
  lemma {:induction false} SpaceDigitLetterKeepsRange(s: string, k: nat)
    requires DigitDash(s, k)
    ensures var p := k + Inserted(s, k);
            DigitDash(SpaceDigitLetter(s), p) && SpaceDigitLetter(s)[p - 1] == s[k - 1] && SpaceDigitLetter(s)[p + 1] == s[k + 1]
  {
    SpaceDigitLetterMoves(s, k - 1);
    SpaceDigitLetterMoves(s, k);
    SpaceDigitLetterMoves(s, k + 1);
    assert Inserted(s, k) == Inserted(s, k - 1) && Inserted(s, k + 1) == Inserted(s, k);
  }

  /** The `/` blanking, the dash rewrite and the inserted blanks keep a number range with its two digits. */
  lemma {:induction false} BlankingKeepsRange(s: string, k: nat) returns (p: nat)
    requires DigitDash(s, k)
    ensures RangeBetween(SpaceDigitLetter(DashToSpace(BlankOut(s, {'/'}))), p, s[k - 1], s[k + 1])
  {
    var s2 := BlankOut(s, {'/'});
    assert s2[k - 1] == s[k - 1] && s2[k] == s[k] && s2[k + 1] == s[k + 1];
    var s3 := DashToSpace(s2);
    assert s3[k - 1] == s[k - 1] && s3[k] == '-' && s3[k + 1] == s[k + 1];
    SpaceDigitLetterKeepsRange(s3, k);
    p := k + Inserted(s3, k);
  }

  /** Inserting the blanks adds nothing but blanks: the characters other than blanks stay in order. */
  lemma {:induction false} SpaceDigitLetterChars(s: string)
    ensures forall k :: 0 <= k < |SpaceDigitLetter(s)| ==> SpaceDigitLetter(s)[k] == ' ' || SpaceDigitLetter(s)[k] in s
  {
    if s != [] {
      var n := |s| - 1;
      SpaceDigitLetterChars(s[..n]);
      var r0 := SpaceDigitLetter(s[..n]);
      var r := SpaceDigitLetter(s);
      forall k | 0 <= k < |r| ensures r[k] == ' ' || r[k] in s {
        if k < |r0| {
          assert r[k] == r0[k];
          if r0[k] != ' ' {
            var j :| 0 <= j < n && s[..n][j] == r0[k];
            assert s[j] == r[k];
          }
        }
      }
    }
  }
}
