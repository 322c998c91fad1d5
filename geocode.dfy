/**
 * Repairs of geocoder rows: moving coordinates that slipped into the wrong
 * column back into `lat` and `lon` (`fix_lat_lon`), and splitting an address
 * into street and house number (`cim_feldolgozas`).
 */
module Geocode {
  import opened Util
  import opened Text

  /** A cell of a row: a number, some text, or a missing value. */
  datatype Value = Num(x: real) | Txt(s: string) | Nan

  /** One labelled cell of a row. */
  datatype Cell = Cell(name: string, value: Value)

  /** `pd.to_numeric(..., errors='coerce')` of one cell; text goes through the number parser. */
  function Coerce(v: Value, parse: string -> Option<real>): (r: Option<real>)
  {
    match v
    case Num(x) => Some(x)
    case Txt(s) => parse(s)
    case Nan => None
  }

  /** A coerced value in the latitude range of Hungary; NaN compares false. */
  predicate InLat(x: Option<real>) { x.Some? && 45.0 <= x.value <= 49.0 }

  /** A coerced value in the longitude range of Hungary. */
  predicate InLon(x: Option<real>) { x.Some? && 16.0 <= x.value <= 23.0 }

  /** Labels are distinct, as the columns of a frame are. */
  predicate DistinctLabels(cells: seq<Cell>) {
    forall i, j :: 0 <= i < j < |cells| ==> cells[i].name != cells[j].name
  }

  /** `coords.get(key, np.nan)`. */
  function Get(cells: seq<Cell>, key: string, parse: string -> Option<real>): (r: Option<real>)
    ensures r.Some? ==> exists i :: 0 <= i < |cells| && cells[i].name == key
  {
    if cells == [] then None
    else if cells[0].name == key then Coerce(cells[0].value, parse)
    else Get(cells[1..], key, parse)
  }

  /** The position of the first cell whose coerced value satisfies `inRange`. */
  function FirstIn(cells: seq<Cell>, parse: string -> Option<real>, inRange: Option<real> -> bool): (r: Option<nat>)
    ensures r.Some? ==> r.value < |cells| && inRange(Coerce(cells[r.value].value, parse))
    ensures r.Some? ==> forall k :: 0 <= k < r.value ==> !inRange(Coerce(cells[k].value, parse))
    ensures r.None? ==> forall k :: 0 <= k < |cells| ==> !inRange(Coerce(cells[k].value, parse))
  {
    if cells == [] then None
    else if inRange(Coerce(cells[0].value, parse)) then Some(0)
    else match FirstIn(cells[1..], parse, inRange)
      case None => None
      case Some(k) => Some(k + 1)
  }

  /** The cells without those labelled `key` (`Series.drop(key)`). */
  function DropLabel(cells: seq<Cell>, key: string): (r: seq<Cell>)
    ensures |r| <= |cells|
  {
    if cells == [] then []
    else (if cells[0].name == key then [] else [cells[0]]) + DropLabel(cells[1..], key)
  }

  /** The coerced cells satisfying `inRange`, in column order (`coords[mask]`). */
  function Candidates(cells: seq<Cell>, parse: string -> Option<real>, inRange: Option<real> -> bool): (r: seq<Cell>)
    ensures forall c :: c in r ==> c in cells && inRange(Coerce(c.value, parse))
    ensures forall k :: 0 <= k < |cells| && inRange(Coerce(cells[k].value, parse)) ==> cells[k] in r
  {
    if cells == [] then []
    else
      assert forall k :: 1 <= k < |cells| ==> cells[1..][k - 1] == cells[k];
      (if inRange(Coerce(cells[0].value, parse)) then [cells[0]] else []) + Candidates(cells[1..], parse, inRange)
  }

  /**
   * The mask keeps column order and repetitions: a cell in range is kept
   * where it stands, any other is left out, and a concatenation is masked
   * part by part.
   */
  lemma {:induction false} CandidatesAppend(a: seq<Cell>, b: seq<Cell>, parse: string -> Option<real>, inRange: Option<real> -> bool)
    ensures Candidates(a + b, parse, inRange) == Candidates(a, parse, inRange) + Candidates(b, parse, inRange)
    decreases |a|
  {
    if a == [] {
      assert a + b == b;
    } else {
      var y, rest := a[0], a[1..];
      var x := if inRange(Coerce(y.value, parse)) then [y] else [];
      assert a == [y] + rest;
      assert a + b == [y] + (rest + b);
      calc {
        Candidates(a + b, parse, inRange);
        { CandidatesCons(y, rest + b, parse, inRange); }
        x + Candidates(rest + b, parse, inRange);
        { CandidatesAppend(rest, b, parse, inRange); }
        x + (Candidates(rest, parse, inRange) + Candidates(b, parse, inRange));
        (x + Candidates(rest, parse, inRange)) + Candidates(b, parse, inRange);
        { CandidatesCons(y, rest, parse, inRange); }
        Candidates(a, parse, inRange) + Candidates(b, parse, inRange);
      }
    }
  }

  /** One more cell at the front is kept or left out on its own. */
  lemma CandidatesCons(y: Cell, t: seq<Cell>, parse: string -> Option<real>, inRange: Option<real> -> bool)
    ensures Candidates([y], parse, inRange) == if inRange(Coerce(y.value, parse)) then [y] else []
    ensures Candidates([y] + t, parse, inRange) ==
              (if inRange(Coerce(y.value, parse)) then [y] else []) + Candidates(t, parse, inRange)
  {
    var yt := [y] + t;
    assert yt[0] == y;
    assert yt[1..] == t;
    assert [y][1..] == [];
  }

  /** `row[key] = v`: replaces the cell with that key, or appends one. */
  function SetCell(cells: seq<Cell>, key: string, v: Value): (r: seq<Cell>)
  {
    if cells == [] then [Cell(key, v)]
    else if cells[0].name == key then [Cell(key, v)] + cells[1..]
    else [cells[0]] + SetCell(cells[1..], key, v)
  }

  /** A coerced number written back as a cell; NaN stays NaN. */
  function AsValue(x: Option<real>): Value {
    if x.Some? then Num(x.value) else Nan
  }

  /** The latitude `fix_lat_lon` settles on. */
  function NewLat(cells: seq<Cell>, parse: string -> Option<real>): Option<real> {
    var cur := Get(cells, "lat", parse);
    if InLat(cur) then cur
    else match FirstIn(cells, parse, InLat)
      case Some(k) => Coerce(cells[k].value, parse)
      case None => None
  }

  /** The key the latitude was taken from, when it was taken from a candidate. */
  function LatIdx(cells: seq<Cell>, parse: string -> Option<real>): Option<string> {
    if InLat(Get(cells, "lat", parse)) then None
    else match FirstIn(cells, parse, InLat)
      case Some(k) => Some(cells[k].name)
      case None => None
  }

  /** The longitude candidates after the key used for the latitude is dropped. */
  function LonCandidates(cells: seq<Cell>, parse: string -> Option<real>): seq<Cell> {
    var cands := Candidates(cells, parse, InLon);
    match LatIdx(cells, parse)
    case Some(l) => if exists c :: c in cands && c.name == l then DropLabel(cands, l) else cands
    case None => cands
  }

  /** The longitude `fix_lat_lon` settles on. */
  function NewLon(cells: seq<Cell>, parse: string -> Option<real>): Option<real> {
    var cur := Get(cells, "lon", parse);
    var cands := LonCandidates(cells, parse);
    if InLon(cur) then cur
    else if cands != [] then Coerce(cands[0].value, parse)
    else None
  }

  /** The row `fix_lat_lon` returns. */
  function Fixed(cells: seq<Cell>, parse: string -> Option<real>): seq<Cell> {
    if InLat(Get(cells, "lat", parse)) && InLon(Get(cells, "lon", parse)) then cells
    else SetCell(SetCell(cells, "lat", AsValue(NewLat(cells, parse))), "lon", AsValue(NewLon(cells, parse)))
  }

  /** A row of the geocoder table, repaired in place. */
  class GeoRow {
    var cells: seq<Cell>

    constructor (cells0: seq<Cell>)
      ensures cells == cells0
    {
      cells := cells0;
    }

    /** `fix_lat_lon(row)`: picks the coordinates and writes them into `lat` and `lon`. */
    method FixLatLon(parse: string -> Option<real>)
      modifies this
      ensures cells == Fixed(old(cells), parse)
    {
      var latCur := Get(cells, "lat", parse);
      var lonCur := Get(cells, "lon", parse);
      if InLat(latCur) && InLon(lonCur) {
        return;
      }
      var newLat := NewLat(cells, parse);
      var newLon := NewLon(cells, parse);
      cells := SetCell(cells, "lat", AsValue(newLat));
      cells := SetCell(cells, "lon", AsValue(newLon));
    }
  }

  /** The value a key reads after `row[key] = v`, and every other key reads as before. */
  lemma {:induction false} SetCellReads(cells: seq<Cell>, key: string, v: Value, other: string, parse: string -> Option<real>)
    ensures Get(SetCell(cells, key, v), key, parse) == Coerce(v, parse)
    ensures other != key ==> Get(SetCell(cells, key, v), other, parse) == Get(cells, other, parse)
  {
    if cells != [] && cells[0].name != key {
      SetCellReads(cells[1..], key, v, other, parse);
    }
  }

  /** Writing a cell keeps every other cell where it was and adds at most one. */
  lemma {:induction false} SetCellFrame(cells: seq<Cell>, key: string, v: Value)
    ensures |SetCell(cells, key, v)| == |cells| || |SetCell(cells, key, v)| == |cells| + 1
    ensures forall i :: 0 <= i < |cells| && cells[i].name != key ==> SetCell(cells, key, v)[i] == cells[i]
  {
    if cells != [] && cells[0].name != key {
      SetCellFrame(cells[1..], key, v);
      var r := SetCell(cells, key, v);
      forall i | 0 <= i < |cells| && cells[i].name != key ensures r[i] == cells[i] {
        if i > 0 { assert cells[1..][i - 1] == cells[i]; }
      }
    }
  }

  /** A row whose coordinates are already in range is returned unchanged. */
  lemma InRangeUntouched(cells: seq<Cell>, parse: string -> Option<real>)
    requires InLat(Get(cells, "lat", parse)) && InLon(Get(cells, "lon", parse))
    ensures Fixed(cells, parse) == cells
  {
  }

  /**
   * After the repair `lat` reads as a latitude in range or NaN and `lon` as a
   * longitude in range or NaN, and every other key reads as before.
   */
  lemma FixedRanges(cells: seq<Cell>, parse: string -> Option<real>, other: string)
    ensures var lat := Get(Fixed(cells, parse), "lat", parse);
            lat.None? || InLat(lat)
    ensures var lon := Get(Fixed(cells, parse), "lon", parse);
            lon.None? || InLon(lon)
    ensures other != "lat" && other != "lon" ==> Get(Fixed(cells, parse), other, parse) == Get(cells, other, parse)
  {
    if !(InLat(Get(cells, "lat", parse)) && InLon(Get(cells, "lon", parse))) {
      var lat := AsValue(NewLat(cells, parse));
      var lon := AsValue(NewLon(cells, parse));
      var c1 := SetCell(cells, "lat", lat);
      SetCellReads(cells, "lat", lat, other, parse);
      SetCellReads(c1, "lon", lon, other, parse);
      SetCellReads(c1, "lon", lon, "lat", parse);
      LonCandidatesInRange(cells, parse);
    }
  }

  /** Every longitude candidate, after the drop, is in range. */
  lemma LonCandidatesInRange(cells: seq<Cell>, parse: string -> Option<real>)
    ensures forall c :: c in LonCandidates(cells, parse) ==> InLon(Coerce(c.value, parse))
  {
    var cands := Candidates(cells, parse, InLon);
    match LatIdx(cells, parse)
    case Some(l) =>
      if exists c :: c in cands && c.name == l {
        DropLabelSub(cands, l);
      }
    case None =>
  }

  lemma {:induction false} DropLabelSub(cells: seq<Cell>, key: string)
    ensures forall c :: c in DropLabel(cells, key) ==> c in cells && c.name != key
  {
    if cells != [] {
      DropLabelSub(cells[1..], key);
    }
  }

  /**
   * Dropping the latitude's key from the longitude candidates never removes
   * anything: a value in [45, 49] is never in [16, 23], so with distinct labels
   * the key is not among the longitude candidates.
   */
  lemma LatIdxNotALonCandidate(cells: seq<Cell>, parse: string -> Option<real>)
    requires DistinctLabels(cells)
    ensures LonCandidates(cells, parse) == Candidates(cells, parse, InLon)
  {
    var cands := Candidates(cells, parse, InLon);
    match LatIdx(cells, parse)
    case Some(l) =>
      var k := FirstIn(cells, parse, InLat).value;
      forall c | c in cands ensures c.name != l {
        var i :| 0 <= i < |cells| && cells[i] == c;
        assert InLon(Coerce(cells[i].value, parse)) && InLat(Coerce(cells[k].value, parse));
      }
    case None =>
  }

  /** The new latitude: the current one when in range, else the first candidate in column order, else NaN. */
  lemma NewLatChoice(cells: seq<Cell>, parse: string -> Option<real>)
    ensures var cur := Get(cells, "lat", parse);
            var n := NewLat(cells, parse);
            (InLat(cur) ==> n == cur) &&
            (!InLat(cur) && (exists k :: 0 <= k < |cells| && InLat(Coerce(cells[k].value, parse))) ==>
               exists k :: 0 <= k < |cells| && n == Coerce(cells[k].value, parse) &&
                 forall j :: 0 <= j < k ==> !InLat(Coerce(cells[j].value, parse))) &&
            (!InLat(cur) && (forall k :: 0 <= k < |cells| ==> !InLat(Coerce(cells[k].value, parse))) ==> n.None?)
  {
  }

  /** The cell can give the longitude: its value is in range and it is not the column the latitude was taken from. */
  predicate LonPick(c: Cell, parse: string -> Option<real>, latKey: Option<string>) {
    InLon(Coerce(c.value, parse)) && latKey != Some(c.name)
  }

  /** The longitude candidates with the latitude's column dropped, when there is one. */
  function Unused(cands: seq<Cell>, latKey: Option<string>): seq<Cell> {
    if latKey.Some? then DropLabel(cands, latKey.value) else cands
  }

  /** The position of the first cell that can give the longitude. */
  function FirstPick(cells: seq<Cell>, parse: string -> Option<real>, latKey: Option<string>): (r: Option<nat>)
    ensures r.Some? ==> r.value < |cells| && LonPick(cells[r.value], parse, latKey)
    ensures r.Some? ==> forall k :: 0 <= k < r.value ==> !LonPick(cells[k], parse, latKey)
    ensures r.None? ==> forall k :: 0 <= k < |cells| ==> !LonPick(cells[k], parse, latKey)
  {
    if cells == [] then None
    else if LonPick(cells[0], parse, latKey) then Some(0)
    else match FirstPick(cells[1..], parse, latKey)
      case None => None
      case Some(k) => Some(k + 1)
  }

  /**
   * The first longitude candidate left after the drop is the first cell in
   * column order that can give the longitude; none is left when no cell can.
   */
  lemma {:induction false} FirstLonPick(cells: seq<Cell>, parse: string -> Option<real>, latKey: Option<string>)
    ensures Unused(Candidates(cells, parse, InLon), latKey) == [] <==> FirstPick(cells, parse, latKey).None?
    ensures Unused(Candidates(cells, parse, InLon), latKey) != [] ==>
              Unused(Candidates(cells, parse, InLon), latKey)[0] == cells[FirstPick(cells, parse, latKey).value]
  {
    if cells != [] {
      var y, rest := cells[0], cells[1..];
      assert cells == [y] + rest;
      FirstLonPick(rest, parse, latKey);
      UnusedCons(y, rest, parse, latKey);
      if !LonPick(y, parse, latKey) {
        match FirstPick(rest, parse, latKey)
        case None =>
        case Some(k) => assert cells[k + 1] == rest[k];
      }
    }
  }

  /** Masking, then dropping the latitude's column, keeps or drops the first cell on its own. */
  lemma UnusedCons(y: Cell, rest: seq<Cell>, parse: string -> Option<real>, latKey: Option<string>)
    ensures Unused(Candidates([y] + rest, parse, InLon), latKey) ==
              (if LonPick(y, parse, latKey) then [y] else []) + Unused(Candidates(rest, parse, InLon), latKey)
  {
    CandidatesCons(y, rest, parse, InLon);
    var cr := Candidates(rest, parse, InLon);
    var x := if InLon(Coerce(y.value, parse)) then [y] else [];
    if x == [] {
      assert x + cr == cr;
    } else if latKey.Some? {
      var xc := x + cr;
      assert xc[0] == y;
      assert xc[1..] == cr;
    }
  }

  /** Dropping a label no cell carries changes nothing. */
  lemma {:induction false} DropLabelAbsent(cells: seq<Cell>, key: string)
    requires forall c :: c in cells ==> c.name != key
    ensures DropLabel(cells, key) == cells
  {
    if cells != [] {
      assert cells[0] in cells;
      assert forall c :: c in cells[1..] ==> c in cells;
      DropLabelAbsent(cells[1..], key);
    }
  }

  /**
   * The new longitude: the current one when in range; else the first value
   * in [16, 23], in column order, of a column other than the one the
   * latitude was taken from; else NaN.
   */
  lemma NewLonChoice(cells: seq<Cell>, parse: string -> Option<real>)
    ensures InLon(Get(cells, "lon", parse)) ==> NewLon(cells, parse) == Get(cells, "lon", parse)
    ensures !InLon(Get(cells, "lon", parse)) ==>
              NewLon(cells, parse) == match FirstPick(cells, parse, LatIdx(cells, parse))
                case Some(k) => Coerce(cells[k].value, parse)
                case None => None
  {
    var cands := Candidates(cells, parse, InLon);
    var latKey := LatIdx(cells, parse);
    if latKey.Some? && !(exists c :: c in cands && c.name == latKey.value) {
      DropLabelAbsent(cands, latKey.value);
    }
    assert LonCandidates(cells, parse) == Unused(cands, latKey);
    FirstLonPick(cells, parse, latKey);
  }

  // ----- Street and house number -----

  /**
   * Whether `(?:\s+(?P<hazszam>\d+\S*))$` matches at `k`: a whitespace run,
   * then a digit-led run without whitespace that reaches the end anchor.
   * Returns where the number starts and ends.
   */
  function GroupAt(s: string, k: nat): (r: Option<(nat, nat)>)
    requires k <= |s|
    ensures r.Some? ==> k < r.value.0 < r.value.1 <= |s|
  {
    var j := SpaceRunEnd(s, k);
    if j == k || j == |s| || !IsDigit(s[j]) then None
    else
      var m := WordRunEnd(s, j);
      if EndAnchor(s, m) then Some((j, m)) else None
  }

  /**
   * `re.match(r'^(?P<utca>.*?)(?:\s+(?P<hazszam>\d+\S*))?$', s)` from a lazy
   * street of length `k` on: the first length at which the optional group, or
   * else the end anchor alone, matches. `.` does not cross a newline.
   */
  function SplitFrom(s: string, k: nat): (r: Option<(string, Option<string>)>)
    requires k <= |s|
    ensures r.Some? ==> k <= |r.value.0| <= |s| && r.value.0 == s[..|r.value.0|]
    decreases |s| - k
  {
    match GroupAt(s, k)
    case Some(jm) => Some((s[..k], Some(s[jm.0..jm.1])))
    case None =>
      if EndAnchor(s, k) then Some((s[..k], None))
      else if s[k] == '\n' then None
      else SplitFrom(s, k + 1)
  }

  /** `str.extract` of the street/house-number pattern; `None` when nothing matches. */
  function SplitAddress(s: string): Option<(string, Option<string>)> {
    SplitFrom(s, 0)
  }

  /** The final run of non-whitespace, starting with a digit and preceded by whitespace. */
  predicate HouseNumberShape(h: string) {
    |h| > 0 && IsDigit(h[0]) && NoSpace(h)
  }

  /** Newline-free. */
  predicate OneLine(s: string) { forall i :: 0 <= i < |s| ==> s[i] != '\n' }

  /** A whitespace character in front of a position where the group matches lets it match there too. */
  lemma GroupReachesBack(s: string, i: nat)
    requires i < |s|
    ensures IsSpace(s[i]) && GroupAt(s, i + 1).Some? ==> GroupAt(s, i) == GroupAt(s, i + 1)
  {
  }

  /**
   * `s` holds, from `n` on, a non-empty whitespace run up to `j` and then the
   * word `h` reaching the end anchor.
   */
  predicate NumberAt(s: string, n: nat, j: nat, h: string) {
    n < j && j + |h| <= |s| && s[j..j + |h|] == h &&
    (forall i :: n <= i < j ==> IsSpace(s[i])) && EndAnchor(s, j + |h|)
  }

  /**
   * A found house number is the digit-led final word of the address, the
   * street is the newline-free text before the whitespace in front of it, and
   * the street does not end in whitespace.
   */
  lemma {:induction false} SplitSound(s: string, k: nat)
    requires k <= |s| && OneLine(s[..k])
    requires forall i :: 0 <= i < k ==> GroupAt(s, i).None?
    requires SplitFrom(s, k).Some? && SplitFrom(s, k).value.1.Some?
    ensures SoundSplit(s, SplitFrom(s, k).value.0, SplitFrom(s, k).value.1.value)
    decreases |s| - k
  {
    match GroupAt(s, k)
    case Some(jm) =>
      GroupSound(s, k, jm.0, jm.1);
    case None =>
      assert s[..k + 1] == s[..k] + [s[k]];
      SplitSound(s, k + 1);
  }

  /**
   * `h` is a digit-led word without whitespace, `u` is newline-free and does
   * not end in whitespace, and in `s` whitespace and then `h` follow `u`.
   */
  ghost predicate SoundSplit(s: string, u: string, h: string) {
    HouseNumberShape(h) && OneLine(u) && (u == [] || !IsSpace(u[|u| - 1])) &&
    exists j :: NumberAt(s, |u|, j, h)
  }

  /** Where the group first matches, the street before it and the number it captures have the promised shape. */
  lemma GroupSound(s: string, k: nat, j: nat, m: nat)
    requires k <= |s| && OneLine(s[..k])
    requires k > 0 ==> GroupAt(s, k - 1).None?
    requires GroupAt(s, k) == Some((j, m))
    ensures SoundSplit(s, s[..k], s[j..m])
  {
    var h := s[j..m];
    forall i | 0 <= i < |h| ensures !IsSpace(h[i]) { assert h[i] == s[j + i]; }
    if k > 0 {
      GroupReachesBack(s, k - 1);
    }
    assert |s[..k]| == k;
    assert NumberAt(s, k, j, h);
  }

  /**
   * An address made of a newline-free street not ending in whitespace, a
   * whitespace run and a digit-led final word splits into exactly that street
   * and that house number.
   */
  lemma SplitComplete(u: string, w: string, h: string, tail: string)
    requires OneLine(u) && (u == [] || !IsSpace(u[|u| - 1]))
    requires |w| > 0 && NoBlankGap(w)
    requires HouseNumberShape(h)
    requires tail == [] || tail == "\n"
    ensures SplitAddress(u + w + h + tail) == Some((u, Some(h)))
  {
    var s := u + w + h + tail;
    forall i | 0 <= i < |u| ensures Passes(s, i) {
      assert s[i] == u[i];
      GroupNotInStreet(u, w, h, tail, i);
    }
    SplitSkipsStreet(s, |u|, 0);
    GroupAtNumber(u, w, h, tail);
    assert s[..|u|] == u;
    assert s[|u| + |w|..|u| + |w| + |h|] == h;
  }

  /** Every character is whitespace. */
  predicate NoBlankGap(w: string) { forall i :: 0 <= i < |w| ==> IsSpace(w[i]) }

  lemma GroupAtNumber(u: string, w: string, h: string, tail: string)
    requires |w| > 0 && NoBlankGap(w)
    requires HouseNumberShape(h)
    requires tail == [] || tail == "\n"
    ensures GroupAt(u + w + h + tail, |u|) == Some((|u| + |w|, |u| + |w| + |h|))
  {
    var s := u + w + h + tail;
    forall k | |u| <= k < |u| + |w| ensures IsSpace(s[k]) { assert s[k] == w[k - |u|]; }
    assert s[|u| + |w|] == h[0];
    SpaceRunOver(s, |u|, |u| + |w|);
    forall k | |u| + |w| <= k < |u| + |w| + |h| ensures !IsSpace(s[k]) { assert s[k] == h[k - |u| - |w|]; }
    WordRunOver(s, |u| + |w|, |u| + |w| + |h|);
  }

  lemma GroupNotInStreet(u: string, w: string, h: string, tail: string, i: nat)
    requires OneLine(u) && (u == [] || !IsSpace(u[|u| - 1]))
    requires |w| > 0 && NoBlankGap(w)
    requires HouseNumberShape(h)
    requires tail == [] || tail == "\n"
    requires i < |u|
    ensures GroupAt(u + w + h + tail, i).None?
  {
    var s := u + w + h + tail;
    assert s[|u| - 1] == u[|u| - 1];
    assert s[|u|] == w[0];
  }

  /** At `i` the lazy street simply grows: no house number starts, the end is not reached, no newline stops it. */
  predicate Passes(s: string, i: nat)
    requires i < |s|
  {
    GroupAt(s, i).None? && !EndAnchor(s, i) && s[i] != '\n'
  }

  /** Over a street where the group never matches, the search moves on to its end. */
  lemma {:induction false} SplitSkipsStreet(s: string, n: nat, k: nat)
    requires k <= n <= |s|
    requires forall i :: k <= i < n ==> Passes(s, i)
    ensures SplitFrom(s, k) == SplitFrom(s, n)
    decreases n - k
  {
    if k < n {
      SplitFromStep(s, k);
      SplitSkipsStreet(s, n, k + 1);
    }
  }

  /** Where neither the group nor the end anchor matches and no newline stops it, the street grows by one. */
  lemma SplitFromStep(s: string, k: nat)
    requires k < |s| && Passes(s, k)
    ensures SplitFrom(s, k) == SplitFrom(s, k + 1)
  {
  }

  lemma {:induction false} SpaceRunOver(s: string, i: nat, e: nat)
    requires i <= e < |s| && (forall k :: i <= k < e ==> IsSpace(s[k])) && !IsSpace(s[e])
    ensures SpaceRunEnd(s, i) == e
    decreases e - i
  {
    if i < e {
      SpaceRunOver(s, i + 1, e);
    }
  }

  lemma {:induction false} WordRunOver(s: string, i: nat, e: nat)
    requires i <= e <= |s| && (forall k :: i <= k < e ==> !IsSpace(s[k])) && (e == |s| || IsSpace(s[e]))
    ensures WordRunEnd(s, i) == e
    decreases e - i
  {
    if i < e {
      WordRunOver(s, i + 1, e);
    }
  }

  /** A geocoder address split into its street and house number. */
  datatype Address = Address(cim: string, utca: string, hazszam: string)

  /** The split of one address when it has a house number (`hazszam` not NA). */
  function SplitRow(c: string): Option<Address> {
    match SplitAddress(c)
    case Some((u, Some(h))) => Some(Address(c, Strip(u), h))
    case _ => None
  }

  /** The kept row of one cell: none for NA or for an address without a house number. */
  function RowOf(c: Option<string>): Option<Address> {
    if c.Some? then SplitRow(c.value) else None
  }

  /**
   * `cim_feldolgozas`: drops rows whose address is NA, splits the rest, strips
   * the street, and drops rows without a house number, keeping the order.
   */
  function CimFeldolgozas(cims: seq<Option<string>>): seq<Address> {
    FilterMap(cims, RowOf)
  }

  /**
   * `c` is the street `u` (newline-free, not ending in whitespace), then
   * whitespace, then the final word `h`.
   */
  ghost predicate SplitAt(c: string, u: string, h: string) {
    OneLine(u) && (u == [] || !IsSpace(u[|u| - 1])) && |u| <= |c| && c[..|u|] == u &&
    exists j :: NumberAt(c, |u|, j, h)
  }

  /**
   * A kept row's house number starts with a digit and holds no whitespace and
   * is the last word of the address, after whitespace; its street is the
   * stripped text before that whitespace.
   */
  lemma SplitRowMeaning(c: string)
    requires SplitRow(c).Some?
    ensures var a := SplitRow(c).value;
            a.cim == c && HouseNumberShape(a.hazszam) && Stripped(a.utca) &&
            exists u :: a.utca == Strip(u) && SplitAt(c, u, a.hazszam)
  {
    SplitSound(c, 0);
    var u := SplitAddress(c).value.0;
    assert SplitAt(c, u, SplitRow(c).value.hazszam);
  }

  /** Every row kept comes from an address of the input and is its split. */
  lemma CimFeldolgozasRows(cims: seq<Option<string>>)
    ensures forall a :: a in CimFeldolgozas(cims) ==> Some(a.cim) in cims && SplitRow(a.cim) == Some(a)
  {
    FilterMapFrom(cims, RowOf);
    forall a | a in CimFeldolgozas(cims) ensures Some(a.cim) in cims && SplitRow(a.cim) == Some(a) {
      var k :| 0 <= k < |cims| && RowOf(cims[k]) == Some(a);
      assert cims[k] == Some(a.cim);
    }
  }

  /**
   * The rows are processed one by one and keep their order: a row is dropped
   * exactly when its address is NA or has no house number, and a
   * concatenation is processed part by part.
   */
  lemma CimFeldolgozasAppend(a: seq<Option<string>>, b: seq<Option<string>>)
    ensures CimFeldolgozas(a + b) == CimFeldolgozas(a) + CimFeldolgozas(b)
    ensures |b| == 1 ==> CimFeldolgozas(b) == if b[0].Some? && SplitRow(b[0].value).Some? then [SplitRow(b[0].value).value] else []
  {
    FilterMapAppend(a, b, RowOf);
  }

  /** An address with a house number is kept. */
  lemma CimFeldolgozasKeeps(cims: seq<Option<string>>, i: nat)
    requires i < |cims| && cims[i].Some? && SplitRow(cims[i].value).Some?
    ensures SplitRow(cims[i].value).value in CimFeldolgozas(cims)
  {
    FilterMapKeeps(cims, RowOf, i);
  }
}
