/**
 * The positional restructuring of geocoder answers (`jsonl_load`). Each answer
 * is a list of fields whose layout depends on its length; the loop rearranges
 * it to `[id, street and number, city, postcode and country, lat, lon]`,
 * checks it, splits the postcode field into its words and keeps it. The
 * variable holding the rearranged record survives from one answer to the next,
 * so an answer no branch handles re-examines the previous one.
 */
module Records {
  import opened Util
  import opened Text

  /** A JSON value inside an answer. */
  datatype Field = Null | Str(s: string) | Num(n: real)

  type Row = seq<Field>

  /** The exceptions the loop and the summary line can raise. */
  datatype LoadError =
    | NotIterable   // TypeError: a non-string field scanned for letters and digits
    | Unbound       // UnboundLocalError: `tiszta` read before any branch assigned it
    | IndexOut      // IndexError: `reszek[1]` of a one-word postcode field
    | ZeroDivision  // ZeroDivisionError: the percentage printed for an empty input
    | MissingColumn // KeyError: `df['iszam']` of a frame built from no rows

  /** Python truthiness of a field. */
  predicate Truthy(f: Field) {
    match f
    case Null => false
    case Str(s) => s != []
    case Num(n) => n != 0.0
  }

  /** `any(c.isalpha() for c in s) and any(c.isdigit() for c in s)`; only strings can be scanned. */
  function Mixed(f: Field): (r: Result<bool, LoadError>)
    ensures r.Success? <==> f.Str?
    ensures r.Success? ==> (r.value <==> HasLetterAndDigit(f.s))
  {
    if f.Str? then Success(HasLetterAndDigit(f.s)) else Failure(NotIterable)
  }

  /** Words as string fields. */
  function Strs(ws: seq<string>): (r: Row)
    ensures |r| == |ws| && forall k :: 0 <= k < |ws| ==> r[k] == Str(ws[k])
  {
    if ws == [] then [] else Strs(ws[..|ws| - 1]) + [Str(ws[|ws| - 1])]
  }

  /** The variable carried between iterations and the rows appended so far. */
  datatype State = State(tiszta: Option<Row>, adatok: seq<Row>)

  /** The carried record, once there is one, has at least six fields. */
  predicate Carried(st: State) {
    st.tiszta.Some? ==> |st.tiszta.value| >= 6
  }

  /** The answer is skipped before `tiszta` is consulted. */
  predicate Skipped(cim: Row) {
    |cim| < 6 || (|cim| == 6 && !Truthy(cim[1]))
  }

  /** The record `tiszta` holds after the length branches. */
  function Pick(tiszta: Option<Row>, cim: Row): (r: Result<Row, LoadError>)
    requires !Skipped(cim)
    requires tiszta.Some? ==> |tiszta.value| >= 6
    ensures r.Success? ==> |r.value| >= 6
  {
    if |cim| == 6 then Success(cim)
    else if |cim| == 7 then Success([cim[0], cim[3], cim[2]] + cim[4..])
    else if |cim| > 8 then
      var h := cim[|cim| - 5..];
      var rend := [cim[0], h[1], h[0]] + h[2..];
      match Mixed(rend[1])
      case Failure(e) => Failure(e)
      case Success(ok) =>
        if ok then Success(rend)
        else if tiszta.Some? then Success(tiszta.value) else Failure(Unbound)
    else if tiszta.Some? then Success(tiszta.value) else Failure(Unbound)
  }

  /** A record with field 3 replaced in place by its words. */
  function Resplit(t: Row): (r: Row)
    requires |t| >= 4 && t[3].Str?
  {
    t[..3] + Strs(Tokens(t[3].s)) + t[4..]
  }

  /** A text with a letter in it has at least one word. */
  lemma SomeWord(s: string)
    requires HasLetterAndDigit(s)
    ensures |Tokens(s)| >= 1
  {
    var i :| 0 <= i < |s| && IsLetter(s[i]);
    TokensNonEmpty(s, i);
  }

  /**
   * The checks on fields 1 and 3, the split of field 3 and the length test:
   * the new value of `tiszta` and whether it is appended.
   */
  function Check(t: Row): (r: Result<(Row, bool), LoadError>)
    requires |t| >= 6
    ensures r.Success? ==> |r.value.0| >= 6
  {
    match Mixed(t[1])
    case Failure(e) => Failure(e)
    case Success(ok1) =>
      if !ok1 then Success((t, false))
      else match Mixed(t[3])
        case Failure(e) => Failure(e)
        case Success(ok3) =>
          if !ok3 then Success((t, false))
          else
            var reszek := Tokens(t[3].s);
            SomeWord(t[3].s);
            var t2 := Resplit(t);
            if |t2| == 7 then Success((t2, true))
            else if |reszek| < 2 then Failure(IndexOut)
            else Success((t2, reszek[1] == "Hungary"))
  }

  /** One iteration of the loop. */
  function Step(st: State, cim: Row): (r: Result<State, LoadError>)
    requires Carried(st)
    ensures r.Success? ==> Carried(r.value)
  {
    if Skipped(cim) then Success(st)
    else match Pick(st.tiszta, cim)
      case Failure(e) => Failure(e)
      case Success(t) =>
        match Check(t)
        case Failure(e) => Failure(e)
        case Success(out) =>
          Success(State(Some(out.0), st.adatok + (if out.1 then [out.0] else [])))
  }

  /** The loop over the answers, from no record carried and no row. */
  function Run(cimek: seq<Row>): (r: Result<State, LoadError>)
    ensures r.Success? ==> Carried(r.value)
  {
    if cimek == [] then Success(State(None, []))
    else match Run(cimek[..|cimek| - 1])
      case Failure(e) => Failure(e)
      case Success(st) => Step(st, cimek[|cimek| - 1])
  }

  /** The row's postcode field parses as a number (`pd.to_numeric(..., errors='coerce').notna()`). */
  predicate IszamOk(row: Row, isNumber: string -> bool) {
    |row| > 3 && row[3].Str? && isNumber(row[3].s)
  }

  /** The rows whose postcode field parses as a number, in order. */
  function KeepNumeric(rows: seq<Row>, isNumber: string -> bool): (r: seq<Row>)
    ensures |r| <= |rows|
    ensures forall row :: row in r <==> row in rows && IszamOk(row, isNumber)
  {
    if rows == [] then []
    else
      KeepNumeric(rows[..|rows| - 1], isNumber) +
      (if IszamOk(rows[|rows| - 1], isNumber) then [rows[|rows| - 1]] else [])
  }

  /**
   * The postcode filter goes row by row and keeps the order: a passing row
   * stays, any other goes, and a concatenation is filtered part by part.
   */
  lemma {:induction false} KeepNumericAppend(a: seq<Row>, b: seq<Row>, isNumber: string -> bool)
    ensures KeepNumeric(a + b, isNumber) == KeepNumeric(a, isNumber) + KeepNumeric(b, isNumber)
    ensures |b| == 1 ==> KeepNumeric(b, isNumber) == if IszamOk(b[0], isNumber) then b else []
    decreases |b|
  {
    if b == [] {
      assert a + b == a;
    } else {
      var n := |b| - 1;
      var front, c := b[..n], b[n];
      assert b == front + [c];
      var x := (if IszamOk(c, isNumber) then [c] else []);
      assert a + b == (a + front) + [c];
      calc {
        KeepNumeric(a + b, isNumber);
        { KeepNumericSnoc(a + front, c, isNumber); }
        KeepNumeric(a + front, isNumber) + x;
        { KeepNumericAppend(a, front, isNumber); }
        (KeepNumeric(a, isNumber) + KeepNumeric(front, isNumber)) + x;
        KeepNumeric(a, isNumber) + (KeepNumeric(front, isNumber) + x);
        { KeepNumericSnoc(front, c, isNumber); }
        KeepNumeric(a, isNumber) + KeepNumeric(b, isNumber);
      }
    }
    if |b| == 1 {
      assert b == [] + [b[0]];
      KeepNumericSnoc([], b[0], isNumber);
    }
  }

  /** One more row at the end is kept or dropped on its own. */
  lemma KeepNumericSnoc(s: seq<Row>, c: Row, isNumber: string -> bool)
    ensures KeepNumeric(s + [c], isNumber) == KeepNumeric(s, isNumber) + (if IszamOk(c, isNumber) then [c] else [])
  {
    var t := s + [c];
    assert t[..|t| - 1] == s;
    assert t[|t| - 1] == c;
  }

  /**
   * `jsonl_load` on answers already read: the loop, the summary line that
   * divides by the number of answers, the frame built from the appended rows
   * (without columns when there is none, so that the postcode column is
   * missing) and the postcode filter. The check whether a text is a number is
   * a parameter.
   */
  function Load(cimek: seq<Row>, isNumber: string -> bool): (r: Result<seq<Row>, LoadError>)
  {
    match Run(cimek)
    case Failure(e) => Failure(e)
    case Success(st) =>
      if |cimek| == 0 then Failure(ZeroDivision)
      else if st.adatok == [] then Failure(MissingColumn)
      else Success(KeepNumeric(st.adatok, isNumber))
  }

  /** The words of `s`, as fields, stand in `row` from position 3 on. */
  predicate WordsAt3(row: Row, s: string) {
    3 + |Tokens(s)| <= |row| && row[3..3 + |Tokens(s)|] == Strs(Tokens(s))
  }

  /**
   * A row the loop appends: the street field and the field split at
   * position 3 held a letter and a digit, and the split left 7 fields or a
   * `Hungary`.
   */
  ghost predicate Emitted(row: Row) {
    |row| >= 6 && row[1].Str? && HasLetterAndDigit(row[1].s) &&
    row[3].Str? && |row[3].s| > 0 && NoSpace(row[3].s) &&
    (exists s :: HasLetterAndDigit(s) && WordsAt3(row, s)) &&
    (|row| == 7 || row[4] == Str("Hungary"))
  }

  /**
   * Every appended row has a street field with a letter and a digit, a
   * postcode field that is one word, the words of a field with a letter
   * and a digit from position 3 on, and either seven fields or `Hungary`
   * as the word after the postcode.
   */
  lemma {:induction false} RunEmits(cimek: seq<Row>)
    requires Run(cimek).Success?
    ensures forall row :: row in Run(cimek).value.adatok ==> Emitted(row)
  {
    if cimek != [] {
      var front := cimek[..|cimek| - 1];
      RunEmits(front);
      var st := Run(front).value;
      var cim := cimek[|cimek| - 1];
      if !Skipped(cim) {
        var t := Pick(st.tiszta, cim).value;
        var out := Check(t).value;
        if out.1 {
          CheckEmits(t);
        }
      }
    }
  }

  lemma CheckEmits(t: Row)
    requires |t| >= 6 && Check(t).Success? && Check(t).value.1
    ensures Emitted(Check(t).value.0)
  {
    var reszek := Tokens(t[3].s);
    SomeWord(t[3].s);
    TokensAreWords(t[3].s);
    var t2 := Resplit(t);
    assert t2[1] == t[1];
    assert t2[3] == Str(reszek[0]);
    assert reszek[0] in reszek;
    assert t2[3..3 + |reszek|] == Strs(reszek);
    assert WordsAt3(t2, t[3].s);
    if |t2| != 7 {
      assert t2[4] == Str(reszek[1]);
    }
  }

  /** An answer with fewer than six fields, or six with an empty street field, changes nothing. */
  lemma SkippedKeepsState(st: State, cim: Row)
    requires Carried(st) && Skipped(cim)
    ensures Step(st, cim) == Success(st)
  {
  }

  /**
   * An eight-field answer is never looked at: the iteration only re-examines
   * the record carried from before, whatever the answer holds.
   */
  lemma EightFieldsIgnored(st: State, c1: Row, c2: Row)
    requires Carried(st) && |c1| == 8 && |c2| == 8
    ensures Step(st, c1) == Step(st, c2)
  {
  }

  /** An eight-field first answer reads `tiszta` before anything assigned it. */
  lemma EightFieldsFirst(cim: Row)
    requires |cim| == 8
    ensures Run([cim]) == Failure(Unbound)
  {
    assert [cim][..0] == [];
  }

  /**
   * A seven-field answer is rearranged to `[f0, f3, f2, f4, f5, f6]`; when its
   * fields 3 and 4 hold letters and digits, field 4 is split into words and the
   * result is appended exactly when it has seven fields or `Hungary` second.
   */
  lemma SevenFields(st: State, cim: Row)
    requires Carried(st) && |cim| == 7
    requires cim[3].Str? && HasLetterAndDigit(cim[3].s)
    requires cim[4].Str? && HasLetterAndDigit(cim[4].s)
    requires var ws := Tokens(cim[4].s); |ws| == 2 || (|ws| > 2 && ws[1] == "Hungary")
    ensures Step(st, cim).Success?
    ensures var row := [cim[0], cim[3], cim[2]] + Strs(Tokens(cim[4].s)) + [cim[5], cim[6]];
            Step(st, cim).value == State(Some(row), st.adatok + [row])
  {
    var t := [cim[0], cim[3], cim[2]] + cim[4..];
    assert Pick(st.tiszta, cim) == Success(t);
    assert t[1] == cim[3] && t[3] == cim[4] && t[4..] == [cim[5], cim[6]];
    CheckPasses(t);
    var row := [cim[0], cim[3], cim[2]] + Strs(Tokens(cim[4].s)) + [cim[5], cim[6]];
    assert Resplit(t) == row;
    assert !Skipped(cim);
  }

  /** A record whose fields 1 and 3 hold letters and digits is split and appended when the split allows. */
  lemma CheckPasses(t: Row)
    requires |t| == 6
    requires t[1].Str? && HasLetterAndDigit(t[1].s)
    requires t[3].Str? && HasLetterAndDigit(t[3].s)
    requires var ws := Tokens(t[3].s); |ws| == 2 || (|ws| > 2 && ws[1] == "Hungary")
    ensures Check(t) == Success((Resplit(t), true))
  {
    var reszek := Tokens(t[3].s);
    assert |Resplit(t)| == 5 + |reszek|;
  }

  /** One more answer after a successful run is one more step of the loop. */
  lemma RunSnoc(front: seq<Row>, x: Row, st: State)
    requires Run(front) == Success(st)
    ensures Run(front + [x]) == Step(st, x)
  {
    assert (front + [x])[..|front|] == front;
  }

  /** A failed prefix of the answers is the failure of the whole load. */
  lemma LoadFails(cimek: seq<Row>, done: seq<Row>, isNumber: string -> bool)
    requires |done| <= |cimek| && done == cimek[..|done|] && Run(done).Failure?
    ensures Load(cimek, isNumber) == Failure(Run(done).error)
  {
    RunFailureStays(cimek, |done|);
  }

  /** A failure part-way through the answers is the failure of the whole load. */
  lemma {:induction false} RunFailureStays(cimek: seq<Row>, n: nat)
    requires n <= |cimek| && Run(cimek[..n]).Failure?
    ensures Run(cimek) == Run(cimek[..n])
    decreases |cimek| - n
  {
    if n < |cimek| {
      assert cimek[..n + 1][..n] == cimek[..n];
      RunFailureStays(cimek, n + 1);
    } else {
      assert cimek[..n] == cimek;
    }
  }

  /** Without answers the summary line divides by zero. */
  lemma EmptyInputFails(isNumber: string -> bool)
    ensures Load([], isNumber) == Failure(ZeroDivision)
  {
  }

  /** Answers that all are skipped append nothing and carry no record. */
  lemma {:induction false} AllSkipped(cimek: seq<Row>)
    requires forall k :: 0 <= k < |cimek| ==> Skipped(cimek[k])
    ensures Run(cimek) == Success(State(None, []))
  {
    if cimek != [] {
      AllSkipped(cimek[..|cimek| - 1]);
    }
  }

  /**
   * Answers none of which is appended leave a frame without columns, so the
   * postcode filter fails on the missing column; answers that all are
   * skipped are one such case.
   */
  lemma NoRowsFails(cimek: seq<Row>, isNumber: string -> bool)
    requires |cimek| > 0 && forall k :: 0 <= k < |cimek| ==> Skipped(cimek[k])
    ensures Load(cimek, isNumber) == Failure(MissingColumn)
  {
    AllSkipped(cimek);
  }

  /** Every row of the result was appended by the loop and has a numeric postcode. */
  lemma {:induction false} LoadRows(cimek: seq<Row>, isNumber: string -> bool)
    requires Load(cimek, isNumber).Success?
    ensures forall row: Row :: row in Load(cimek, isNumber).value ==> Emitted(row) && isNumber(row[3].s)
  {
    RunEmits(cimek);
  }

  /**
   * `jsonl_load`'s loop over answers already read: `tiszta` keeps its value
   * from one iteration to the next, and the first failure ends the load.
   */
  method JsonlLoad(cimek: seq<Row>, isNumber: string -> bool) returns (res: Result<seq<Row>, LoadError>)
    ensures res == Load(cimek, isNumber)
  {
    var adatok: seq<Row> := [];
    var tiszta: Option<Row> := None;
    var i := 0;
    ghost var done: seq<Row> := [];
    while i < |cimek|
      invariant i <= |cimek| && done == cimek[..i]
      invariant Run(done) == Success(State(tiszta, adatok))
    {
      var cim := cimek[i];
      RunSnoc(done, cim, State(tiszta, adatok));
      var r := Iteration(tiszta, adatok, cim);
      i := i + 1;
      done := done + [cim];
      if r.Failure? {
        LoadFails(cimek, done, isNumber);
        return Failure(r.error);
      }
      tiszta, adatok := r.value.tiszta, r.value.adatok;
    }
    assert done == cimek;
    if |cimek| == 0 {
      return Failure(ZeroDivision);
    }
    if adatok == [] {
      return Failure(MissingColumn);
    }
    res := Success(KeepNumeric(adatok, isNumber));
  }

  /**
   * The body of `jsonl_load`'s loop for one answer, branch by branch, with
   * `held` the `tiszta` of the previous answers: the new `tiszta` and
   * `adatok`, or the error that ends the load.
   */
  method Iteration(held: Option<Row>, adatok: seq<Row>, cim: Row) returns (r: Result<State, LoadError>)
    requires Carried(State(held, adatok))
    ensures r == Step(State(held, adatok), cim)
  {
    var tiszta := held;
    if |cim| < 6 {
      return Success(State(tiszta, adatok));
    } else if |cim| == 6 {
      if !Truthy(cim[1]) {
        return Success(State(tiszta, adatok));
      } else {
        tiszta := Some(cim);
      }
    } else if |cim| == 7 {
      tiszta := Some([cim[0], cim[3], cim[2]] + cim[|cim| - 3..]);
    } else if |cim| > 8 {
      var hasznos := cim[|cim| - 5..];
      var rend := [cim[0], hasznos[1], hasznos[0]] + hasznos[2..];
      var ok := Mixed(rend[1]);
      if ok.Failure? {
        return Failure(ok.error);
      }
      if ok.value {
        tiszta := Some(rend);
      }
    }
    if tiszta.None? {
      return Failure(Unbound);
    }
    var t := tiszta.value;
    assert Pick(held, cim) == Success(t);
    assert adatok + [] == adatok;
    var ok1 := Mixed(t[1]);
    if ok1.Failure? {
      return Failure(ok1.error);
    }
    if !ok1.value {
      return Success(State(tiszta, adatok));
    }
    var ok3 := Mixed(t[3]);
    if ok3.Failure? {
      return Failure(ok3.error);
    }
    if !ok3.value {
      return Success(State(tiszta, adatok));
    }
    var reszek := Tokens(t[3].s);
    t := t[..3] + Strs(reszek) + t[4..];
    tiszta := Some(t);
    if |t| != 7 {
      if |reszek| < 2 {
        return Failure(IndexOut);
      }
      if reszek[1] != "Hungary" {
        return Success(State(tiszta, adatok));
      }
    }
    r := Success(State(tiszta, adatok + [t]));
  }
}
