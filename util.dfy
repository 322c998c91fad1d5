/** Optional values and results shared by every module of the model. */
module Util {

  /** A value that may be missing: pandas' NA / None, or a Python `None`. */
  datatype Option<+T> = None | Some(value: T)

  /** The outcome of an operation that may raise. */
  datatype Result<+T, +E> = Success(value: T) | Failure(error: E)

  /** Non-null values of a sequence of optional values, in order. */
  function Present<T(!new)>(s: seq<Option<T>>): (r: seq<T>)
    ensures |r| <= |s|
    ensures forall x :: x in r <==> Some(x) in s
  {
    if s == [] then []
    else (if s[0].Some? then [s[0].value] else []) + Present(s[1..])
  }

  /** No element occurs twice. */
  predicate NoDuplicates<T(==)>(s: seq<T>) {
    forall i, j :: 0 <= i < j < |s| ==> s[i] != s[j]
  }

  /** The distinct elements of `s` in order of first occurrence (pandas' `unique`). */
  function Unique<T(==,!new)>(s: seq<T>): (r: seq<T>)
    ensures forall x :: x in r <==> x in s
    ensures NoDuplicates(r)
    ensures |r| <= |s|
    ensures |s| > 0 ==> |r| > 0 && r[0] == s[0]
  {
    if s == [] then []
    else
      var r := Unique(s[..|s| - 1]);
      assert forall x :: x in s <==> x in s[..|s| - 1] || x == s[|s| - 1] by {
        assert s == s[..|s| - 1] + [s[|s| - 1]];
      }
      if s[|s| - 1] in r then r else r + [s[|s| - 1]]
  }

  /** Position of the first occurrence of `x` in `s`. */
  function IndexOf<T(==)>(s: seq<T>, x: T): (i: nat)
    requires x in s
    ensures i < |s| && s[i] == x
    ensures forall j :: 0 <= j < i ==> s[j] != x
  {
    if s[0] == x then 0 else 1 + IndexOf(s[1..], x)
  }

  /** Number of occurrences of `x` in `s`. */
  function Count<T(==)>(s: seq<T>, x: T): (n: nat)
    ensures n <= |s|
    ensures n > 0 <==> x in s
  {
    if s == [] then 0 else (if s[0] == x then 1 else 0) + Count(s[1..], x)
  }

  /** The defined results of `f` over `s`, in order (a filter and a map in one pass). */
  function FilterMap<A, B>(s: seq<A>, f: A -> Option<B>): seq<B> {
    if s == [] then []
    else
      var front := FilterMap(s[..|s| - 1], f);
      var y := f(s[|s| - 1]);
      if y.Some? then front + [y.value] else front
  }

  /** The results are gathered element by element, in order: a concatenation is handled part by part. */
  lemma {:induction false} FilterMapAppend<A, B>(a: seq<A>, b: seq<A>, f: A -> Option<B>)
    ensures FilterMap(a + b, f) == FilterMap(a, f) + FilterMap(b, f)
    ensures |b| == 1 ==> FilterMap(b, f) == if f(b[0]).Some? then [f(b[0]).value] else []
    decreases |b|
  {
    if b == [] {
      assert a + b == a;
    } else {
      var n := |b| - 1;
      var front, c := b[..n], b[n];
      assert b == front + [c];
      var x := (if f(c).Some? then [f(c).value] else []);
      assert a + b == (a + front) + [c];
      calc {
        FilterMap(a + b, f);
        { FilterMapSnoc(a + front, c, f); }
        FilterMap(a + front, f) + x;
        { FilterMapAppend(a, front, f); }
        (FilterMap(a, f) + FilterMap(front, f)) + x;
        FilterMap(a, f) + (FilterMap(front, f) + x);
        { FilterMapSnoc(front, c, f); }
        FilterMap(a, f) + FilterMap(b, f);
      }
    }
    if |b| == 1 {
      assert b == [] + [b[0]];
      FilterMapSnoc([], b[0], f);
    }
  }

  /** One more element at the end contributes its own result, if any. */
  lemma FilterMapSnoc<A, B>(s: seq<A>, c: A, f: A -> Option<B>)
    ensures FilterMap(s + [c], f) == FilterMap(s, f) + (if f(c).Some? then [f(c).value] else [])
  {
    var t := s + [c];
    assert t[..|t| - 1] == s;
    assert t[|t| - 1] == c;
  }

  /** Every result kept is the result of some element. */
  lemma {:induction false} FilterMapFrom<A, B>(s: seq<A>, f: A -> Option<B>)
    ensures forall b :: b in FilterMap(s, f) ==> exists k :: 0 <= k < |s| && f(s[k]) == Some(b)
  {
    if s != [] {
      var front := s[..|s| - 1];
      FilterMapFrom(front, f);
      forall b | b in FilterMap(front, f) ensures exists k :: 0 <= k < |s| && f(s[k]) == Some(b) {
        var k :| 0 <= k < |front| && f(front[k]) == Some(b);
        assert s[k] == front[k];
      }
    }
  }

  /** Every element with a result has its result kept. */
  lemma {:induction false} FilterMapKeeps<A, B>(s: seq<A>, f: A -> Option<B>, i: nat)
    requires i < |s| && f(s[i]).Some?
    ensures f(s[i]).value in FilterMap(s, f)
  {
    var front := s[..|s| - 1];
    if i < |s| - 1 {
      assert front[i] == s[i];
      FilterMapKeeps(front, f, i);
    }
  }

  /** The first element of a slice put back in front of the rest of it. */
  lemma ConsSlice<T>(s: seq<T>, j: nat, i: nat, t: seq<T>)
    requires j < i <= |s|
    ensures [s[j]] + (s[j + 1..i] + t) == s[j..i] + t
  {
    assert s[j..i] == [s[j]] + s[j + 1..i];
  }

  lemma Assoc<T>(a: seq<T>, b: seq<T>, c: seq<T>)
    ensures (a + b) + c == a + (b + c)
  {
  }

  lemma ConcatRegroup<T>(a: seq<T>, b: seq<T>, c: seq<T>, d: seq<T>)
    ensures a + ((b + c) + d) == (a + b) + (c + d)
  {
  }
}
