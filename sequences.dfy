/**
 * List operations the checks share: filtering, Python's `list.remove`
 * (first occurrence), the "iterate over a copy and remove" idiom, and
 * parsing every element of a list where the first failure aborts.
 */
module Sequences {
  import opened Wrappers
  import opened Text

  /** The elements of `s` satisfying `keep`, in order. */
  function Filter<T(==)>(s: seq<T>, keep: T -> bool): (r: seq<T>)
    ensures |r| <= |s|
    ensures forall i :: 0 <= i < |r| ==> r[i] in s && keep(r[i])
    ensures forall i :: 0 <= i < |s| && keep(s[i]) ==> s[i] in r
    decreases |s|
  {
    if s == [] then []
    else (if keep(s[0]) then [s[0]] else []) + Filter(s[1..], keep)
  }

  /** `a` is `b` with some elements left out: `a[i]` is `b[idx[i]]`, for increasing indices. */
  ghost predicate SublistBy<T>(a: seq<T>, b: seq<T>, idx: seq<int>) {
    && |idx| == |a|
    && (forall i :: 0 <= i < |idx| ==> 0 <= idx[i] < |b| && a[i] == b[idx[i]])
    && (forall i, j :: 0 <= i < j < |idx| ==> idx[i] < idx[j])
  }

  ghost predicate IsSublist<T>(a: seq<T>, b: seq<T>) {
    exists idx :: SublistBy(a, b, idx)
  }

  /** A filter keeps the order of its input. */
  lemma {:induction false} FilterSublist<T>(s: seq<T>, keep: T -> bool)
    ensures IsSublist(Filter(s, keep), s)
    decreases |s|
  {
    if s == [] {
      assert SublistBy<T>([], [], []);
    } else {
      FilterSublist(s[1..], keep);
      var r := Filter(s[1..], keep);
      var rest :| SublistBy(r, s[1..], rest);
      var shifted := Shifted(rest);
      SublistCons(r, s, rest);
      if keep(s[0]) {
        assert Filter(s, keep) == [s[0]] + r;
        assert SublistBy([s[0]] + r, s, [0] + shifted);
      } else {
        assert Filter(s, keep) == r;
        assert SublistBy(r, s, shifted);
      }
    }
  }

  /** Every index one further on. */
  function Shifted(idx: seq<int>): (r: seq<int>)
    ensures |r| == |idx| && forall i :: 0 <= i < |idx| ==> r[i] == idx[i] + 1
  {
    seq(|idx|, i requires 0 <= i < |idx| => idx[i] + 1)
  }

  /** A sublist of the tail is a sublist of the whole, with or without the head. */
  lemma SublistCons<T>(r: seq<T>, s: seq<T>, rest: seq<int>)
    requires s != [] && SublistBy(r, s[1..], rest)
    ensures SublistBy(r, s, Shifted(rest))
    ensures SublistBy([s[0]] + r, s, [0] + Shifted(rest))
  {
    var shifted := Shifted(rest);
    forall i | 0 <= i < |shifted| ensures 0 <= shifted[i] < |s| && r[i] == s[shifted[i]] {
      assert r[i] == s[1..][rest[i]];
    }
    var idx := [0] + shifted;
    var a := [s[0]] + r;
    forall i | 0 <= i < |idx| ensures 0 <= idx[i] < |s| && a[i] == s[idx[i]] {
      if i > 0 {
        assert idx[i] == shifted[i - 1] && a[i] == r[i - 1];
      }
    }
    forall i, j | 0 <= i < j < |idx| ensures idx[i] < idx[j] {
      if i > 0 {
        assert idx[i] == shifted[i - 1] && idx[j] == shifted[j - 1];
      }
    }
  }

  lemma {:induction false} FilterAppend<T>(a: seq<T>, b: seq<T>, keep: T -> bool)
    ensures Filter(a + b, keep) == Filter(a, keep) + Filter(b, keep)
    decreases |a|
  {
    if a == [] {
      assert a + b == b;
    } else {
      var head := if keep(a[0]) then [a[0]] else [];
      assert (a + b)[0] == a[0];
      assert (a + b)[1..] == a[1..] + b;
      FilterAppend(a[1..], b, keep);
      calc {
        Filter(a + b, keep);
        head + Filter(a[1..] + b, keep);
        head + (Filter(a[1..], keep) + Filter(b, keep));
        (head + Filter(a[1..], keep)) + Filter(b, keep);
      }
    }
  }

  /** Filtering by a predicate that rejects every element gives the empty list. */
  lemma {:induction false} FilterNone<T>(s: seq<T>, keep: T -> bool)
    requires forall i :: 0 <= i < |s| ==> !keep(s[i])
    ensures Filter(s, keep) == []
    decreases |s|
  {
    if s != [] {
      FilterNone(s[1..], keep);
    }
  }

  /** Filtering by a predicate that accepts every element gives the list back. */
  lemma {:induction false} FilterAll<T>(s: seq<T>, keep: T -> bool)
    requires forall i :: 0 <= i < |s| ==> keep(s[i])
    ensures Filter(s, keep) == s
    decreases |s|
  {
    if s != [] {
      FilterAll(s[1..], keep);
      assert [s[0]] + s[1..] == s;
    }
  }

  /** Two predicates that agree on the elements of `s` filter it alike. */
  lemma {:induction false} FilterExt<T>(s: seq<T>, p: T -> bool, q: T -> bool)
    requires forall i :: 0 <= i < |s| ==> p(s[i]) == q(s[i])
    ensures Filter(s, p) == Filter(s, q)
    decreases |s|
  {
    if s != [] {
      FilterExt(s[1..], p, q);
    }
  }

  /** Python's `list.remove(x)`: drops the first element equal to `x`. */
  function RemoveFirst<T(==)>(s: seq<T>, x: T): (r: seq<T>)
    requires x in s
    ensures |r| == |s| - 1
    decreases |s|
  {
    if s[0] == x then s[1..] else [s[0]] + RemoveFirst(s[1..], x)
  }

  lemma {:induction false} RemoveFirstAfter<T>(a: seq<T>, x: T, b: seq<T>)
    requires x !in a
    ensures RemoveFirst(a + [x] + b, x) == a + b
    decreases |a|
  {
    if a != [] {
      assert (a + [x] + b)[1..] == a[1..] + [x] + b;
      RemoveFirstAfter(a[1..], x, b);
      assert [a[0]] + (a[1..] + b) == a + b;
    }
  }

  lemma RemoveRejectedStep<T>(copy: seq<T>, i: nat, keep: T -> bool)
    requires i < |copy|
    ensures keep(copy[i]) ==>
      Filter(copy[..i], keep) + copy[i..] == Filter(copy[..i + 1], keep) + copy[i + 1..]
    ensures !keep(copy[i]) ==>
      copy[i] in Filter(copy[..i], keep) + copy[i..] &&
      RemoveFirst(Filter(copy[..i], keep) + copy[i..], copy[i]) == Filter(copy[..i + 1], keep) + copy[i + 1..]
  {
    var x := copy[i];
    var f := Filter(copy[..i], keep);
    var rest := copy[i + 1..];
    assert copy[..i + 1] == copy[..i] + [x];
    assert copy[i..] == [x] + rest;
    FilterAppend(copy[..i], [x], keep);
    assert Filter([x], keep) == (if keep(x) then [x] else []);
    assert Filter(copy[..i + 1], keep) == f + Filter([x], keep);
    if keep(x) {
      assert f + copy[i..] == (f + [x]) + rest;
    } else {
      assert x !in f;
      RemoveFirstAfter(f, x, rest);
      assert f + copy[i..] == f + [x] + rest;
      assert f + [x] + rest == (f + [x]) + rest;
    }
  }

  /**
   * `for x in list(s): if not keep(x): s.remove(x)`: removing, while walking
   * a copy, every element the predicate rejects leaves exactly the accepted
   * elements in their order, duplicates included.
   */
  method RemoveRejected<T(==)>(s: seq<T>, keep: T -> bool) returns (r: seq<T>)
    ensures r == Filter(s, keep)
  {
    var copy := s;
    r := s;
    var i := 0;
    while i < |copy|
      invariant 0 <= i <= |copy|
      invariant r == Filter(copy[..i], keep) + copy[i..]
    {
      RemoveRejectedStep(copy, i, keep);
      if !keep(copy[i]) {
        r := RemoveFirst(r, copy[i]);
      }
      i := i + 1;
    }
    assert copy[..i] == s;
  }

  /**
   * Applies `f` to every element; the first failure aborts the whole list
   * (a parser called in a loop whose exception escapes the loop).
   */
  function MapAll<X, T, E>(xs: seq<X>, f: X -> Result<T, E>): (r: Result<seq<T>, E>)
    ensures r.Ok? <==> forall i :: 0 <= i < |xs| ==> f(xs[i]).Ok?
    ensures r.Ok? ==> |r.value| == |xs| && forall i :: 0 <= i < |xs| ==> r.value[i] == f(xs[i]).value
    decreases |xs|
  {
    if xs == [] then Ok([])
    else
      match f(xs[0])
      case Err(e) => Err(e)
      case Ok(v) =>
        match MapAll(xs[1..], f)
        case Err(e) => Err(e)
        case Ok(vs) =>
          assert forall i :: 0 <= i < |xs| ==> f(xs[i]).Ok? by {
            forall i | 0 <= i < |xs| ensures f(xs[i]).Ok? {
              if i > 0 { assert xs[i] == xs[1..][i - 1]; }
            }
          }
          Ok([v] + vs)
  }

  /** When parsing fails, the error is the one of the first element that fails. */
  lemma {:induction false} MapAllFirstError<X, T, E>(xs: seq<X>, f: X -> Result<T, E>)
    requires MapAll(xs, f).Err?
    ensures exists i :: 0 <= i < |xs| && f(xs[i]) == Err(MapAll(xs, f).error) && forall j :: 0 <= j < i ==> f(xs[j]).Ok?
    decreases |xs|
  {
    var e := MapAll(xs, f).error;
    if f(xs[0]).Err? {
      assert f(xs[0]) == Err(e);
    } else {
      MapAllFirstError(xs[1..], f);
      var i :| 0 <= i < |xs[1..]| && f(xs[1..][i]) == Err(e) && forall j :: 0 <= j < i ==> f(xs[1..][j]).Ok?;
      assert f(xs[i + 1]) == Err(e);
      forall j | 0 <= j < i + 1 ensures f(xs[j]).Ok? {
        if j > 0 { assert xs[j] == xs[1..][j - 1]; }
      }
    }
  }

  /** Parsing a concatenation: the first list's failure wins, then the second's. */
  lemma {:induction false} MapAllAppend<X, T, E>(a: seq<X>, b: seq<X>, f: X -> Result<T, E>)
    ensures MapAll(a + b, f) ==
      match MapAll(a, f)
      case Err(e) => Err(e)
      case Ok(va) =>
        match MapAll(b, f)
        case Err(e) => Err(e)
        case Ok(vb) => Ok(va + vb)
    decreases |a|
  {
    if a == [] {
      assert a + b == b;
      match MapAll(b, f)
      case Err(_) =>
      case Ok(vb) => assert [] + vb == vb;
    } else {
      assert (a + b)[0] == a[0];
      assert (a + b)[1..] == a[1..] + b;
      MapAllAppend(a[1..], b, f);
      match f(a[0])
      case Err(_) =>
      case Ok(v) =>
        match MapAll(a[1..], f)
        case Err(_) =>
        case Ok(va) =>
          match MapAll(b, f)
          case Err(_) =>
          case Ok(vb) => assert [v] + (va + vb) == ([v] + va) + vb;
    }
  }

  lemma MapAllSnoc<X, T, E>(p: seq<X>, x: X, f: X -> Result<T, E>)
    ensures MapAll(p + [x], f) ==
      match MapAll(p, f)
      case Err(e) => Err(e)
      case Ok(vs) =>
        match f(x)
        case Err(e) => Err(e)
        case Ok(v) => Ok(vs + [v])
  {
    MapAllAppend(p, [x], f);
    assert [x][0] == x && [x][1..] == [];
    assert MapAll([x][1..], f) == Ok([]);
    match f(x)
    case Err(e) =>
    case Ok(v) => assert [v] + [] == [v];
  }

  /** One more element of a list parsed in a loop. */
  lemma MapAllStep<X, T, E>(xs: seq<X>, i: nat, f: X -> Result<T, E>)
    requires i < |xs|
    ensures MapAll(xs[..i + 1], f) ==
      match MapAll(xs[..i], f)
      case Err(e) => Err(e)
      case Ok(vs) =>
        match f(xs[i])
        case Err(e) => Err(e)
        case Ok(v) => Ok(vs + [v])
  {
    assert xs[..i + 1] == xs[..i] + [xs[i]];
    MapAllSnoc(xs[..i], xs[i], f);
  }

  /** Once an element has failed to parse, the whole list fails with that error. */
  lemma MapAllAbort<X, T, E>(xs: seq<X>, i: nat, f: X -> Result<T, E>)
    requires i <= |xs| && MapAll(xs[..i], f).Err?
    ensures MapAll(xs, f) == MapAll(xs[..i], f)
  {
    assert xs == xs[..i] + xs[i..];
    MapAllAppend(xs[..i], xs[i..], f);
  }

  lemma StrippedNonBlankSnoc(lines: seq<string>, i: nat)
    requires i < |lines|
    ensures StrippedNonBlank(lines[..i + 1]) ==
      StrippedNonBlank(lines[..i]) + (if Strip(lines[i]) == [] then [] else [Strip(lines[i])])
  {
    assert lines[..i + 1] == lines[..i] + [lines[i]];
    StrippedNonBlankAppend(lines[..i], [lines[i]]);
    assert [lines[i]][1..] == [];
  }

  /** One more line of a text file read by a parsing loop (stripped, skipped when blank). */
  lemma ParseLinesStep<T, E>(lines: seq<string>, i: nat, f: string -> Result<T, E>)
    requires i < |lines|
    ensures MapAll(StrippedNonBlank(lines[..i + 1]), f) ==
      match MapAll(StrippedNonBlank(lines[..i]), f)
      case Err(e) => Err(e)
      case Ok(vs) =>
        if Strip(lines[i]) == [] then Ok(vs)
        else
          match f(Strip(lines[i]))
          case Err(e) => Err(e)
          case Ok(v) => Ok(vs + [v])
  {
    var l := Strip(lines[i]);
    var p := StrippedNonBlank(lines[..i]);
    StrippedNonBlankSnoc(lines, i);
    if l == [] {
      assert p + [] == p;
    } else {
      MapAllSnoc(p, l, f);
    }
  }

  /** Once a line has failed to parse, the whole file fails with that error. */
  lemma ParseLinesAbort<T, E>(lines: seq<string>, i: nat, f: string -> Result<T, E>)
    requires i <= |lines| && MapAll(StrippedNonBlank(lines[..i]), f).Err?
    ensures MapAll(StrippedNonBlank(lines), f) == MapAll(StrippedNonBlank(lines[..i]), f)
  {
    StrippedNonBlankSplit(lines, i);
    MapAllErrPrefix(StrippedNonBlank(lines[..i]), StrippedNonBlank(lines[i..]), f);
  }

  lemma StrippedNonBlankSplit(lines: seq<string>, i: nat)
    requires i <= |lines|
    ensures StrippedNonBlank(lines) == StrippedNonBlank(lines[..i]) + StrippedNonBlank(lines[i..])
  {
    assert lines[..i] + lines[i..] == lines;
    StrippedNonBlankAppend(lines[..i], lines[i..]);
  }

  /** A list whose front fails to parse fails with the front's error, whatever follows. */
  lemma MapAllErrPrefix<X, T, E>(a: seq<X>, b: seq<X>, f: X -> Result<T, E>)
    requires MapAll(a, f).Err?
    ensures MapAll(a + b, f) == MapAll(a, f)
  {
    MapAllAppend(a, b, f);
  }
}
