/** Small shared vocabulary: optional values, and splitting and joining of sequences. */
module Prelude {

  const BACKSLASH := '\\'

  datatype Option<+T> = None | Some(value: T)

  /** `str::split` / `slice::split` on one delimiter: always at least one piece, pieces may be empty. */
  function SplitOn<T(==)>(d: T, s: seq<T>): (pieces: seq<seq<T>>)
    ensures |pieces| >= 1
  {
    if s == [] then [[]]
    else
      var rest := SplitOn(d, s[1..]);
      if s[0] == d then [[]] + rest else Attach(s[0], rest)
  }

  /** Put `x` at the front of the first piece. */
  function Attach<T>(x: T, pieces: seq<seq<T>>): (r: seq<seq<T>>)
    requires |pieces| >= 1
    ensures |r| == |pieces| && r[0] == [x] + pieces[0] && r[1..] == pieces[1..]
  {
    [[x] + pieces[0]] + pieces[1..]
  }

  function Join<T>(sep: seq<T>, parts: seq<seq<T>>): seq<T> {
    if |parts| == 0 then []
    else if |parts| == 1 then parts[0]
    else parts[0] + sep + Join(sep, parts[1..])
  }

  function NonEmpty<T(==)>(pieces: seq<seq<T>>): seq<seq<T>> {
    if pieces == [] then []
    else (if pieces[0] == [] then [] else [pieces[0]]) + NonEmpty(pieces[1..])
  }

  /** Each piece stays in its place unless it is empty. */
  lemma NonEmptyIs<T>(a: seq<seq<T>>, p: seq<T>, b: seq<seq<T>>)
    ensures NonEmpty<T>([]) == []
    ensures NonEmpty(a + [p] + b) == NonEmpty(a) + (if p == [] then [] else [p]) + NonEmpty(b)
  {
    NonEmptyAppend(a + [p], b);
    NonEmptyAppend(a, [p]);
    assert [p][1..] == [];
  }

  lemma {:induction false} NonEmptyAppend<T>(a: seq<seq<T>>, b: seq<seq<T>>)
    ensures NonEmpty(a + b) == NonEmpty(a) + NonEmpty(b)
  {
    if a == [] {
      assert a + b == b;
    } else {
      assert (a + b)[1..] == a[1..] + b;
      NonEmptyAppend(a[1..], b);
    }
  }

  /** A delimiter in the middle cuts the problem in two. */
  lemma {:induction false} SplitAtDelimiter<T>(d: T, a: seq<T>, b: seq<T>)
    ensures SplitOn(d, a + [d] + b) == SplitOn(d, a) + SplitOn(d, b)
  {
    var s := a + [d] + b;
    if a == [] {
      assert s[1..] == b;
    } else {
      var rest := a[1..] + [d] + b;
      assert s[0] == a[0] && s[1..] == rest;
      SplitAtDelimiter(d, a[1..], b);
      var r, q := SplitOn(d, a[1..]), SplitOn(d, b);
      if a[0] == d {
        assert [[]] + (r + q) == [[]] + r + q;
      } else {
        AttachAppend(a[0], r, q);
      }
    }
  }

  lemma AttachAppend<T>(x: T, r: seq<seq<T>>, q: seq<seq<T>>)
    requires |r| >= 1
    ensures Attach(x, r + q) == Attach(x, r) + q
  {
    assert (r + q)[1..] == r[1..] + q;
  }

  lemma {:induction false} SplitFree<T>(d: T, s: seq<T>)
    requires d !in s
    ensures SplitOn(d, s) == [s]
  {
    if s != [] {
      SplitFree(d, s[1..]);
      assert s == [s[0]] + s[1..];
    }
  }

  /** Splitting inverts joining when no part holds the delimiter. */
  lemma {:induction false} SplitJoin<T>(d: T, parts: seq<seq<T>>)
    requires parts != [] && forall p :: p in parts ==> d !in p
    ensures SplitOn(d, Join([d], parts)) == parts
  {
    SplitFree(d, parts[0]);
    if |parts| > 1 {
      SplitJoin(d, parts[1..]);
      SplitAtDelimiter(d, parts[0], Join([d], parts[1..]));
    }
  }

  /** Joining inverts splitting on every input. */
  lemma {:induction false} JoinSplit<T>(d: T, s: seq<T>)
    ensures Join([d], SplitOn(d, s)) == s
  {
    if s != [] {
      JoinSplit(d, s[1..]);
      var rest := SplitOn(d, s[1..]);
      if s[0] == d {
        assert ([[]] + rest)[1..] == rest;
      } else {
        var pieces := SplitOn(d, s);
        assert pieces[1..] == rest[1..];
      }
    }
  }

  lemma {:induction false} SplitPieces<T>(d: T, s: seq<T>)
    ensures forall p :: p in SplitOn(d, s) ==> d !in p && forall x :: x in p ==> x in s
  {
    if s != [] {
      SplitPieces(d, s[1..]);
    }
  }

  lemma AppendCons<T>(acc: seq<T>, x: T, xs: seq<T>)
    ensures acc + [x] + xs == acc + ([x] + xs)
  {
  }

  lemma PrependNothing<T>(s: seq<T>)
    ensures [] + s == s
  {
  }
}
