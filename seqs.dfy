/** Sequence helpers standing in for the LINQ operators the diff queries use. */
module Seqs {

  predicate Distinct<T(==)>(s: seq<T>)
  {
    forall i, j | 0 <= i < j < |s| :: s[i] != s[j]
  }

  /** Enumerable.Where. */
  function Where<T>(s: seq<T>, keep: T -> bool): (r: seq<T>)
    ensures |r| <= |s|
    ensures forall i | 0 <= i < |r| :: r[i] in s && keep(r[i])
    ensures forall i | 0 <= i < |s| :: keep(s[i]) ==> s[i] in r
  {
    if s == [] then []
    else (if keep(s[0]) then [s[0]] else []) + Where(s[1..], keep)
  }

  /** Enumerable.Select. */
  function Select<T, U>(s: seq<T>, f: T -> U): (r: seq<U>)
    ensures |r| == |s|
    ensures forall i | 0 <= i < |s| :: r[i] == f(s[i])
  {
    seq(|s|, i requires 0 <= i < |s| => f(s[i]))
  }

  /** Enumerable.Distinct: the first occurrence of each element, in order. */
  function Dedup<T(==)>(s: seq<T>): (r: seq<T>)
    ensures Distinct(r)
    ensures forall i | 0 <= i < |r| :: r[i] in s
    ensures forall i | 0 <= i < |s| :: s[i] in r
  {
    if s == [] then []
    else
      var r := Dedup(s[..|s| - 1]);
      assert s == s[..|s| - 1] + [s[|s| - 1]];
      if s[|s| - 1] in r then r else r + [s[|s| - 1]]
  }

  lemma {:induction false} WhereOfDistinct<T>(s: seq<T>, keep: T -> bool)
    requires Distinct(s)
    ensures Distinct(Where(s, keep))
  {
    if s != [] {
      WhereOfDistinct(s[1..], keep);
      assert s[0] !in s[1..] by {
        forall j | 0 <= j < |s[1..]| ensures s[1..][j] != s[0] { assert s[1..][j] == s[j + 1]; }
      }
    }
  }

  /** The pieces one after another, as `List.AddRange` builds them up. */
  function Flatten<T>(pieces: seq<seq<T>>): seq<T>
  {
    if pieces == [] then [] else pieces[0] + Flatten(pieces[1..])
  }

  /** Appending one more piece appends its elements. */
  lemma {:induction false} FlattenSnoc<T>(pieces: seq<seq<T>>, piece: seq<T>)
    ensures Flatten(pieces + [piece]) == Flatten(pieces) + piece
    decreases |pieces|
  {
    if pieces == [] {
      assert Flatten([piece]) == piece + Flatten([piece][1..]);
    } else {
      FlattenSnoc(pieces[1..], piece);
      assert (pieces + [piece])[1..] == pieces[1..] + [piece];
    }
  }

  /** Pieces of width `w` are found at multiples of `w`. */
  lemma {:induction false} FlattenChunk<T>(pieces: seq<seq<T>>, w: nat, i: nat)
    requires forall j | 0 <= j < |pieces| :: |pieces[j]| == w
    requires i < |pieces|
    ensures w * i + w <= |Flatten(pieces)| && Flatten(pieces)[w * i..w * i + w] == pieces[i]
    decreases i
  {
    FlattenLength(pieces, w);
    var rest := pieces[1..];
    if i == 0 {
      assert Flatten(pieces)[..w] == pieces[0];
    } else {
      FlattenChunk(rest, w, i - 1);
      assert w * i == w + w * (i - 1);
      assert Flatten(pieces)[w * i..w * i + w] == Flatten(rest)[w * (i - 1)..w * (i - 1) + w];
    }
  }

  lemma {:induction false} FlattenLength<T>(pieces: seq<seq<T>>, w: nat)
    requires forall j | 0 <= j < |pieces| :: |pieces[j]| == w
    ensures |Flatten(pieces)| == w * |pieces|
    decreases |pieces|
  {
    if pieces != [] {
      FlattenLength(pieces[1..], w);
      assert w * |pieces| == w + w * (|pieces| - 1);
    }
  }

  /** A slice of a slice is a slice of the whole. */
  lemma SliceOfSlice<T>(s: seq<T>, a: nat, b: nat, c: nat, d: nat)
    requires a <= b <= |s| && c <= d <= b - a
    ensures s[a..b][c..d] == s[a + c..a + d]
  {
    forall k | 0 <= k < d - c
      ensures s[a..b][c..d][k] == s[a + c..a + d][k]
    {
      assert s[a..b][c..d][k] == s[a..b][c + k] == s[a + c + k];
    }
  }

  /** An array of `n` filled by `f(i)` at index i, as a `for` loop fills it. */
  method Tabulate<T(0)>(f: nat --> T, n: nat) returns (r: seq<T>)
    requires forall i | 0 <= i < n :: f.requires(i)
    ensures |r| == n && forall i | 0 <= i < n :: r[i] == f(i)
  {
    var a := new T[n];
    for i := 0 to n
      invariant forall j | 0 <= j < i :: a[j] == f(j)
    {
      a[i] := f(i);
    }
    return a[..];
  }
}
