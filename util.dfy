/** TransposeArray of cobi/util/util.go, which the tests use to turn row-wise
    fixtures into the column-first layout of the image grids. */
module Util {

  /** What TransposeArray needs of its input: at least one row, and every
      row at least as long as the first (it reads slice[j][i] for every
      i < len(slice[0])). */
  predicate Transposable<T>(s: seq<seq<T>>)
  {
    |s| > 0 && forall j :: 0 <= j < |s| ==> |s[j]| >= |s[0]|
  }

  /** A non-empty array whose rows all have the same, non-zero length. */
  predicate Rectangular<T>(s: seq<seq<T>>)
  {
    |s| > 0 && |s[0]| > 0 && forall j :: 0 <= j < |s| ==> |s[j]| == |s[0]|
  }

  /** The transpose: len(s[0]) rows of length len(s), with r[i][j] == s[j][i]. */
  function Transposed<T>(s: seq<seq<T>>): (r: seq<seq<T>>)
    requires Transposable(s)
    ensures |r| == |s[0]|
    ensures forall i :: 0 <= i < |r| ==> |r[i]| == |s|
    ensures forall i, j :: 0 <= i < |r| && 0 <= j < |s| ==> r[i][j] == s[j][i]
  {
    seq(|s[0]|, i requires 0 <= i < |s[0]| => seq(|s|, j requires 0 <= j < |s| => s[j][i]))
  }

  /** TransposeArray: allocates each result row and fills it index by index. */
  method TransposeArray<T(0)>(slice: seq<seq<T>>) returns (result: seq<seq<T>>)
    requires Transposable(slice)
    ensures result == Transposed(slice)
  {
    var width := |slice|;
    var height := |slice[0]|;
    ghost var t := Transposed(slice);
    result := [];
    var i := 0;
    while i < height
      invariant 0 <= i <= height
      invariant result == t[..i]
    {
      var row := new T[width];
      var j := 0;
      while j < width
        invariant 0 <= j <= width
        invariant forall k :: 0 <= k < j ==> row[k] == slice[k][i]
      {
        row[j] := slice[j][i];
        j := j + 1;
      }
      assert row[..] == t[i];
      result := result + [row[..]];
      i := i + 1;
    }
  }

  /** Transposing a rectangular array twice gives it back. */
  lemma TransposeTwice<T>(s: seq<seq<T>>)
    requires Rectangular(s)
    ensures Transposable(Transposed(s))
    ensures Transposed(Transposed(s)) == s
  {
    var t := Transposed(s);
    assert Transposable(t);
    var tt := Transposed(t);
    assert |tt| == |s|;
    forall j | 0 <= j < |s|
      ensures tt[j] == s[j]
    {
      assert |tt[j]| == |s[j]|;
      forall i | 0 <= i < |s[j]|
        ensures tt[j][i] == s[j][i]
      {
        assert tt[j][i] == t[i][j];
      }
    }
  }
}
