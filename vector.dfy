/** Vector helpers of the engine (src/math/vector.go): the L1 distance used as the
    convergence signal and the uniform start vector. Ranks are exact reals here. */
module Vectors {

  /** math.Abs on exact reals. */
  function Abs(x: real): (r: real)
    ensures r >= 0.0 && (r == x || r == -x)
  {
    if x < 0.0 then -x else x
  }

  /** Sum of a vector, accumulated from the front as the loops of the source do. */
  function Sum(s: seq<real>): real
  {
    if |s| == 0 then 0.0 else Sum(s[..|s| - 1]) + s[|s| - 1]
  }

  predicate NonNegative(s: seq<real>)
  {
    forall i :: 0 <= i < |s| ==> s[i] >= 0.0
  }

  /** The elementwise absolute differences |v1[i] - v2[i]|. */
  function AbsDiffs(v1: seq<real>, v2: seq<real>): seq<real>
    requires |v1| == |v2|
  {
    seq(|v1|, i requires 0 <= i < |v1| => Abs(v1[i] - v2[i]))
  }

  /** The L1 distance sum(|v1[i] - v2[i]|) for all i. */
  function L1(v1: seq<real>, v2: seq<real>): real
    requires |v1| == |v2|
  {
    Sum(AbsDiffs(v1, v2))
  }

  /** The uniform vector of the given size: every element is 1/size. */
  function Uniform(size: nat): seq<real>
  {
    seq(size, i requires 0 <= i < size => 1.0 / size as real)
  }

  lemma {:induction false} SumNonNegative(s: seq<real>)
    requires NonNegative(s)
    ensures Sum(s) >= 0.0
  {
    if |s| > 0 {
      SumNonNegative(s[..|s| - 1]);
    }
  }

  /** A sum of non-negative terms vanishes exactly when every term does. */
  lemma {:induction false} SumZeroIff(s: seq<real>)
    requires NonNegative(s)
    ensures Sum(s) == 0.0 <==> forall i :: 0 <= i < |s| ==> s[i] == 0.0
  {
    if |s| > 0 {
      var init := s[..|s| - 1];
      SumZeroIff(init);
      SumNonNegative(init);
      if Sum(s) == 0.0 {
        forall i | 0 <= i < |s| ensures s[i] == 0.0 {
          if i < |s| - 1 { assert s[i] == init[i]; }
        }
      }
      if forall i :: 0 <= i < |s| ==> s[i] == 0.0 {
        assert forall i :: 0 <= i < |init| ==> init[i] == 0.0;
      }
    }
  }

  /** A sum of n copies of c is n * c. */
  lemma {:induction false} SumConstant(s: seq<real>, c: real)
    requires forall i :: 0 <= i < |s| ==> s[i] == c
    ensures Sum(s) == |s| as real * c
  {
    if |s| > 0 {
      SumConstant(s[..|s| - 1], c);
    }
  }

  /** Adding a to and scaling by b every element of s adds |s| * a to and scales by b its sum. */
  lemma {:induction false} SumScaleShift(s: seq<real>, t: seq<real>, a: real, b: real)
    requires |t| == |s| && forall i :: 0 <= i < |s| ==> t[i] == a + b * s[i]
    ensures Sum(t) == |s| as real * a + b * Sum(s)
  {
    if |s| > 0 {
      SumScaleShift(s[..|s| - 1], t[..|t| - 1], a, b);
    }
  }

  /** SumScaleShift with the shifted total |s| * a given by the caller. */
  lemma SumScaleShiftBy(s: seq<real>, t: seq<real>, a: real, b: real, shift: real)
    requires |t| == |s| && forall i :: 0 <= i < |s| ==> t[i] == a + b * s[i]
    requires shift == |s| as real * a
    ensures Sum(t) == shift + b * Sum(s)
  {
    SumScaleShift(s, t, a, b);
  }

  /** The terms of an L1 distance are non-negative, hence so is the distance. */
  lemma L1NonNegative(v1: seq<real>, v2: seq<real>)
    requires |v1| == |v2|
    ensures L1(v1, v2) >= 0.0
  {
    SumNonNegative(AbsDiffs(v1, v2));
  }

  lemma L1Symmetric(v1: seq<real>, v2: seq<real>)
    requires |v1| == |v2|
    ensures L1(v1, v2) == L1(v2, v1)
  {
    assert AbsDiffs(v1, v2) == AbsDiffs(v2, v1);
  }

  /** The distance is zero exactly between equal vectors. */
  lemma L1ZeroIffEqual(v1: seq<real>, v2: seq<real>)
    requires |v1| == |v2|
    ensures L1(v1, v2) == 0.0 <==> v1 == v2
  {
    var d := AbsDiffs(v1, v2);
    SumZeroIff(d);
    if L1(v1, v2) == 0.0 {
      forall i | 0 <= i < |v1| ensures v1[i] == v2[i] {
        assert d[i] == 0.0;
      }
      assert v1 == v2;
    }
    if v1 == v2 {
      forall i | 0 <= i < |d| ensures d[i] == 0.0 {
        assert d[i] == Abs(v1[i] - v2[i]);
      }
    }
  }

  /** The worked example of the tests: |0.1-0.2| + |0.5-0.4| + |0.4-0.4| = 0.2. */
  lemma L1Example()
    ensures L1([0.1, 0.5, 0.4], [0.2, 0.4, 0.4]) == 0.2
  {
    var d := AbsDiffs([0.1, 0.5, 0.4], [0.2, 0.4, 0.4]);
    assert d == [0.1, 0.1, 0.0];
    assert d[..2] == [0.1, 0.1] && d[..2][..1] == [0.1] && d[..2][..1][..0] == [];
    assert Sum(d[..2][..1]) == 0.1;
    assert Sum(d[..2]) == 0.2;
  }

  /** The uniform vector is a probability distribution. */
  lemma UniformSumsToOne(size: nat)
    requires size > 0
    ensures Sum(Uniform(size)) == 1.0
  {
    SumConstant(Uniform(size), 1.0 / size as real);
  }

  /** L1Difference: panics on vectors of different lengths, so that is a precondition. */
  method L1Difference(v1: array<real>, v2: array<real>) returns (diff: real)
    requires v1.Length == v2.Length
    ensures diff == L1(v1[..], v2[..])
  {
    diff := 0.0;
    for i := 0 to v1.Length
      invariant diff == L1(v1[..i], v2[..i])
    {
      ghost var d := AbsDiffs(v1[..i + 1], v2[..i + 1]);
      assert d[..i] == AbsDiffs(v1[..i], v2[..i]);
      diff := diff + Abs(v1[i] - v2[i]);
    }
    assert v1[..] == v1[..v1.Length] && v2[..] == v2[..v2.Length];
  }

  /** InitializeUniform: a fresh vector of `size` elements, each 1/size. The source
      computes 1/size before its loop; for size 0 that value is never stored, so
      here it is computed where it is stored. */
  method InitializeUniform(size: nat) returns (v: array<real>)
    ensures fresh(v)
    ensures v[..] == Uniform(size)
  {
    v := new real[size](_ => 0.0);
    for i := 0 to size
      invariant forall j :: 0 <= j < i ==> v[j] == 1.0 / size as real
    {
      v[i] := 1.0 / size as real;
    }
  }
}
