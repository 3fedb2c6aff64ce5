/** The arithmetic kernel shared by every variant: a dot product of two
    windows of matrix values, accumulated from index 0 upwards.  The per-file
    copies of `dotProduct` apply a cube root afterwards. */
module Kernel {

  /** The floating-point operations the kernel uses on `double` values: IEEE
      addition, multiplication and `std::cbrt`.  They are parameters of the
      model, so nothing here depends on their numeric properties (not even
      associativity, which double addition lacks); the evaluation order is
      the source's. */
  datatype Fp = Fp(add: (real, real) -> real, mul: (real, real) -> real, cbrt: real -> real)

  /** Sum of v1[i] * v2[i] for i < |v1|, accumulated from index 0 upwards. */
  function Dot(fp: Fp, v1: seq<real>, v2: seq<real>): real
    requires |v1| <= |v2|
    decreases |v1|
  {
    if |v1| == 0 then 0.0
    else fp.add(Dot(fp, v1[..|v1| - 1], v2), fp.mul(v1[|v1| - 1], v2[|v1| - 1]))
  }

  /** Elements of v2 past |v1| never influence the dot product. */
  lemma {:induction false} DotIgnoresTail(fp: Fp, v1: seq<real>, v2: seq<real>, w2: seq<real>)
    requires |v1| <= |v2| && |v1| <= |w2|
    requires v2[..|v1|] == w2[..|v1|]
    ensures Dot(fp, v1, v2) == Dot(fp, v1, w2)
  {
    if |v1| > 0 {
      var n := |v1| - 1;
      assert v2[..n] == v2[..|v1|][..n] && w2[..n] == w2[..|v1|][..n];
      assert v2[n] == v2[..|v1|][n] && w2[n] == w2[..|v1|][n];
      DotIgnoresTail(fp, v1[..n], v2, w2);
    }
  }

  /** `dotProduct` of include/utils.hpp: a loop that accumulates the sum of
      products over the indices of v1, reading v2 at the same indices. */
  method DotProduct(fp: Fp, v1: seq<real>, v2: seq<real>) returns (result: real)
    requires |v1| <= |v2|
    ensures result == Dot(fp, v1, v2)
  {
    result := 0.0;
    var i := 0;
    while i < |v1|
      invariant 0 <= i <= |v1|
      invariant result == Dot(fp, v1[..i], v2)
    {
      assert v1[..i + 1][..i] == v1[..i];
      result := fp.add(result, fp.mul(v1[i], v2[i]));
      i := i + 1;
    }
    assert v1[..|v1|] == v1;
  }

  /** The per-file `dotProduct` (sequential.cpp, wf-parallel.cpp and the
      member of the wf-farm Worker): the same loop, then the cube root. */
  method CbrtOfDot(fp: Fp, v1: seq<real>, v2: seq<real>) returns (result: real)
    requires |v1| <= |v2|
    ensures result == fp.cbrt(Dot(fp, v1, v2))
  {
    var sum := DotProduct(fp, v1, v2);
    result := fp.cbrt(sum);
  }
}
