/** Three-component vectors and the few numpy operations the analyses use
    on them: component access by axis, subtraction, absolute value,
    `argmax` (first index of the maximum) and fractional-to-Cartesian
    conversion (`frac @ lattice`). Euclidean norms need a square root and
    are supplied by callers as a function `norm`. */
module Geometry {
  import opened Sorting

  datatype Vec3 = Vec3(x: real, y: real, z: real)

  /** A lattice axis index: 0, 1 or 2. */
  type Axis = a: int | 0 <= a < 3

  /** A lattice as its three row vectors (numpy's 3x3 `lattice.matrix`). */
  datatype Lattice = Lattice(a: Vec3, b: Vec3, c: Vec3)

  function Coord(v: Vec3, axis: Axis): real {
    if axis == 0 then v.x else if axis == 1 then v.y else v.z
  }

  function Row(l: Lattice, axis: Axis): Vec3 {
    if axis == 0 then l.a else if axis == 1 then l.b else l.c
  }

  function Add(u: Vec3, v: Vec3): Vec3 {
    Vec3(u.x + v.x, u.y + v.y, u.z + v.z)
  }

  function Sub(u: Vec3, v: Vec3): Vec3 {
    Vec3(u.x - v.x, u.y - v.y, u.z - v.z)
  }

  function Scale(k: real, v: Vec3): Vec3 {
    Vec3(k * v.x, k * v.y, k * v.z)
  }

  function Abs(r: real): real {
    if r < 0.0 then -r else r
  }

  function AbsVec(v: Vec3): Vec3 {
    Vec3(Abs(v.x), Abs(v.y), Abs(v.z))
  }

  function Components(v: Vec3): seq<real> {
    [v.x, v.y, v.z]
  }

  predicate AtLeast(a: real, b: real) {
    a >= b
  }

  lemma AtLeastIsTotalPreorder()
    ensures TotalPreorder(AtLeast)
  {
  }

  predicate AtMost(a: real, b: real) {
    a <= b
  }

  lemma AtMostIsTotalPreorder()
    ensures TotalPreorder(AtMost)
  {
  }

  /** numpy `argmin`: the first index holding the smallest value. */
  function ArgMin(s: seq<real>): (k: nat)
    requires |s| > 0
    ensures k < |s|
    ensures forall j :: 0 <= j < |s| ==> s[k] <= s[j]
    ensures forall j :: 0 <= j < k ==> s[k] < s[j]
  {
    AtMostIsTotalPreorder();
    FirstMin(s, AtMost)
  }

  /** numpy `argmax`: the first index holding the largest value. */
  function ArgMax(s: seq<real>): (k: nat)
    requires |s| > 0
    ensures k < |s|
    ensures forall j :: 0 <= j < |s| ==> s[j] <= s[k]
    ensures forall j :: 0 <= j < k ==> s[j] < s[k]
  {
    AtLeastIsTotalPreorder();
    FirstMin(s, AtLeast)
  }

  /** The two properties in `ArgMax`'s contract single out one index. */
  lemma ArgMaxUnique(s: seq<real>, k: nat)
    requires k < |s|
    requires forall j :: 0 <= j < |s| ==> s[j] <= s[k]
    requires forall j :: 0 <= j < k ==> s[j] < s[k]
    ensures ArgMax(s) == k
  {
  }

  /** `np.dot(frac, lattice)`: the point `f.x*a + f.y*b + f.z*c`. */
  function FracToCart(f: Vec3, l: Lattice): (r: Vec3)
    ensures forall axis: Axis ::
      (Coord(r, axis) == f.x * Coord(l.a, axis) + f.y * Coord(l.b, axis) + f.z * Coord(l.c, axis))
  {
    Add(Add(Scale(f.x, l.a), Scale(f.y, l.b)), Scale(f.z, l.c))
  }

  /** The length of `range(n)`: `n`, or zero when `n` is negative. */
  function Max0(n: int): nat {
    if n < 0 then 0 else n
  }

  function Sum(s: seq<real>): real {
    if |s| == 0 then 0.0 else s[0] + Sum(s[1..])
  }

  /** `np.mean`. */
  function Mean(s: seq<real>): (m: real)
    requires |s| > 0
    ensures m * |s| as real == Sum(s)
  {
    Sum(s) / |s| as real
  }

  /** A sum lies between the length times the smallest and the length times
      the largest element. */
  lemma {:induction false} SumBounds(s: seq<real>, lo: real, hi: real)
    requires forall i :: 0 <= i < |s| ==> lo <= s[i] <= hi
    ensures |s| as real * lo <= Sum(s) <= |s| as real * hi
  {
    if |s| > 0 {
      assert forall i :: 0 <= i < |s[1..]| ==> s[1..][i] == s[i + 1];
      SumBounds(s[1..], lo, hi);
    }
  }
}
