/** Bond statistics for layered structures (`layer_toolkit/analysis/bonds.py`).

    The neighbour search (`structure.get_neighbors` within the cut-off
    distance, 3.0 Angstrom unless the caller chooses another), the conversion of a
    neighbour's Cartesian position to fractional coordinates, the
    primitive-cell reduction and `make_supercell` belong to pymatgen; the
    model receives their results as data. Python dictionaries are
    insertion ordered, so a bucket of bond lengths is a sequence of
    entries with distinct keys. */
module Bonds {
  import opened Sorting
  import opened Geometry

  /** Default gap, in Angstrom, above which two sites lie in different layers. */
  const GapThreshold: real := 1.5
  /** Default tolerance, in Angstrom, for two bond lengths to share a bucket. */
  const BondTolerance: real := 0.008

  datatype BondType = InPlane | Interlayer

  /** A bucket key: the bond type and the representative length. */
  datatype BondKey = BondKey(bondType: BondType, length: real)

  datatype Entry = Entry(key: BondKey, count: nat)

  /** An insertion-ordered dictionary from keys to counts. */
  type Bucket = seq<Entry>

  datatype BondSummary = BondSummary(bondType: BondType, length: real, count: nat)

  /** The library arithmetic bond collection relies on: the Euclidean norm
      (`np.linalg.norm`) and Python's `round(x, 3)`. */
  datatype Numerics = Numerics(norm: Vec3 -> real, round3: real -> real)

  // ---------------------------------------------------------------------
  // Vacuum direction and layer counting
  // ---------------------------------------------------------------------

  /** The lattice axis whose vector is longest; the first on a tie. */
  function VacuumAxis(l: Lattice, norm: Vec3 -> real): (axis: Axis)
    ensures forall a: Axis :: norm(Row(l, a)) <= norm(Row(l, axis))
    ensures forall a: Axis :: a < axis ==> norm(Row(l, a)) < norm(Row(l, axis))
  {
    var norms := [norm(l.a), norm(l.b), norm(l.c)];
    var k := ArgMax(norms);
    assert forall a: Axis :: norms[a] == norm(Row(l, a));
    k
  }

  function SortReals(s: seq<real>): (r: seq<real>)
    ensures SortedBy(r, AtMost)
    ensures multiset(r) == multiset(s)
  {
    AtMostIsTotalPreorder();
    SortByCorrect(s, AtMost);
    SortBy(s, AtMost)
  }

  /** The number of adjacent pairs of `s` further apart than `threshold`. */
  function GapCount(s: seq<real>, threshold: real): (r: nat)
    ensures r == 0 <==> forall i :: 0 <= i < |s| - 1 ==> s[i + 1] - s[i] <= threshold
  {
    if |s| < 2 then 0
    else
      (if s[1] - s[0] > threshold then 1 else 0) + GapCount(s[1..], threshold)
  }

  function CoordsAlong(sites: seq<Vec3>, axis: Axis): (r: seq<real>)
    ensures |r| == |sites|
    ensures forall i :: 0 <= i < |sites| ==> r[i] == Coord(sites[i], axis)
  {
    seq(|sites|, i requires 0 <= i < |sites| => Coord(sites[i], axis))
  }

  /** `_count_layers`: one layer, plus one for every gap wider than the
      threshold between consecutive sorted Cartesian coordinates along the
      vacuum axis. */
  function CountLayers(sites: seq<Vec3>, axis: Axis, threshold: real): (n: nat)
    ensures n >= 1
    ensures |sites| <= 1 ==> n == 1
    ensures n <= |sites| || n == 1
  {
    var sorted := SortReals(CoordsAlong(sites, axis));
    GapCountBound(sorted, threshold);
    GapCount(sorted, threshold) + 1
  }

  lemma {:induction false} GapCountBound(s: seq<real>, threshold: real)
    ensures |s| >= 1 ==> GapCount(s, threshold) <= |s| - 1
    ensures |s| <= 1 ==> GapCount(s, threshold) == 0
  {
    if |s| >= 2 {
      GapCountBound(s[1..], threshold);
    }
  }

  /** The layer count depends only on the multiset of coordinates along the
      vacuum axis, not on the order of the sites. */
  lemma CountLayersOrderFree(s1: seq<Vec3>, s2: seq<Vec3>, axis: Axis, threshold: real)
    requires multiset(CoordsAlong(s1, axis)) == multiset(CoordsAlong(s2, axis))
    ensures CountLayers(s1, axis, threshold) == CountLayers(s2, axis, threshold)
  {
    AtMostIsTotalPreorder();
    SortedUnique(SortReals(CoordsAlong(s1, axis)), SortReals(CoordsAlong(s2, axis)), AtMost);
  }

  /** On sites already in ascending order along the axis, the count is one
      plus the number of wide gaps between neighbours in that order. */
  lemma CountLayersOfSorted(sites: seq<Vec3>, axis: Axis, threshold: real)
    requires forall i, j :: 0 <= i < j < |sites| ==> Coord(sites[i], axis) <= Coord(sites[j], axis)
    ensures CountLayers(sites, axis, threshold) == GapCount(CoordsAlong(sites, axis), threshold) + 1
  {
    AtMostIsTotalPreorder();
    var c := CoordsAlong(sites, axis);
    SortedUnique(SortReals(c), c, AtMost);
  }

  /** Three sites at z = 0.10, 0.20 and 0.70 of a 20 Angstrom cell (2, 4
      and 14 Angstrom) form three layers: both gaps exceed 1.5 Angstrom. */
  lemma ThreeLayerExample(sites: seq<Vec3>)
    requires sites == [Vec3(0.0, 0.0, 2.0), Vec3(0.0, 0.0, 4.0), Vec3(0.0, 0.0, 14.0)]
    ensures CountLayers(sites, 2, GapThreshold) == 3
  {
    CountLayersOfSorted(sites, 2, GapThreshold);
    var c := CoordsAlong(sites, 2);
    assert c == [2.0, 4.0, 14.0];
    GapCountOfThree(c, GapThreshold);
  }

  lemma GapCountOfThree(c: seq<real>, threshold: real)
    requires |c| == 3 && c[1] - c[0] > threshold && c[2] - c[1] > threshold
    ensures GapCount(c, threshold) == 2
  {
    assert GapCount(c[1..][1..], threshold) == 0;
  }

  // ---------------------------------------------------------------------
  // Supercell scaling matrix
  // ---------------------------------------------------------------------

  function Det3(m: seq<seq<int>>): int
    requires |m| == 3 && forall i :: 0 <= i < 3 ==> |m[i]| == 3
  {
    m[0][0] * (m[1][1] * m[2][2] - m[1][2] * m[2][1])
    - m[0][1] * (m[1][0] * m[2][2] - m[1][2] * m[2][0])
    + m[0][2] * (m[1][0] * m[2][1] - m[1][1] * m[2][0])
  }

  /** `_build_supercell`'s scaling matrix: three copies along each in-plane
      axis, and an all-ones row for the vacuum axis. */
  function ScalingMatrix(vacuum: Axis): (m: seq<seq<int>>)
    ensures |m| == 3 && forall i :: 0 <= i < 3 ==> |m[i]| == 3
    ensures m[vacuum] == [1, 1, 1]
    ensures forall i, j :: 0 <= i < 3 && 0 <= j < 3 && i != vacuum ==> m[i][j] == (if i == j then 3 else 0)
    ensures Det3(m) == 9
  {
    seq(3, i requires 0 <= i < 3 =>
      if i == vacuum then [1, 1, 1]
      else seq(3, j requires 0 <= j < 3 => if i == j then 3 else 0))
  }

  // ---------------------------------------------------------------------
  // Bond classification and identity
  // ---------------------------------------------------------------------

  /** A bond is interlayer when its largest absolute displacement component
      (the first one on a tie) lies along the vacuum axis. */
  function Classify(d: Vec3, vacuum: Axis): (t: BondType)
    ensures t == Interlayer <==>
      (forall a: Axis :: Abs(Coord(d, a)) <= Abs(Coord(d, vacuum)))
      && (forall a: Axis :: a < vacuum ==> Abs(Coord(d, a)) < Abs(Coord(d, vacuum)))
  {
    var mags := Components(AbsVec(d));
    assert forall a: Axis :: mags[a] == Abs(Coord(d, a));
    var k := ArgMax(mags);
    if k == vacuum then Interlayer
    else
      assert mags[vacuum] < mags[k] || (k < vacuum && mags[k] == mags[vacuum]);
      InPlane
  }

  /** A displacement with no in-plane component is interlayer. */
  lemma PureVacuumDisplacementIsInterlayer(d: Vec3, vacuum: Axis)
    requires forall a: Axis :: a != vacuum ==> Coord(d, a) == 0.0
    requires Coord(d, vacuum) != 0.0
    ensures Classify(d, vacuum) == Interlayer
  {
    assert forall a: Axis :: Abs(Coord(d, a)) <= Abs(Coord(d, vacuum));
  }

  /** Python's `<=` on coordinate tuples: lexicographic. */
  predicate VecLe(p: Vec3, q: Vec3) {
    p.x < q.x || (p.x == q.x && (p.y < q.y || (p.y == q.y && p.z <= q.z)))
  }

  /** A bond's identity: its two endpoints in ascending tuple order. */
  datatype BondId = BondId(first: Vec3, second: Vec3)

  function MakeBondId(p: Vec3, q: Vec3): (id: BondId)
    ensures VecLe(id.first, id.second)
    ensures (id.first == p && id.second == q) || (id.first == q && id.second == p)
  {
    if VecLe(p, q) then BondId(p, q) else BondId(q, p)
  }

  /** A bond has the same identity seen from either end. */
  lemma BondIdSymmetric(p: Vec3, q: Vec3)
    ensures MakeBondId(p, q) == MakeBondId(q, p)
  {
  }

  // ---------------------------------------------------------------------
  // Buckets: insertion-ordered dictionaries of counts
  // ---------------------------------------------------------------------

  predicate DistinctKeys(b: Bucket) {
    forall i, j :: 0 <= i < j < |b| ==> b[i].key != b[j].key
  }

  /** `bucket.get(key, 0)`. */
  function CountOf(b: Bucket, key: BondKey): nat {
    if |b| == 0 then 0
    else (if b[0].key == key then b[0].count else 0) + CountOf(b[1..], key)
  }

  /** The sum of all counts in a bucket. */
  function Total(b: Bucket): nat {
    if |b| == 0 then 0 else b[0].count + Total(b[1..])
  }

  function KeySet(b: Bucket): set<BondKey> {
    set i | 0 <= i < |b| :: b[i].key
  }

  lemma {:induction false} CountOfAbsent(b: Bucket, key: BondKey)
    requires forall i :: 0 <= i < |b| ==> b[i].key != key
    ensures CountOf(b, key) == 0
  {
    if |b| > 0 {
      CountOfAbsent(b[1..], key);
    }
  }

  /** `bucket[key] = bucket.get(key, 0) + 1`: the entry for `key` goes up by
      one, or a new key is appended with count one; every existing key
      keeps its position. */
  function Increment(b: Bucket, key: BondKey): (r: Bucket)
    ensures |r| == |b| || |r| == |b| + 1
    ensures forall i :: 0 <= i < |b| ==> r[i].key == b[i].key
    ensures |r| == |b| + 1 ==> r[|b|] == Entry(key, 1)
  {
    if |b| == 0 then [Entry(key, 1)]
    else if b[0].key == key then [Entry(key, b[0].count + 1)] + b[1..]
    else [b[0]] + Increment(b[1..], key)
  }

  /** Incrementing adds exactly one to the total and `key` to the keys. */
  lemma {:induction false} IncrementTotal(b: Bucket, key: BondKey)
    ensures Total(Increment(b, key)) == Total(b) + 1
    ensures KeySet(Increment(b, key)) == KeySet(b) + {key}
  {
    if |b| > 0 {
      var r := Increment(b, key);
      assert r[1..] == if b[0].key == key then b[1..] else Increment(b[1..], key);
      if b[0].key != key {
        IncrementTotal(b[1..], key);
      }
      KeySetCons(b);
      KeySetCons(r);
    }
  }

  /** Incrementing keeps the keys distinct, and a key already present is
      never appended a second time. */
  lemma {:induction false} IncrementDistinct(b: Bucket, key: BondKey)
    requires DistinctKeys(b)
    ensures DistinctKeys(Increment(b, key))
    ensures key in KeySet(b) ==> |Increment(b, key)| == |b|
  {
    if |b| > 0 {
      assert DistinctKeys(b[1..]) by {
        assert forall i :: 0 <= i < |b[1..]| ==> b[1..][i] == b[i + 1];
      }
      KeySetCons(b);
      if b[0].key != key {
        IncrementDistinct(b[1..], key);
        IncrementDistinctStep(b, key);
        assert |Increment(b, key)| == 1 + |Increment(b[1..], key)|;
      }
    }
  }

  lemma IncrementDistinctStep(b: Bucket, key: BondKey)
    requires |b| > 0 && b[0].key != key && DistinctKeys(b)
    requires DistinctKeys(Increment(b[1..], key))
    ensures DistinctKeys(Increment(b, key))
  {
    var t := Increment(b[1..], key);
    var r := Increment(b, key);
    assert r == [b[0]] + t;
    forall i, j | 0 <= i < j < |r| ensures r[i].key != r[j].key {
      if i == 0 {
        if j < |b| {
          assert r[j].key == t[j - 1].key == b[1..][j - 1].key == b[j].key;
        } else {
          assert r[j] == t[|b| - 1] == Entry(key, 1);
        }
      } else {
        assert r[i] == t[i - 1] && r[j] == t[j - 1];
      }
    }
  }

  /** The count of `key` goes up by one and every other count is unchanged. */
  lemma {:induction false} IncrementCounts(b: Bucket, key: BondKey, k: BondKey)
    requires DistinctKeys(b)
    ensures CountOf(Increment(b, key), k) == CountOf(b, k) + (if k == key then 1 else 0)
  {
    if |b| > 0 {
      assert DistinctKeys(b[1..]) by {
        assert forall i :: 0 <= i < |b[1..]| ==> b[1..][i] == b[i + 1];
      }
      var r := Increment(b, key);
      if b[0].key == key {
        assert r[1..] == b[1..];
        if k == key {
          CountOfAbsent(b[1..], key);
        }
      } else {
        assert r[1..] == Increment(b[1..], key);
        IncrementCounts(b[1..], key, k);
      }
    }
  }

  lemma KeySetCons(b: Bucket)
    requires |b| > 0
    ensures KeySet(b) == {b[0].key} + KeySet(b[1..])
  {
    forall k | k in KeySet(b) ensures k in {b[0].key} + KeySet(b[1..]) {
      var i :| 0 <= i < |b| && b[i].key == k;
      if i > 0 {
        assert b[1..][i - 1].key == k;
      }
    }
    forall k | k in KeySet(b[1..]) ensures k in KeySet(b) {
      var i :| 0 <= i < |b[1..]| && b[1..][i].key == k;
      assert b[i + 1].key == k;
    }
  }

  /** A key lies within the tolerance of a length of the same type. */
  predicate Near(key: BondKey, t: BondType, len: real, tolerance: real) {
    key.bondType == t && Abs(key.length - len) <= tolerance
  }

  /** `_resolve_bond_key`: the first key, in insertion order, of the same
      type within the tolerance; failing that, a new key holding the
      rounded length. */
  function ResolveKey(b: Bucket, t: BondType, len: real, tolerance: real, round3: real -> real): (key: BondKey)
    ensures key.bondType == t
    ensures (forall i :: 0 <= i < |b| ==> !Near(b[i].key, t, len, tolerance))
              ==> key == BondKey(t, round3(len))
  {
    if |b| == 0 then BondKey(t, round3(len))
    else if Near(b[0].key, t, len, tolerance) then b[0].key
    else
      var key := ResolveKey(b[1..], t, len, tolerance, round3);
      assert forall i :: 0 <= i < |b[1..]| ==> b[1..][i] == b[i + 1];
      key
  }

  /** The key resolved is the first one, in insertion order, within the
      tolerance. */
  lemma {:induction false} ResolveKeyFirstNear(b: Bucket, t: BondType, len: real, tolerance: real, round3: real -> real, i: nat)
    requires i < |b| && Near(b[i].key, t, len, tolerance)
    requires forall j :: 0 <= j < i ==> !Near(b[j].key, t, len, tolerance)
    ensures ResolveKey(b, t, len, tolerance, round3) == b[i].key
  {
    if i > 0 {
      assert !Near(b[0].key, t, len, tolerance);
      assert b[1..][i - 1] == b[i];
      assert forall j :: 0 <= j < i - 1 ==> b[1..][j] == b[j + 1];
      ResolveKeyFirstNear(b[1..], t, len, tolerance, round3, i - 1);
    }
  }

  /** A length of 2.006 joins an interlayer bucket whose representative is
      2.000, and the representative stays 2.000. */
  lemma ResolveMergesCloseLength(round3: real -> real)
    ensures ResolveKey([Entry(BondKey(Interlayer, 2.0), 1)], Interlayer, 2.006, BondTolerance, round3)
            == BondKey(Interlayer, 2.0)
  {
    var b := [Entry(BondKey(Interlayer, 2.0), 1)];
    assert Near(b[0].key, Interlayer, 2.006, BondTolerance);
  }

  /** The key a bond joins is either an existing key, whose representative
      length is never altered, or a fresh rounded one. */
  lemma ResolveKeyIsExistingOrFresh(b: Bucket, t: BondType, len: real, tolerance: real, round3: real -> real)
    ensures var key := ResolveKey(b, t, len, tolerance, round3);
      key in KeySet(b) || key == BondKey(t, round3(len))
  {
    var key := ResolveKey(b, t, len, tolerance, round3);
    if exists i :: 0 <= i < |b| && Near(b[i].key, t, len, tolerance) {
      var i := FirstNear(b, t, len, tolerance);
      ResolveKeyFirstNear(b, t, len, tolerance, round3, i);
    }
  }

  function FirstNear(b: Bucket, t: BondType, len: real, tolerance: real): (i: nat)
    requires exists i :: 0 <= i < |b| && Near(b[i].key, t, len, tolerance)
    ensures i < |b| && Near(b[i].key, t, len, tolerance)
    ensures forall j :: 0 <= j < i ==> !Near(b[j].key, t, len, tolerance)
  {
    if Near(b[0].key, t, len, tolerance) then 0
    else
      assert exists i :: 0 <= i < |b[1..]| && Near(b[1..][i].key, t, len, tolerance) by {
        var i :| 0 <= i < |b| && Near(b[i].key, t, len, tolerance);
        assert b[1..][i - 1] == b[i];
      }
      FirstNear(b[1..], t, len, tolerance) + 1
  }

  // ---------------------------------------------------------------------
  // Collecting bonds
  // ---------------------------------------------------------------------

  /** A neighbour as the library reports it: its Cartesian position and
      that position in fractional coordinates of the lattice. */
  datatype Neighbor = Neighbor(coords: Vec3, frac: Vec3)

  /** A site with its neighbours within the cut-off distance. */
  datatype SiteNeighbors = SiteNeighbors(coords: Vec3, neighbors: seq<Neighbor>)

  /** One (site, neighbour) pair in the order the nested loops visit them. */
  datatype Candidate = Candidate(site: Vec3, neighbor: Neighbor)

  function Candidates(structure: seq<SiteNeighbors>): seq<Candidate> {
    if |structure| == 0 then []
    else
      var s := structure[0];
      seq(|s.neighbors|, k requires 0 <= k < |s.neighbors| => Candidate(s.coords, s.neighbors[k]))
      + Candidates(structure[1..])
  }

  /** Fractional coordinates inside the canonical cell [0, 1) on every axis. */
  predicate InUnitCell(f: Vec3) {
    0.0 <= f.x < 1.0 && 0.0 <= f.y < 1.0 && 0.0 <= f.z < 1.0
  }

  datatype Collected = Collected(inPlane: Bucket, interlayer: Bucket, processed: set<BondId>)

  const NoBonds := Collected([], [], {})

  /** The bucket invariants `_collect_bonds` keeps: distinct keys, keys of
      the bucket's own type only, and one count per processed bond. */
  ghost predicate Consistent(c: Collected) {
    && DistinctKeys(c.inPlane)
    && DistinctKeys(c.interlayer)
    && (forall i :: 0 <= i < |c.inPlane| ==> c.inPlane[i].key.bondType == InPlane)
    && (forall i :: 0 <= i < |c.interlayer| ==> c.interlayer[i].key.bondType == Interlayer)
    && Total(c.inPlane) + Total(c.interlayer) == |c.processed|
  }

  /** Add a bond of the given type and length to its bucket. */
  function AddBond(b: Bucket, t: BondType, len: real, round3: real -> real): (r: Bucket)
    requires DistinctKeys(b)
    requires forall i :: 0 <= i < |b| ==> b[i].key.bondType == t
    ensures DistinctKeys(r)
    ensures forall i :: 0 <= i < |r| ==> r[i].key.bondType == t
    ensures Total(r) == Total(b) + 1
  {
    var key := ResolveKey(b, t, len, BondTolerance, round3);
    var r := Increment(b, key);
    IncrementDistinct(b, key);
    IncrementTotal(b, key);
    assert forall i :: 0 <= i < |r| ==> r[i].key in KeySet(b) + {key};
    r
  }

  /** One iteration of the inner loop of `_collect_bonds`. */
  function Step(c: Collected, cand: Candidate, vacuum: Axis, num: Numerics): (r: Collected)
    requires Consistent(c)
    ensures Consistent(r)
  {
    if !InUnitCell(cand.neighbor.frac) then c
    else
      var id := MakeBondId(cand.site, cand.neighbor.coords);
      if id in c.processed then c
      else
        var d := Sub(cand.site, cand.neighbor.coords);
        var len := num.norm(d);
        if Classify(d, vacuum) == Interlayer then
          Collected(c.inPlane, AddBond(c.interlayer, Interlayer, len, num.round3), c.processed + {id})
        else
          Collected(AddBond(c.inPlane, InPlane, len, num.round3), c.interlayer, c.processed + {id})
  }

  /** A neighbour whose image lies outside the canonical cell changes nothing. */
  lemma StepSkipsOutsideCell(c: Collected, cand: Candidate, vacuum: Axis, num: Numerics)
    requires Consistent(c)
    requires !InUnitCell(cand.neighbor.frac)
    ensures Step(c, cand, vacuum, num) == c
  {
  }

  /** A bond already seen from its other end is not counted again. */
  lemma StepCountsBondOnce(c: Collected, cand: Candidate, back: Candidate, vacuum: Axis, num: Numerics)
    requires Consistent(c)
    requires InUnitCell(cand.neighbor.frac)
    requires back.site == cand.neighbor.coords && back.neighbor.coords == cand.site
    ensures var c' := Step(c, cand, vacuum, num); Step(c', back, vacuum, num) == c'
  {
    var c' := Step(c, cand, vacuum, num);
    var id := MakeBondId(cand.site, cand.neighbor.coords);
    assert id in c'.processed;
    BondIdSymmetric(cand.site, cand.neighbor.coords);
    assert MakeBondId(back.site, back.neighbor.coords) == id;
  }

  /** A new bond goes to the bucket its classification names, and only
      there, adding exactly one to that bucket's total. */
  lemma StepFillsOneBucket(c: Collected, cand: Candidate, vacuum: Axis, num: Numerics)
    requires Consistent(c)
    requires InUnitCell(cand.neighbor.frac)
    requires MakeBondId(cand.site, cand.neighbor.coords) !in c.processed
    ensures var r := Step(c, cand, vacuum, num);
      var t := Classify(Sub(cand.site, cand.neighbor.coords), vacuum);
      && r.processed == c.processed + {MakeBondId(cand.site, cand.neighbor.coords)}
      && (t == Interlayer ==> r.inPlane == c.inPlane && Total(r.interlayer) == Total(c.interlayer) + 1)
      && (t == InPlane ==> r.interlayer == c.interlayer && Total(r.inPlane) == Total(c.inPlane) + 1)
  {
  }

  /** The loops of `_collect_bonds` over a list of candidates. */
  function CollectFrom(cands: seq<Candidate>, vacuum: Axis, num: Numerics): (r: Collected)
    ensures Consistent(r)
  {
    if |cands| == 0 then NoBonds
    else Step(CollectFrom(cands[..|cands| - 1], vacuum, num), cands[|cands| - 1], vacuum, num)
  }

  /** The identities of every candidate bond whose neighbour lies in the cell. */
  function AcceptedIds(cands: seq<Candidate>): set<BondId> {
    set i | 0 <= i < |cands| && InUnitCell(cands[i].neighbor.frac)
      :: MakeBondId(cands[i].site, cands[i].neighbor.coords)
  }

  /** Every accepted bond identity is processed, and nothing else. */
  lemma {:induction false} CollectProcessesAcceptedIds(cands: seq<Candidate>, vacuum: Axis, num: Numerics)
    ensures CollectFrom(cands, vacuum, num).processed == AcceptedIds(cands)
  {
    if |cands| > 0 {
      var init := cands[..|cands| - 1];
      var last := cands[|cands| - 1];
      assert init + [last] == cands;
      CollectProcessesAcceptedIds(init, vacuum, num);
      AcceptedIdsSnoc(init, last);
      StepProcessed(CollectFrom(init, vacuum, num), last, vacuum, num);
    }
  }

  /** Each distinct accepted bond is counted exactly once, so the two
      buckets together count exactly the distinct accepted bonds. */
  lemma CollectCountsDistinctBonds(cands: seq<Candidate>, vacuum: Axis, num: Numerics)
    ensures var r := CollectFrom(cands, vacuum, num);
      Total(r.inPlane) + Total(r.interlayer) == |AcceptedIds(cands)|
  {
    CollectProcessesAcceptedIds(cands, vacuum, num);
  }

  lemma StepProcessed(c: Collected, cand: Candidate, vacuum: Axis, num: Numerics)
    requires Consistent(c)
    ensures Step(c, cand, vacuum, num).processed == c.processed
      + (if InUnitCell(cand.neighbor.frac) then {MakeBondId(cand.site, cand.neighbor.coords)} else {})
  {
  }

  lemma AcceptedIdsSnoc(init: seq<Candidate>, last: Candidate)
    ensures AcceptedIds(init + [last]) ==
      AcceptedIds(init) + (if InUnitCell(last.neighbor.frac) then {MakeBondId(last.site, last.neighbor.coords)} else {})
  {
    var cands := init + [last];
    forall id | id in AcceptedIds(cands)
      ensures id in AcceptedIds(init) || (InUnitCell(last.neighbor.frac) && id == MakeBondId(last.site, last.neighbor.coords))
    {
      var i :| 0 <= i < |cands| && InUnitCell(cands[i].neighbor.frac) && id == MakeBondId(cands[i].site, cands[i].neighbor.coords);
      if i < |init| {
        assert cands[i] == init[i];
      }
    }
    forall id | id in AcceptedIds(init) ensures id in AcceptedIds(cands) {
      var i :| 0 <= i < |init| && InUnitCell(init[i].neighbor.frac) && id == MakeBondId(init[i].site, init[i].neighbor.coords);
      assert cands[i] == init[i];
    }
    if InUnitCell(last.neighbor.frac) {
      assert cands[|init|] == last;
    }
  }

  /** `_collect_bonds`: the in-plane and interlayer buckets of a structure. */
  function CollectBonds(structure: seq<SiteNeighbors>, vacuum: Axis, num: Numerics): (r: (Bucket, Bucket))
    ensures DistinctKeys(r.0) && DistinctKeys(r.1)
    ensures forall i :: 0 <= i < |r.0| ==> r.0[i].key.bondType == InPlane
    ensures forall i :: 0 <= i < |r.1| ==> r.1[i].key.bondType == Interlayer
    ensures Total(r.0) + Total(r.1) == |AcceptedIds(Candidates(structure))|
  {
    var c := CollectFrom(Candidates(structure), vacuum, num);
    CollectCountsDistinctBonds(Candidates(structure), vacuum, num);
    (c.inPlane, c.interlayer)
  }

  // ---------------------------------------------------------------------
  // Summaries
  // ---------------------------------------------------------------------

  predicate LengthLe(a: BondSummary, b: BondSummary) {
    a.length <= b.length
  }

  lemma LengthLeIsTotalPreorder()
    ensures TotalPreorder(LengthLe)
  {
  }

  function EntrySummaries(b: Bucket): (r: seq<BondSummary>)
    ensures |r| == |b|
    ensures forall i :: 0 <= i < |b| ==> r[i] == BondSummary(b[i].key.bondType, b[i].key.length, b[i].count)
  {
    seq(|b|, i requires 0 <= i < |b| => BondSummary(b[i].key.bondType, b[i].key.length, b[i].count))
  }

  /** `_dict_to_summaries`: the entries, in insertion order, stably sorted
      by length. */
  function ToSummaries(b: Bucket): (r: seq<BondSummary>)
    ensures SortedBy(r, LengthLe)
    ensures multiset(r) == multiset(EntrySummaries(b))
    ensures |r| == |b|
  {
    LengthLeIsTotalPreorder();
    SortByCorrect(EntrySummaries(b), LengthLe);
    SortBy(EntrySummaries(b), LengthLe)
  }

  /** Summaries of equal length keep the insertion order of their keys. */
  lemma ToSummariesStable(b: Bucket, x: BondSummary)
    ensures Ties(ToSummaries(b), x, LengthLe) == Ties(EntrySummaries(b), x, LengthLe)
  {
    LengthLeIsTotalPreorder();
    SortByStable(EntrySummaries(b), x, LengthLe);
  }

  /** Every summary of a bucket holding one bond type has that type. */
  lemma ToSummariesKeepType(b: Bucket, t: BondType)
    requires forall i :: 0 <= i < |b| ==> b[i].key.bondType == t
    ensures forall i :: 0 <= i < |ToSummaries(b)| ==> ToSummaries(b)[i].bondType == t
  {
    var r := ToSummaries(b);
    var e := EntrySummaries(b);
    forall i | 0 <= i < |r| ensures r[i].bondType == t {
      assert r[i] in multiset(e);
      var j :| 0 <= j < |e| && e[j] == r[i];
    }
  }

  /** The sum of the counts of a list of summaries. */
  function CountSum(s: seq<BondSummary>): nat {
    if |s| == 0 then 0 else s[0].count + CountSum(s[1..])
  }

  lemma {:induction false} EntrySummariesTotal(b: Bucket)
    ensures CountSum(EntrySummaries(b)) == Total(b)
  {
    if |b| > 0 {
      EntrySummariesTotal(b[1..]);
      assert EntrySummaries(b)[1..] == EntrySummaries(b[1..]);
    }
  }

  lemma {:induction false} CountSumAppend(a: seq<BondSummary>, b: seq<BondSummary>)
    ensures CountSum(a + b) == CountSum(a) + CountSum(b)
  {
    if |a| > 0 {
      CountSumAppend(a[1..], b);
      assert (a + b)[1..] == a[1..] + b;
    } else {
      assert a + b == b;
    }
  }

  /** Reordering summaries keeps the sum of their counts. */
  lemma {:induction false} CountSumPermutation(a: seq<BondSummary>, b: seq<BondSummary>)
    requires multiset(a) == multiset(b)
    ensures CountSum(a) == CountSum(b)
    decreases |a|
  {
    if |a| > 0 {
      assert a[0] in multiset(b);
      var i :| 0 <= i < |b| && b[i] == a[0];
      var rest := RemoveAt(b, i);
      assert a == [a[0]] + a[1..];
      assert multiset(a[1..]) == multiset(a) - multiset{a[0]};
      CountSumPermutation(a[1..], rest);
    } else {
      assert |b| == |multiset(b)| == 0;
    }
  }

  /** `b` without its element at `i`. */
  function RemoveAt(b: seq<BondSummary>, i: nat): (r: seq<BondSummary>)
    requires i < |b|
    ensures CountSum(b) == b[i].count + CountSum(r)
    ensures multiset(r) == multiset(b) - multiset{b[i]}
  {
    var r := b[..i] + b[i + 1..];
    assert b == b[..i] + ([b[i]] + b[i + 1..]);
    CountSumAppend(b[..i], [b[i]] + b[i + 1..]);
    CountSumAppend(b[..i], b[i + 1..]);
    assert ([b[i]] + b[i + 1..])[1..] == b[i + 1..];
    r
  }

  /** The summaries of a bucket count exactly the bonds the bucket holds. */
  lemma ToSummariesTotal(b: Bucket)
    ensures CountSum(ToSummaries(b)) == Total(b)
  {
    EntrySummariesTotal(b);
    CountSumPermutation(ToSummaries(b), EntrySummaries(b));
  }

  // ---------------------------------------------------------------------
  // The whole analysis
  // ---------------------------------------------------------------------

  datatype BondAnalysis = BondAnalysis(
    numLayers: nat,
    unitInPlane: seq<BondSummary>,
    unitInterlayer: seq<BondSummary>,
    primitiveInPlane: seq<BondSummary>,
    primitiveInterlayer: seq<BondSummary>,
    supercellInPlane: seq<BondSummary>,
    supercellInterlayer: seq<BondSummary>)

  /** A structure as the analysis sees it: the lattice and each site with
      its neighbours. */
  datatype StructureView = StructureView(lattice: Lattice, sites: seq<SiteNeighbors>)

  function SiteCoords(sites: seq<SiteNeighbors>): (r: seq<Vec3>)
    ensures |r| == |sites|
  {
    seq(|sites|, i requires 0 <= i < |sites| => sites[i].coords)
  }

  /** `analyze_structure`. `primitive` is the neighbour data of the
      primitive standard structure; `supercellOf` gives the neighbour data
      of the supercell built with a scaling matrix. */
  function AnalyzeStructure(unit: StructureView, primitive: seq<SiteNeighbors>,
                            supercellOf: seq<seq<int>> -> seq<SiteNeighbors>, num: Numerics): (r: BondAnalysis)
    ensures r.numLayers >= 1
    ensures SortedBy(r.unitInPlane, LengthLe) && SortedBy(r.unitInterlayer, LengthLe)
    ensures SortedBy(r.primitiveInPlane, LengthLe) && SortedBy(r.primitiveInterlayer, LengthLe)
    ensures SortedBy(r.supercellInPlane, LengthLe) && SortedBy(r.supercellInterlayer, LengthLe)
    ensures forall i :: 0 <= i < |r.unitInPlane| ==> r.unitInPlane[i].bondType == InPlane
    ensures forall i :: 0 <= i < |r.unitInterlayer| ==> r.unitInterlayer[i].bondType == Interlayer
    ensures forall i :: 0 <= i < |r.primitiveInPlane| ==> r.primitiveInPlane[i].bondType == InPlane
    ensures forall i :: 0 <= i < |r.primitiveInterlayer| ==> r.primitiveInterlayer[i].bondType == Interlayer
    ensures forall i :: 0 <= i < |r.supercellInPlane| ==> r.supercellInPlane[i].bondType == InPlane
    ensures forall i :: 0 <= i < |r.supercellInterlayer| ==> r.supercellInterlayer[i].bondType == Interlayer
  {
    var vacuum := VacuumAxis(unit.lattice, num.norm);
    var layers := CountLayers(SiteCoords(unit.sites), vacuum, GapThreshold);
    var (unitPlane, unitInter) := CollectBonds(unit.sites, vacuum, num);
    var (primPlane, primInter) := CollectBonds(primitive, vacuum, num);
    var (superPlane, superInter) := CollectBonds(supercellOf(ScalingMatrix(vacuum)), vacuum, num);
    ToSummariesKeepType(unitPlane, InPlane);
    ToSummariesKeepType(unitInter, Interlayer);
    ToSummariesKeepType(primPlane, InPlane);
    ToSummariesKeepType(primInter, Interlayer);
    ToSummariesKeepType(superPlane, InPlane);
    ToSummariesKeepType(superInter, Interlayer);
    BondAnalysis(layers,
      ToSummaries(unitPlane), ToSummaries(unitInter),
      ToSummaries(primPlane), ToSummaries(primInter),
      ToSummaries(superPlane), ToSummaries(superInter))
  }

  /** The bond lists of a structure count every distinct bond whose
      neighbour lies in the cell exactly once: the in-plane and interlayer
      counts add up to that number, for the cell itself, its primitive
      standard cell and its supercell alike. */
  lemma AnalyzeStructureCountsBonds(unit: StructureView, primitive: seq<SiteNeighbors>,
                                    supercellOf: seq<seq<int>> -> seq<SiteNeighbors>, num: Numerics)
    ensures var r := AnalyzeStructure(unit, primitive, supercellOf, num);
      var vacuum := VacuumAxis(unit.lattice, num.norm);
      && CountSum(r.unitInPlane) + CountSum(r.unitInterlayer) == |AcceptedIds(Candidates(unit.sites))|
      && CountSum(r.primitiveInPlane) + CountSum(r.primitiveInterlayer) == |AcceptedIds(Candidates(primitive))|
      && CountSum(r.supercellInPlane) + CountSum(r.supercellInterlayer)
           == |AcceptedIds(Candidates(supercellOf(ScalingMatrix(vacuum))))|
  {
    var vacuum := VacuumAxis(unit.lattice, num.norm);
    var (unitPlane, unitInter) := CollectBonds(unit.sites, vacuum, num);
    var (primPlane, primInter) := CollectBonds(primitive, vacuum, num);
    var (superPlane, superInter) := CollectBonds(supercellOf(ScalingMatrix(vacuum)), vacuum, num);
    ToSummariesTotal(unitPlane);
    ToSummariesTotal(unitInter);
    ToSummariesTotal(primPlane);
    ToSummariesTotal(primInter);
    ToSummariesTotal(superPlane);
    ToSummariesTotal(superInter);
  }

  /** The layer count is one plus the number of gaps wider than 1.5
      Angstrom between neighbours of any ascending arrangement of the
      sites' coordinates along the longest lattice vector. */
  lemma AnalyzeStructureCountsLayers(unit: StructureView, primitive: seq<SiteNeighbors>,
                                     supercellOf: seq<seq<int>> -> seq<SiteNeighbors>, num: Numerics,
                                     arranged: seq<Vec3>)
    requires var vacuum := VacuumAxis(unit.lattice, num.norm);
      && multiset(CoordsAlong(arranged, vacuum)) == multiset(CoordsAlong(SiteCoords(unit.sites), vacuum))
      && forall i, j :: 0 <= i < j < |arranged| ==> Coord(arranged[i], vacuum) <= Coord(arranged[j], vacuum)
    ensures var vacuum := VacuumAxis(unit.lattice, num.norm);
      AnalyzeStructure(unit, primitive, supercellOf, num).numLayers
        == GapCount(CoordsAlong(arranged, vacuum), GapThreshold) + 1
  {
    var vacuum := VacuumAxis(unit.lattice, num.norm);
    CountLayersOrderFree(arranged, SiteCoords(unit.sites), vacuum, GapThreshold);
    CountLayersOfSorted(arranged, vacuum, GapThreshold);
  }
}
