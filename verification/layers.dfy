/** The decision logic of layer generation (`layer_toolkit/generation/layers.py`):
    which layer counts are prepared and in which order, where a POTCAR is
    found, how the Materials Project query is phrased, which returned
    document is chosen, and the closed-form geometry of the layered slab.

    The file system enters as a predicate `pathExists` (`Path.exists`, which
    also holds for a directory) and a partial function `read` that gives
    `None` where `read_text` raises (a directory, or bytes that are not
    UTF-8);
    the Materials Project search as a function from query arguments to
    documents; pymatgen's pairwise distances as a list carried by each
    document's structure. */
module Layers {
  import opened Results
  import opened Strings
  import opened Sorting
  import opened Geometry

  // ---------------------------------------------------------------------
  // Structure types
  // ---------------------------------------------------------------------

  datatype StructureType = BCC | HCP

  /** The spacegroup table: BCC is 229, HCP is 194. */
  function SpacegroupNumber(t: StructureType): int {
    match t
    case BCC => 229
    case HCP => 194
  }

  function TypeName(t: StructureType): string {
    match t
    case BCC => "BCC"
    case HCP => "HCP"
  }

  /** `structure_type.upper()` looked up in the spacegroup table. */
  function ParseStructureType(s: string): (r: Option<StructureType>)
    ensures r.Some? <==> Upper(s) == "BCC" || Upper(s) == "HCP"
    ensures r.Some? ==> TypeName(r.value) == Upper(s)
  {
    if Upper(s) == "BCC" then Some(BCC)
    else if Upper(s) == "HCP" then Some(HCP)
    else None
  }

  /** Every structure type is recognised under its own name, in any case. */
  lemma ParseTypeName(t: StructureType)
    ensures ParseStructureType(TypeName(t)) == Some(t)
  {
    var n := TypeName(t);
    assert Upper(n) == n;
  }

  // ---------------------------------------------------------------------
  // Layer counts (`LayerGenerator.run`)
  // ---------------------------------------------------------------------

  predicate IntLe(a: int, b: int) {
    a <= b
  }

  lemma IntLeIsTotalPreorder()
    ensures TotalPreorder(IntLe)
  {
  }

  predicate Ascending(s: seq<int>) {
    forall i, j :: 0 <= i < j < |s| ==> s[i] <= s[j]
  }

  predicate StrictlyAscending(s: seq<int>) {
    forall i, j :: 0 <= i < j < |s| ==> s[i] < s[j]
  }

  /** `sorted(layer_counts)`. */
  function SortInts(s: seq<int>): (r: seq<int>)
    ensures Ascending(r)
    ensures multiset(r) == multiset(s)
  {
    IntLeIsTotalPreorder();
    SortByCorrect(s, IntLe);
    var r := SortBy(s, IntLe);
    assert forall i, j :: 0 <= i < j < |r| ==> IntLe(r[i], r[j]);
    r
  }

  /** The walk over the sorted counts: the counts handed to `_prepare_layer`
      in order, and whether the walk stopped on a count below 1. */
  datatype Walked = Walked(prepared: seq<int>, failed: bool)

  function Walk(s: seq<int>, seen: set<int>): (w: Walked)
    ensures forall i :: 0 <= i < |w.prepared| ==> w.prepared[i] in s && w.prepared[i] !in seen
  {
    if |s| == 0 then Walked([], false)
    else if s[0] < 1 then Walked([], true)
    else if s[0] in seen then Walk(s[1..], seen)
    else
      var w := Walk(s[1..], seen + {s[0]});
      Walked([s[0]] + w.prepared, w.failed)
  }

  /** The walk fails exactly when some count is below 1. */
  lemma {:induction false} WalkFailsIff(s: seq<int>, seen: set<int>)
    ensures Walk(s, seen).failed <==> exists i :: 0 <= i < |s| && s[i] < 1
  {
    if |s| > 0 && s[0] >= 1 {
      if s[0] in seen {
        WalkFailsIff(s[1..], seen);
      } else {
        WalkFailsIff(s[1..], seen + {s[0]});
      }
      assert forall i :: 1 <= i < |s| ==> s[i] == s[1..][i - 1];
    }
  }

  /** On ascending counts a failed walk has prepared nothing: a count below
      1 comes before every valid one. */
  lemma WalkFailsFirst(s: seq<int>, seen: set<int>)
    requires Ascending(s)
    ensures Walk(s, seen).failed ==> Walk(s, seen).prepared == []
  {
    WalkFailsIff(s, seen);
  }

  /** A walk that does not fail prepares every count it has not seen. */
  lemma {:induction false} WalkCovers(s: seq<int>, seen: set<int>)
    ensures !Walk(s, seen).failed ==> forall x :: x in s && x !in seen ==> x in Walk(s, seen).prepared
  {
    if |s| > 0 && s[0] >= 1 {
      var seen' := if s[0] in seen then seen else seen + {s[0]};
      WalkCovers(s[1..], seen');
      assert forall x :: x in s ==> x == s[0] || x in s[1..];
    }
  }

  lemma HeadBelowRest(s: seq<int>, seen: set<int>, k: nat)
    requires Ascending(s) && |s| > 0 && s[0] in seen
    requires k < |Walk(s[1..], seen).prepared|
    ensures s[0] < Walk(s[1..], seen).prepared[k]
  {
    var x := Walk(s[1..], seen).prepared[k];
    var m :| 0 <= m < |s[1..]| && s[1..][m] == x;
    assert s[0] <= s[m + 1];
  }

  lemma ConsStrict(x: int, q: seq<int>)
    requires StrictlyAscending(q)
    requires forall k :: 0 <= k < |q| ==> x < q[k]
    ensures StrictlyAscending([x] + q)
  {
    var p := [x] + q;
    forall i, j | 0 <= i < j < |p| ensures p[i] < p[j] {
      assert p[j] == q[j - 1];
      if i > 0 {
        assert p[i] == q[i - 1];
      }
    }
  }

  /** On ascending counts the walk prepares in strictly ascending order. */
  lemma {:induction false} WalkStrict(s: seq<int>, seen: set<int>)
    requires Ascending(s)
    ensures StrictlyAscending(Walk(s, seen).prepared)
  {
    if |s| > 0 && s[0] >= 1 {
      assert Ascending(s[1..]) by {
        assert forall i :: 0 <= i < |s[1..]| ==> s[1..][i] == s[i + 1];
      }
      if s[0] in seen {
        WalkStrict(s[1..], seen);
      } else {
        var seen' := seen + {s[0]};
        var w := Walk(s[1..], seen');
        WalkStrict(s[1..], seen');
        forall k | 0 <= k < |w.prepared| ensures s[0] < w.prepared[k] {
          HeadBelowRest(s, seen', k);
        }
        ConsStrict(s[0], w.prepared);
      }
    }
  }

  datatype RunError<E> =
    | UnsupportedStructure(name: string)   // not BCC or HCP in any case
    | NonPositiveCount                     // a layer count below 1
    | PrepareFailed(count: int, error: E)  // `_prepare_layer` raised for this count

  /** The counts `run` hands to `_prepare_layer`, in order, when every
      preparation succeeds. */
  function Preparations(structureType: string, counts: seq<int>): (r: seq<int>)
    ensures ParseStructureType(structureType).None? ==> r == []
    ensures StrictlyAscending(r)
    ensures forall x :: x in r ==> x in counts
  {
    if ParseStructureType(structureType).None? then []
    else
      var sorted := SortInts(counts);
      WalkStrict(sorted, {});
      SameElements(counts, sorted);
      Walk(sorted, {}).prepared
  }

  /** The directory of one layer count: `base_directory / str(layer_count)`.
      The separator is always added, so a base ending in "/" gets a doubled
      one where `Path` would collapse it. */
  function LayerPath(base: string, n: int): string {
    base + "/" + IntToDecimal(n)
  }

  function LayerPaths(base: string, counts: seq<int>): (r: seq<string>)
    ensures |r| == |counts|
    ensures forall i :: 0 <= i < |counts| ==> r[i] == LayerPath(base, counts[i])
  {
    seq(|counts|, i requires 0 <= i < |counts| => LayerPath(base, counts[i]))
  }

  /** The position of the first count whose preparation fails, or `|ns|`. */
  function FirstFailure<E>(ns: seq<int>, prepare: int -> Result<(), E>): (k: nat)
    ensures k <= |ns|
    ensures k < |ns| ==> prepare(ns[k]).Err?
    ensures forall j :: 0 <= j < k ==> prepare(ns[j]).Ok?
  {
    if |ns| == 0 then 0
    else if prepare(ns[0]).Err? then 0
    else 1 + FirstFailure(ns[1..], prepare)
  }

  /** `LayerGenerator.run`: reject an unsupported structure type, then walk
      the sorted counts, skipping repeats and failing on a count below 1,
      and prepare each count in turn; the first preparation that raises
      ends the run with its error. `prepare` stands for `_prepare_layer`
      reduced to whether it raises; on success one path per prepared
      count. */
  function Run<E>(base: string, structureType: string, counts: seq<int>, prepare: int -> Result<(), E>)
    : (r: Result<seq<string>, RunError<E>>)
    ensures ParseStructureType(structureType).None? ==> r == Err(UnsupportedStructure(structureType))
    ensures r == Err(NonPositiveCount) <==>
      ParseStructureType(structureType).Some? && exists i :: 0 <= i < |counts| && counts[i] < 1
    ensures r.Err? && r.error.PrepareFailed? ==>
      r.error.count in counts && prepare(r.error.count) == Err(r.error.error)
    ensures r.Ok? ==> r.value == LayerPaths(base, Preparations(structureType, counts))
  {
    if ParseStructureType(structureType).None? then Err(UnsupportedStructure(structureType))
    else
      var sorted := SortInts(counts);
      var w := Walk(sorted, {});
      WalkFailsIff(sorted, {});
      SameElements(counts, sorted);
      if w.failed then Err(NonPositiveCount)
      else
        var k := FirstFailure(w.prepared, prepare);
        if k < |w.prepared| then Err(PrepareFailed(w.prepared[k], prepare(w.prepared[k]).error))
        else Ok(LayerPaths(base, w.prepared))
  }

  /** The counts `run` hands to `_prepare_layer` before it returns or
      raises; each of them has had its directories created. */
  function Attempted<E>(structureType: string, counts: seq<int>, prepare: int -> Result<(), E>): (r: seq<int>)
    ensures r <= Preparations(structureType, counts)
  {
    var p := Preparations(structureType, counts);
    if ParseStructureType(structureType).None? || Walk(SortInts(counts), {}).failed then []
    else
      var k := FirstFailure(p, prepare);
      if k < |p| then p[..k + 1] else p
  }

  lemma SameElements(a: seq<int>, b: seq<int>)
    requires multiset(a) == multiset(b)
    ensures (exists i :: 0 <= i < |a| && a[i] < 1) <==> (exists i :: 0 <= i < |b| && b[i] < 1)
    ensures forall x :: x in a <==> x in b
  {
    forall x ensures x in a <==> x in b {
      assert x in a <==> x in multiset(a);
      assert x in b <==> x in multiset(b);
    }
    if i :| 0 <= i < |a| && a[i] < 1 {
      assert a[i] in b;
    }
    if i :| 0 <= i < |b| && b[i] < 1 {
      assert b[i] in a;
    }
  }

  /** With a supported type and no count below 1, the counts walked are
      exactly the distinct counts, in strictly ascending order. */
  lemma PreparationsAreDistinctCounts(structureType: string, counts: seq<int>)
    requires ParseStructureType(structureType).Some?
    requires forall i :: 0 <= i < |counts| ==> counts[i] >= 1
    ensures !Walk(SortInts(counts), {}).failed
    ensures StrictlyAscending(Preparations(structureType, counts))
    ensures forall x :: x in Preparations(structureType, counts) <==> x in counts
  {
    var sorted := SortInts(counts);
    WalkCovers(sorted, {});
    WalkStrict(sorted, {});
    WalkFailsIff(sorted, {});
    SameElements(counts, sorted);
  }

  /** A run succeeds exactly when the type is supported, no count is below 1
      and the preparation of every count succeeds. */
  lemma RunOkIff<E>(base: string, structureType: string, counts: seq<int>, prepare: int -> Result<(), E>)
    ensures Run(base, structureType, counts, prepare).Ok? <==>
      && ParseStructureType(structureType).Some?
      && (forall i :: 0 <= i < |counts| ==> counts[i] >= 1)
      && (forall i :: 0 <= i < |counts| ==> prepare(counts[i]).Ok?)
  {
    if ParseStructureType(structureType).Some? && forall i :: 0 <= i < |counts| ==> counts[i] >= 1 {
      PreparationsAreDistinctCounts(structureType, counts);
      var p := Preparations(structureType, counts);
      var k := FirstFailure(p, prepare);
      if k < |p| {
        assert p[k] in counts;
      } else {
        forall i | 0 <= i < |counts| ensures prepare(counts[i]).Ok? {
          assert counts[i] in p;
        }
      }
    }
  }

  /** The counts a run hands to `_prepare_layer` strictly ascend and come
      from the input. A run rejected for its type or a count has prepared
      nothing; a successful run has prepared every distinct count exactly
      once. */
  lemma RunPreparesDistinctCounts<E>(base: string, structureType: string, counts: seq<int>, prepare: int -> Result<(), E>)
    ensures var r := Run(base, structureType, counts, prepare);
      var a := Attempted(structureType, counts, prepare);
      && StrictlyAscending(a)
      && (forall x :: x in a ==> x in counts)
      && (r.Err? && !r.error.PrepareFailed? ==> a == [])
      && (r.Ok? ==> forall x :: x in a <==> x in counts)
  {
    var r := Run(base, structureType, counts, prepare);
    var a := Attempted(structureType, counts, prepare);
    if ParseStructureType(structureType).Some? {
      if Walk(SortInts(counts), {}).failed {
        assert r == Err(NonPositiveCount) && a == [];
      } else {
        WalkedCounts(structureType, counts);
        var p := Preparations(structureType, counts);
        var k := FirstFailure(p, prepare);
        if k < |p| {
          AttemptedUpToFailure(p, prepare);
          assert r.Err? && r.error.PrepareFailed?;
          assert a == p[..k + 1];
        } else {
          assert r == Ok(LayerPaths(base, p)) && a == p;
        }
      }
    }
  }

  /** When a preparation raises, the run has prepared, in ascending order,
      the distinct counts below the failing one, all successfully, and the
      failing count last, with the error it raised. */
  lemma RunStopsAtFirstFailure<E>(base: string, structureType: string, counts: seq<int>, prepare: int -> Result<(), E>)
    ensures var r := Run(base, structureType, counts, prepare);
      var a := Attempted(structureType, counts, prepare);
      r.Err? && r.error.PrepareFailed? ==>
        && |a| > 0 && a[|a| - 1] == r.error.count
        && prepare(a[|a| - 1]) == Err(r.error.error)
        && (forall j :: 0 <= j < |a| - 1 ==> prepare(a[j]).Ok?)
        && forall x :: x in counts && x < r.error.count ==> x in a && prepare(x).Ok?
  {
    var r := Run(base, structureType, counts, prepare);
    var a := Attempted(structureType, counts, prepare);
    if ParseStructureType(structureType).Some? && !Walk(SortInts(counts), {}).failed {
      var p := Preparations(structureType, counts);
      var k := FirstFailure(p, prepare);
      if k < |p| {
        StopsAtFirstFailureOfWalk(base, structureType, counts, prepare);
      } else {
        assert r.Ok?;
      }
    }
  }

  /** `RunStopsAtFirstFailure` for a walk that does reach a failing
      preparation. */
  lemma StopsAtFirstFailureOfWalk<E>(base: string, structureType: string, counts: seq<int>, prepare: int -> Result<(), E>)
    requires ParseStructureType(structureType).Some? && !Walk(SortInts(counts), {}).failed
    requires FirstFailure(Preparations(structureType, counts), prepare) < |Preparations(structureType, counts)|
    ensures var r := Run(base, structureType, counts, prepare);
      var a := Attempted(structureType, counts, prepare);
      r.Err? && r.error.PrepareFailed? ==>
        && |a| > 0 && a[|a| - 1] == r.error.count
        && prepare(a[|a| - 1]) == Err(r.error.error)
        && (forall j :: 0 <= j < |a| - 1 ==> prepare(a[j]).Ok?)
        && forall x :: x in counts && x < r.error.count ==> x in a && prepare(x).Ok?
  {
    var p := Preparations(structureType, counts);
    RunFailsAt(base, structureType, counts, prepare);
    WalkedCounts(structureType, counts);
    StopsAtFailure(p, counts, prepare);
  }

  /** A run whose walk has a failing preparation reports that count and
      error, and has attempted the walk up to it. */
  lemma RunFailsAt<E>(base: string, structureType: string, counts: seq<int>, prepare: int -> Result<(), E>)
    requires ParseStructureType(structureType).Some? && !Walk(SortInts(counts), {}).failed
    requires FirstFailure(Preparations(structureType, counts), prepare) < |Preparations(structureType, counts)|
    ensures var p := Preparations(structureType, counts);
      var k := FirstFailure(p, prepare);
      && Run(base, structureType, counts, prepare) == Err(PrepareFailed(p[k], prepare(p[k]).error))
      && Attempted(structureType, counts, prepare) == p[..k + 1]
  {
  }

  /** The facts of `RunStopsAtFirstFailure` for one ascending walk `p` that
      holds every count. */
  lemma StopsAtFailure<E>(p: seq<int>, counts: seq<int>, prepare: int -> Result<(), E>)
    requires StrictlyAscending(p) && FirstFailure(p, prepare) < |p|
    requires forall x :: x in counts ==> x in p
    ensures var k := FirstFailure(p, prepare);
      var a := p[..k + 1];
      && |a| > 0 && a[|a| - 1] == p[k]
      && (forall j :: 0 <= j < |a| - 1 ==> prepare(a[j]).Ok?)
      && forall x :: x in counts && x < p[k] ==> x in a && prepare(x).Ok?
  {
    AttemptedUpToFailure(p, prepare);
    BelowFailureAttempted(p, prepare);
  }

  /** In an ascending walk, every count below the first failing one comes
      before it, so it was handed over and succeeded. */
  lemma BelowFailureAttempted<E>(p: seq<int>, prepare: int -> Result<(), E>)
    requires StrictlyAscending(p) && FirstFailure(p, prepare) < |p|
    ensures var k := FirstFailure(p, prepare);
      forall x :: x in p && x < p[k] ==> x in p[..k + 1] && prepare(x).Ok?
  {
    var k := FirstFailure(p, prepare);
    forall x | x in p && x < p[k] ensures x in p[..k + 1] && prepare(x).Ok? {
      var i :| 0 <= i < |p| && p[i] == x;
      var below, failing := p[i], p[k];
      if i >= k {
        assert false;
      }
      assert p[..k + 1][i] == x;
    }
  }

  /** A walk that does not fail covers exactly the distinct counts, strictly
      ascending. */
  lemma WalkedCounts(structureType: string, counts: seq<int>)
    requires ParseStructureType(structureType).Some?
    requires !Walk(SortInts(counts), {}).failed
    ensures StrictlyAscending(Preparations(structureType, counts))
    ensures forall x :: x in Preparations(structureType, counts) <==> x in counts
  {
    var sorted := SortInts(counts);
    WalkCovers(sorted, {});
    WalkStrict(sorted, {});
    SameElements(counts, sorted);
  }

  /** The counts handed over up to and including the first failing one. */
  lemma AttemptedUpToFailure<E>(p: seq<int>, prepare: int -> Result<(), E>)
    requires StrictlyAscending(p) && FirstFailure(p, prepare) < |p|
    ensures var k := FirstFailure(p, prepare);
      var a := p[..k + 1];
      && StrictlyAscending(a)
      && (forall x :: x in a ==> x in p)
      && |a| == k + 1 && a[k] == p[k]
      && forall j :: 0 <= j < k ==> prepare(a[j]).Ok?
  {
    var k := FirstFailure(p, prepare);
    PrefixOfAscending(p, k + 1);
    assert forall j :: 0 <= j < k ==> p[..k + 1][j] == p[j];
  }

  lemma PrefixOfAscending(p: seq<int>, n: nat)
    requires StrictlyAscending(p) && n <= |p|
    ensures StrictlyAscending(p[..n])
    ensures forall x :: x in p[..n] ==> x in p
  {
    assert forall i :: 0 <= i < n ==> p[..n][i] == p[i];
  }

  lemma DecimalInjective(a: nat, b: nat)
    requires NatToDecimal(a) == NatToDecimal(b)
    ensures a == b
  {
    DecimalRoundTrip(a);
    DecimalRoundTrip(b);
  }

  /** Distinct positive counts get distinct directories. */
  lemma LayerPathsDistinct(base: string, m: int, n: int)
    requires m >= 1 && n >= 1 && m != n
    ensures LayerPath(base, m) != LayerPath(base, n)
  {
    if LayerPath(base, m) == LayerPath(base, n) {
      var k := |base + "/"|;
      assert LayerPath(base, m)[k..] == NatToDecimal(m);
      assert LayerPath(base, n)[k..] == NatToDecimal(n);
      DecimalInjective(m, n);
    }
  }

  lemma SortExample(counts: seq<int>)
    requires counts == [3, 1, 3, 2]
    ensures SortInts(counts) == [1, 2, 3, 3]
  {
    IntLeIsTotalPreorder();
    var e := [counts[1], counts[3], counts[0], counts[2]];
    assert e == [1, 2, 3, 3];
    PermuteFour(counts);
    assert SortedBy(e, IntLe) by {
      assert Ascending(e);
    }
    SortByUnique(e, counts, IntLe);
  }

  lemma PermuteFour<T>(s: seq<T>)
    requires |s| == 4
    ensures multiset([s[1], s[3], s[0], s[2]]) == multiset(s)
  {
    assert s == [s[0], s[1], s[2], s[3]];
  }

  lemma WalkExample(s: seq<int>)
    requires s == [1, 2, 3, 3]
    ensures Walk(s, {}) == Walked([1, 2, 3], false)
  {
    var t1, t2, t3 := s[1..], s[2..], s[3..];
    assert t1 == [2, 3, 3] && t1[1..] == t2;
    assert t2 == [3, 3] && t2[1..] == t3;
    assert t3 == [3] && t3[1..] == [];
    assert Walk(t3, {1, 2, 3}) == Walked([], false);
    assert Walk(t2, {1, 2}) == Walked([3], false) by {
      assert {1, 2} + {3} == {1, 2, 3};
    }
    assert Walk(t1, {1}) == Walked([2, 3], false) by {
      assert {1} + {2} == {1, 2};
    }
    assert {} + {1} == {1};
  }

  lemma ParseBcc(t: string)
    requires t == "bcc"
    ensures ParseStructureType(t) == Some(BCC)
  {
    assert Upper(t) == "BCC";
  }

  /** Counts [3, 1, 3, 2] prepare layers 1, 2 and 3, once each, in that
      order, when every preparation succeeds. */
  lemma RunExample<E>(base: string, t: string, counts: seq<int>, prepare: int -> Result<(), E>)
    requires t == "bcc" && counts == [3, 1, 3, 2]
    requires forall n :: prepare(n).Ok?
    ensures Preparations(t, counts) == [1, 2, 3]
    ensures Run(base, t, counts, prepare) == Ok(LayerPaths(base, [1, 2, 3]))
  {
    assert Run(base, t, counts, prepare) == Ok(LayerPaths(base, Preparations(t, counts))) by {
      ParseBcc(t);
      RunSucceeds(base, t, counts, prepare);
    }
    PreparationsExample(t, counts);
  }

  /** With a known structure type, no count below one and no preparation
      raising, `Run` prepares exactly the layers `Preparations` lists. */
  lemma RunSucceeds<E>(base: string, t: string, counts: seq<int>, prepare: int -> Result<(), E>)
    requires ParseStructureType(t).Some?
    requires forall i :: 0 <= i < |counts| ==> counts[i] >= 1
    requires forall i :: 0 <= i < |counts| ==> prepare(counts[i]).Ok?
    ensures Run(base, t, counts, prepare) == Ok(LayerPaths(base, Preparations(t, counts)))
  {
    RunOkIff(base, t, counts, prepare);
  }

  lemma PreparationsExample(t: string, counts: seq<int>)
    requires t == "bcc" && counts == [3, 1, 3, 2]
    ensures ParseStructureType(t).Some?
    ensures Preparations(t, counts) == [1, 2, 3]
  {
    ParseBcc(t);
    SortExample(counts);
    WalkExample(SortInts(counts));
  }

  // ---------------------------------------------------------------------
  // POTCAR lookup and assembly
  // ---------------------------------------------------------------------

  /** The suffixes tried for an element, most preferred first. */
  const PotcarSuffixes: seq<string> := ["_pv", "_sv", "", "_s"]

  /** A POTCAR location, `root / directory / "POTCAR"`. */
  datatype PotcarPath = PotcarPath(root: string, directory: string)

  /** `potcar_root / f"{element}{suffix}" / "POTCAR"`. */
  function CandidatePath(root: string, element: string, suffix: string): PotcarPath {
    PotcarPath(root, element + suffix)
  }

  /** The index of the first entry satisfying `pathExists`, or `|cands|`. */
  function FirstExisting(cands: seq<PotcarPath>, pathExists: PotcarPath -> bool): (k: nat)
    ensures k <= |cands|
    ensures k < |cands| ==> pathExists(cands[k])
    ensures forall j :: 0 <= j < k ==> !pathExists(cands[j])
  {
    if |cands| == 0 then 0
    else if pathExists(cands[0]) then 0
    else 1 + FirstExisting(cands[1..], pathExists)
  }

  function Candidates(root: string, element: string): (r: seq<PotcarPath>)
    ensures |r| == |PotcarSuffixes|
    ensures forall k :: 0 <= k < |r| ==> r[k] == CandidatePath(root, element, PotcarSuffixes[k])
  {
    seq(|PotcarSuffixes|, k requires 0 <= k < |PotcarSuffixes| => CandidatePath(root, element, PotcarSuffixes[k]))
  }

  /** Why a POTCAR could not be used: no candidate exists, or the located
      path cannot be read as UTF-8 text (it is a directory, or its bytes do
      not decode). */
  datatype PotcarError =
    | PotcarNotFound(element: string)
    | PotcarUnreadable(path: PotcarPath)

  /** `_locate_potcar`: the first existing candidate in suffix priority. */
  function LocatePotcar(element: string, root: string, pathExists: PotcarPath -> bool): (r: Result<PotcarPath, PotcarError>)
    ensures r.Ok? ==> pathExists(r.value) && r.value.root == root
    ensures r.Err? ==> r.error == PotcarNotFound(element)
  {
    var cands := Candidates(root, element);
    var k := FirstExisting(cands, pathExists);
    if k < |cands| then Ok(cands[k]) else Err(PotcarNotFound(element))
  }

  /** The lookup succeeds exactly when some candidate exists, and then yields
      the existing candidate whose suffix comes first in priority order;
      otherwise it reports the element. */
  lemma LocatePotcarFirst(element: string, root: string, pathExists: PotcarPath -> bool)
    ensures var r := LocatePotcar(element, root, pathExists);
      r.Ok? <==> exists k :: 0 <= k < |PotcarSuffixes| && pathExists(CandidatePath(root, element, PotcarSuffixes[k]))
    ensures var r := LocatePotcar(element, root, pathExists);
      r.Ok? ==> exists k :: (
        && 0 <= k < |PotcarSuffixes|
        && r.value == CandidatePath(root, element, PotcarSuffixes[k]) && pathExists(r.value)
        && forall j :: 0 <= j < k ==> !pathExists(CandidatePath(root, element, PotcarSuffixes[j])))
    ensures var r := LocatePotcar(element, root, pathExists);
      r.Err? ==> r.error == PotcarNotFound(element)
  {
  }

  /** When the `_pv` variant exists it is always the one used. */
  lemma PreferPv(element: string, root: string, pathExists: PotcarPath -> bool)
    requires pathExists(CandidatePath(root, element, "_pv"))
    ensures LocatePotcar(element, root, pathExists) == Ok(CandidatePath(root, element, "_pv"))
  {
    assert Candidates(root, element)[0] == CandidatePath(root, element, "_pv");
  }

  /** The lookup `build_potcar` applies to each element. */
  function Locator(root: string, pathExists: PotcarPath -> bool): string -> Result<PotcarPath, PotcarError> {
    e => LocatePotcar(e, root, pathExists)
  }

  /** `build_potcar`: the POTCAR texts of the elements, concatenated in
      element order; the first element whose POTCAR is missing or
      unreadable aborts. `read` is `read_text(encoding="utf-8")`, `None`
      where it raises. */
  function BuildPotcar(elements: seq<string>, root: string, pathExists: PotcarPath -> bool, read: PotcarPath -> Option<string>)
    : (r: Result<string, PotcarError>)
    ensures |elements| == 0 ==> r == Ok("")
    ensures r.Err? && r.error.PotcarNotFound? ==> r.error.element in elements
    ensures r.Err? && r.error.PotcarUnreadable? ==>
      exists i :: 0 <= i < |elements| && LocatePotcar(elements[i], root, pathExists) == Ok(r.error.path)
        && read(r.error.path).None?
  {
    var locate := Locator(root, pathExists);
    var r := Assemble(elements, locate, read);
    if r.Err? then
      AssembleFirstMissing(elements, locate, read);
      var i :| && 0 <= i < |elements|
               && Fetch(elements[i], locate, read).Err?
               && r.error == Fetch(elements[i], locate, read).error;
      assert locate(elements[i]) == LocatePotcar(elements[i], root, pathExists);
      r
    else r
  }

  /** One iteration of `build_potcar`: locate the element's POTCAR, then
      read it. */
  function Fetch(e: string, locate: string -> Result<PotcarPath, PotcarError>, read: PotcarPath -> Option<string>): (r: Result<string, PotcarError>)
    ensures r.Ok? <==> locate(e).Ok? && read(locate(e).value).Some?
    ensures r.Ok? ==> r.value == read(locate(e).value).value
    ensures locate(e).Err? ==> r == Err(locate(e).error)
    ensures locate(e).Ok? && read(locate(e).value).None? ==> r == Err(PotcarUnreadable(locate(e).value))
  {
    var path := locate(e);
    if path.Err? then Err(path.error)
    else if read(path.value).None? then Err(PotcarUnreadable(path.value))
    else Ok(read(path.value).value)
  }

  /** The loop of `build_potcar` over any lookup `locate`. */
  function Assemble(elements: seq<string>, locate: string -> Result<PotcarPath, PotcarError>, read: PotcarPath -> Option<string>): Result<string, PotcarError> {
    if |elements| == 0 then Ok("")
    else
      var first := Fetch(elements[0], locate, read);
      if first.Err? then Err(first.error)
      else
        var rest := Assemble(elements[1..], locate, read);
        if rest.Err? then rest
        else Ok(first.value + rest.value)
  }

  /** Assembly succeeds exactly when every element's POTCAR is located and
      read. */
  lemma {:induction false} AssembleOkIff(elements: seq<string>, locate: string -> Result<PotcarPath, PotcarError>, read: PotcarPath -> Option<string>)
    ensures Assemble(elements, locate, read).Ok? <==> forall i :: 0 <= i < |elements| ==> Fetch(elements[i], locate, read).Ok?
  {
    if |elements| > 0 {
      AssembleOkIff(elements[1..], locate, read);
      assert forall i :: 1 <= i < |elements| ==> elements[i] == elements[1..][i - 1];
    }
  }

  /** `build_potcar` succeeds exactly when every element has a POTCAR and
      each located POTCAR can be read. */
  lemma BuildPotcarOkIff(elements: seq<string>, root: string, pathExists: PotcarPath -> bool, read: PotcarPath -> Option<string>)
    ensures BuildPotcar(elements, root, pathExists, read).Ok? <==>
      forall i :: 0 <= i < |elements| ==>
        && LocatePotcar(elements[i], root, pathExists).Ok?
        && read(LocatePotcar(elements[i], root, pathExists).value).Some?
  {
    var locate := Locator(root, pathExists);
    AssembleOkIff(elements, locate, read);
    assert forall i :: 0 <= i < |elements| ==> locate(elements[i]) == LocatePotcar(elements[i], root, pathExists);
  }

  /** A failed assembly reports the error of the first element whose POTCAR
      is missing or unreadable; every earlier one was read. */
  lemma {:induction false} AssembleFirstMissing(elements: seq<string>, locate: string -> Result<PotcarPath, PotcarError>, read: PotcarPath -> Option<string>)
    requires Assemble(elements, locate, read).Err?
    ensures exists i :: (
      && 0 <= i < |elements|
      && Fetch(elements[i], locate, read).Err?
      && Assemble(elements, locate, read).error == Fetch(elements[i], locate, read).error
      && forall j :: 0 <= j < i ==> Fetch(elements[j], locate, read).Ok?)
  {
    if Fetch(elements[0], locate, read).Ok? {
      var rest := elements[1..];
      AssembleFirstMissing(rest, locate, read);
      var i :| && 0 <= i < |rest|
               && Fetch(rest[i], locate, read).Err?
               && Assemble(rest, locate, read).error == Fetch(rest[i], locate, read).error
               && forall j :: 0 <= j < i ==> Fetch(rest[j], locate, read).Ok?;
      assert elements[i + 1] == rest[i];
      forall j | 0 <= j < i + 1 ensures Fetch(elements[j], locate, read).Ok? {
        if j > 0 {
          assert elements[j] == rest[j - 1];
        }
      }
    }
  }

  /** A failed `build_potcar` names the first element without a POTCAR, or
      the located path of the first element whose POTCAR cannot be read;
      every earlier element's POTCAR was found and read. */
  lemma BuildPotcarFirstMissing(elements: seq<string>, root: string, pathExists: PotcarPath -> bool, read: PotcarPath -> Option<string>)
    requires BuildPotcar(elements, root, pathExists, read).Err?
    ensures exists i :: (
      && 0 <= i < |elements|
      && (forall j :: 0 <= j < i ==>
            LocatePotcar(elements[j], root, pathExists).Ok? && read(LocatePotcar(elements[j], root, pathExists).value).Some?)
      && var e := BuildPotcar(elements, root, pathExists, read).error;
         var located := LocatePotcar(elements[i], root, pathExists);
         if located.Err? then e == PotcarNotFound(elements[i])
         else read(located.value).None? && e == PotcarUnreadable(located.value))
  {
    var locate := Locator(root, pathExists);
    AssembleFirstMissing(elements, locate, read);
    var i :| && 0 <= i < |elements|
             && Fetch(elements[i], locate, read).Err?
             && Assemble(elements, locate, read).error == Fetch(elements[i], locate, read).error
             && forall j :: 0 <= j < i ==> Fetch(elements[j], locate, read).Ok?;
    assert forall j :: 0 <= j <= i ==> locate(elements[j]) == LocatePotcar(elements[j], root, pathExists);
  }

  /** One element's POTCAR is the text of its located file, or the located
      file's read error. */
  lemma BuildPotcarSingle(e: string, root: string, pathExists: PotcarPath -> bool, read: PotcarPath -> Option<string>)
    requires LocatePotcar(e, root, pathExists).Ok?
    ensures var path := LocatePotcar(e, root, pathExists).value;
      BuildPotcar([e], root, pathExists, read) ==
        if read(path).Some? then Ok(read(path).value) else Err(PotcarUnreadable(path))
  {
    var locate := Locator(root, pathExists);
    assert [e][1..] == [];
    assert locate(e) == LocatePotcar(e, root, pathExists);
    assert Assemble([e][1..], locate, read) == Ok("");
    var path := LocatePotcar(e, root, pathExists).value;
    if read(path).Some? {
      var x := read(path).value;
      assert Assemble([e], locate, read) == Ok(x + "");
      assert x + "" == x;
    }
  }

  /** Assembly distributes over the element list: the result for `a + b` is
      the result for `a` followed by the result for `b`. */
  lemma {:induction false} AssembleAppend(a: seq<string>, b: seq<string>, locate: string -> Result<PotcarPath, PotcarError>, read: PotcarPath -> Option<string>)
    requires Assemble(a, locate, read).Ok? && Assemble(b, locate, read).Ok?
    ensures Assemble(a + b, locate, read) == Ok(Assemble(a, locate, read).value + Assemble(b, locate, read).value)
  {
    var yb := Assemble(b, locate, read).value;
    if |a| == 0 {
      assert a + b == b;
      assert "" + yb == yb;
    } else {
      var rest := a[1..];
      var x := Fetch(a[0], locate, read).value;
      var ya := Assemble(rest, locate, read).value;
      AssembleAppend(rest, b, locate, read);
      assert (a + b)[0] == a[0] && (a + b)[1..] == rest + b;
      assert x + (ya + yb) == (x + ya) + yb;
    }
  }

  /** The POTCAR of `a + b` is the POTCAR of `a` followed by that of `b`. */
  lemma BuildPotcarAppend(a: seq<string>, b: seq<string>, root: string, pathExists: PotcarPath -> bool, read: PotcarPath -> Option<string>)
    requires BuildPotcar(a, root, pathExists, read).Ok? && BuildPotcar(b, root, pathExists, read).Ok?
    ensures BuildPotcar(a + b, root, pathExists, read)
      == Ok(BuildPotcar(a, root, pathExists, read).value + BuildPotcar(b, root, pathExists, read).value)
  {
    AssembleAppend(a, b, Locator(root, pathExists), read);
  }

  // ---------------------------------------------------------------------
  // The Materials Project query
  // ---------------------------------------------------------------------

  datatype QueryError =
    | MissingApiKey          // no API key at all (an empty key is passed on)
    | NegativeEnergyLimit    // max_energy_above_hull below zero

  /** The checks `build_layer_structure` makes before any query, in order. */
  function InputError(apiKey: Option<string>, maxEnergy: Option<real>): (r: Option<QueryError>)
    ensures r.None? <==> apiKey.Some? && (maxEnergy.None? || maxEnergy.value >= 0.0)
    ensures apiKey.None? ==> r == Some(MissingApiKey)
    ensures r == Some(NegativeEnergyLimit) <==> apiKey.Some? && maxEnergy.Some? && maxEnergy.value < 0.0
  {
    if apiKey.None? then Some(MissingApiKey)
    else if maxEnergy.Some? && maxEnergy.value < 0.0 then Some(NegativeEnergyLimit)
    else None
  }

  /** The document fields always requested. */
  const SummaryFields: seq<string> :=
    ["material_id", "formula_pretty", "energy_above_hull", "is_stable", "symmetry", "structure"]

  /** The keyword arguments of the summary search; an absent key is `None`. */
  datatype SearchArgs = SearchArgs(
    fields: seq<string>,
    materialIds: Option<seq<string>>,
    elements: Option<seq<string>>,
    spacegroupNumber: Option<int>,
    isStable: Option<bool>,
    energyAboveHull: Option<(real, real)>)

  /** `_build_summary_search_kwargs`. */
  function BuildSearchArgs(element: string, spacegroup: int, materialId: Option<string>,
                           requireStable: bool, maxEnergy: Option<real>): (r: SearchArgs)
    ensures r.fields == SummaryFields
    ensures r.materialIds.Some? <==> Truthy(materialId)
    ensures r.materialIds.Some? ==> r.materialIds.value == [materialId.value]
    ensures r.elements.Some? <==> !Truthy(materialId)
    ensures r.spacegroupNumber.Some? <==> !Truthy(materialId)
    ensures r.elements.Some? ==> r.elements.value == [element] && r.spacegroupNumber == Some(spacegroup)
    ensures r.isStable.Some? <==> requireStable
    ensures r.isStable.Some? ==> r.isStable.value
    ensures r.energyAboveHull.Some? <==> maxEnergy.Some?
    ensures r.energyAboveHull.Some? ==> r.energyAboveHull.value == (0.0, maxEnergy.value)
  {
    var byId := Truthy(materialId);
    SearchArgs(
      SummaryFields,
      if byId then Some([materialId.value]) else None,
      if byId then None else Some([element]),
      if byId then None else Some(spacegroup),
      if requireStable then Some(true) else None,
      if maxEnergy.Some? then Some((0.0, maxEnergy.value)) else None)
  }

  /** A query selects either by material id or by element and spacegroup,
      never both and never neither. */
  lemma SearchByIdOrByComposition(element: string, spacegroup: int, materialId: Option<string>,
                                  requireStable: bool, maxEnergy: Option<real>)
    ensures var r := BuildSearchArgs(element, spacegroup, materialId, requireStable, maxEnergy);
      r.materialIds.Some? != r.elements.Some? && r.elements.Some? == r.spacegroupNumber.Some?
  {
  }

  // ---------------------------------------------------------------------
  // Document selection (`_select_preferred_doc`, `_doc_sort_key`)
  // ---------------------------------------------------------------------

  /** What the slab needs from a prototype structure: its lattice lengths
      and the distances between all atom pairs, in `combinations` order. */
  datatype BaseStructure = BaseStructure(a: real, b: real, c: real, pairDistances: seq<real>)

  /** A summary document; every field may be missing. */
  datatype Doc = Doc(materialId: Option<string>, energyAboveHull: Option<real>, structure: Option<BaseStructure>)

  /** A missing energy sorts as positive infinity. */
  datatype EnergyKey = Finite(value: real) | Infinite

  function EnergyKeyOf(d: Doc): EnergyKey {
    if d.energyAboveHull.Some? then Finite(d.energyAboveHull.value) else Infinite
  }

  /** `str(material_id or "")`. */
  function IdKeyOf(d: Doc): string {
    if d.materialId.Some? then d.materialId.value else ""
  }

  predicate EnergyLt(x: EnergyKey, y: EnergyKey) {
    match (x, y)
    case (Finite(a), Finite(b)) => a < b
    case (Finite(_), Infinite) => true
    case (Infinite, _) => false
  }

  /** Tuple order on `(energy_key, material_id)`. */
  predicate DocLe(x: Doc, y: Doc)
    ensures x.energyAboveHull.Some? && y.energyAboveHull.None? ==> DocLe(x, y)
    ensures x.energyAboveHull.None? && y.energyAboveHull.Some? ==> !DocLe(x, y)
    ensures x.energyAboveHull.Some? && y.energyAboveHull.Some? && x.energyAboveHull.value != y.energyAboveHull.value ==>
      (DocLe(x, y) <==> x.energyAboveHull.value < y.energyAboveHull.value)
  {
    EnergyLt(EnergyKeyOf(x), EnergyKeyOf(y))
    || (EnergyKeyOf(x) == EnergyKeyOf(y) && LexLe(IdKeyOf(x), IdKeyOf(y)))
  }

  /** Two documents tie under the key order only when both their energy
      keys and their id keys are equal. */
  lemma DocLeTiesShareKeys(x: Doc, y: Doc)
    requires DocLe(x, y) && DocLe(y, x)
    ensures EnergyKeyOf(x) == EnergyKeyOf(y) && IdKeyOf(x) == IdKeyOf(y)
  {
    if EnergyKeyOf(x) == EnergyKeyOf(y) {
      LexLeAntisymmetric(IdKeyOf(x), IdKeyOf(y));
    }
  }

  lemma DocLeIsTotalPreorder()
    ensures TotalPreorder(DocLe)
  {
    forall x: Doc, y: Doc ensures DocLe(x, y) || DocLe(y, x) {
      LexLeTotal(IdKeyOf(x), IdKeyOf(y));
    }
    forall x: Doc, y: Doc, z: Doc | DocLe(x, y) && DocLe(y, z) ensures DocLe(x, z) {
      if EnergyKeyOf(x) == EnergyKeyOf(y) == EnergyKeyOf(z) {
        LexLeTransitive(IdKeyOf(x), IdKeyOf(y), IdKeyOf(z));
      }
    }
  }

  datatype SelectError = NoDocuments

  /** `min(docs, key=_doc_sort_key)`: the first document with the smallest
      key. */
  function SelectPreferredDoc(docs: seq<Doc>): (r: Result<Doc, SelectError>)
    ensures r.Err? <==> |docs| == 0
    ensures r.Ok? ==> exists k :: (
      && 0 <= k < |docs| && docs[k] == r.value
      && (forall j :: 0 <= j < |docs| ==> DocLe(r.value, docs[j]))
      && (forall j :: 0 <= j < k ==> !DocLe(docs[j], r.value)))
  {
    if |docs| == 0 then Err(NoDocuments)
    else
      DocLeIsTotalPreorder();
      var k := FirstMin(docs, DocLe);
      Ok(docs[k])
  }

  /** The chosen document has the lowest energy above hull of all; a
      document without an energy is chosen only when no document has one. */
  lemma SelectedHasLowestEnergy(docs: seq<Doc>, j: nat)
    requires j < |docs|
    ensures var r := SelectPreferredDoc(docs);
      && r.Ok?
      && (docs[j].energyAboveHull.Some? ==>
            r.value.energyAboveHull.Some? && r.value.energyAboveHull.value <= docs[j].energyAboveHull.value)
  {
  }

  /** Of two documents at the same energy the smaller id wins, whatever
      their order; a document without an energy loses to one with. */
  lemma SelectionExample()
    ensures var a := Doc(Some("mp-2"), Some(0.1), None);
      var b := Doc(Some("mp-1"), Some(0.1), None);
      var c := Doc(Some("mp-0"), None, None);
      SelectPreferredDoc([c, a, b]) == Ok(b)
  {
    var a := Doc(Some("mp-2"), Some(0.1), None);
    var b := Doc(Some("mp-1"), Some(0.1), None);
    var c := Doc(Some("mp-0"), None, None);
    var docs := [c, a, b];
    var r := SelectPreferredDoc(docs);
    assert LexLe("mp-1", "mp-2") && !LexLe("mp-2", "mp-1");
    assert DocLe(b, a) && !DocLe(a, b) && !DocLe(c, b);
    var k :| 0 <= k < 3 && docs[k] == r.value && forall j :: 0 <= j < 3 ==> DocLe(r.value, docs[j]);
    assert DocLe(r.value, docs[2]) && DocLe(r.value, docs[1]);
  }

  /** A lower energy above hull beats any id, and a missing energy loses to
      every known one: of 0.08 (twice), 0.01 and no energy, the 0.01
      document is chosen. */
  lemma LowestEnergyWinsExample(docs: seq<Doc>)
    requires docs == [Doc(Some("mp-200"), Some(0.08), None), Doc(Some("mp-100"), Some(0.08), None),
                      Doc(Some("mp-050"), Some(0.01), None), Doc(Some("mp-999"), None, None)]
    ensures SelectPreferredDoc(docs) == Ok(docs[2])
  {
    var r := SelectPreferredDoc(docs);
    var k :| 0 <= k < |docs| && docs[k] == r.value && forall j :: 0 <= j < |docs| ==> DocLe(r.value, docs[j]);
    assert DocLe(docs[k], docs[2]);
  }

  // ---------------------------------------------------------------------
  // Slab geometry (`build_layer_structure` after selection)
  // ---------------------------------------------------------------------

  /** The mean pair distance, or 1.0 for a structure without pairs. */
  function AverageBondDistance(d: seq<real>): (r: real)
    ensures |d| == 0 ==> r == 1.0
    ensures |d| > 0 ==> r * |d| as real == Sum(d)
  {
    if |d| == 0 then 1.0 else Mean(d)
  }

  /** The c length of the slab cell. */
  function SlabHeight(n: int, c: real, avg: real, vacuum: real): (r: real)
    ensures n >= 1 && c >= 0.0 && avg >= 0.0 ==> r >= vacuum
  {
    if n == 1 then c + vacuum else avg * (n - 1) as real + vacuum
  }

  /** In-plane fractional coordinates of layer `idx`, alternating by parity;
      anything other than BCC takes the HCP branch. */
  function InPlane(t: StructureType, idx: nat): (r: (real, real))
    ensures 0.0 <= r.0 < 1.0 && 0.0 <= r.1 < 1.0
  {
    if t == BCC then (if idx % 2 == 0 then (0.25, 0.75) else (0.75, 0.25))
    else (if idx % 2 == 0 then (0.0, 0.0) else (2.0 / 3.0, 1.0 / 3.0))
  }

  /** Consecutive layers differ in their in-plane position and layers two
      apart share it. */
  lemma InPlaneAlternates(t: StructureType, idx: nat)
    ensures InPlane(t, idx) != InPlane(t, idx + 1)
    ensures InPlane(t, idx) == InPlane(t, idx + 2)
  {
  }

  /** A slab: an orthogonal lattice, one species per site, fractional sites. */
  datatype Slab = Slab(lattice: Lattice, species: seq<string>, sites: seq<Vec3>)

  function Diagonal(a: real, b: real, c: real): Lattice {
    Lattice(Vec3(a, 0.0, 0.0), Vec3(0.0, b, 0.0), Vec3(0.0, 0.0, c))
  }

  datatype LayerError =
    | Query(error: QueryError)
    | NoMatches          // the search returned no document
    | NoStructure        // the chosen document carries no structure
    | ZeroHeight         // the slab's c length is zero: `z / new_c` divides by zero

  /** The closed-form slab: `n` sites of `element` on the lattice
      diag(a, b, new_c), site `i` at height `(avg * i + vacuum / 2) / new_c`. */
  function SlabGeometry(element: string, t: StructureType, n: int, vacuum: real, base: BaseStructure): (r: Result<Slab, LayerError>)
    ensures var h := SlabHeight(n, base.c, AverageBondDistance(base.pairDistances), vacuum);
      r.Err? <==> n >= 1 && h == 0.0
    ensures r.Err? ==> r.error == ZeroHeight
    ensures r.Ok? ==>
      var h := SlabHeight(n, base.c, AverageBondDistance(base.pairDistances), vacuum);
      var avg := AverageBondDistance(base.pairDistances);
      && r.value.lattice == Diagonal(base.a, base.b, h)
      && |r.value.species| == |r.value.sites| == Max0(n)
      && (forall i :: 0 <= i < |r.value.species| ==> r.value.species[i] == element)
      && (forall i :: 0 <= i < |r.value.sites| ==>
            && h != 0.0
            && r.value.sites[i].z == LayerZ(i, avg, vacuum, h)
            && (r.value.sites[i].x, r.value.sites[i].y) == InPlane(t, i))
  {
    var avg := AverageBondDistance(base.pairDistances);
    var h := SlabHeight(n, base.c, avg, vacuum);
    if n >= 1 && h == 0.0 then Err(ZeroHeight)
    else
      var count := Max0(n);
      var sites := seq(count, i requires 0 <= i < count && h != 0.0 =>
        Vec3(InPlane(t, i).0, InPlane(t, i).1, LayerZ(i, avg, vacuum, h)));
      Ok(Slab(Diagonal(base.a, base.b, h), seq(count, _ => element), sites))
  }

  /** The fractional height of layer `i`: `(avg * i + vacuum / 2) / new_c`. */
  function LayerZ(i: nat, avg: real, vacuum: real, h: real): (z: real)
    requires h != 0.0
    ensures z * h == avg * i as real + vacuum / 2.0
  {
    (avg * i as real + vacuum / 2.0) / h
  }

  /** Layers are evenly spaced by the average bond distance. */
  lemma SlabSpacing(element: string, t: StructureType, n: int, vacuum: real, base: BaseStructure, i: nat)
    requires SlabGeometry(element, t, n, vacuum, base).Ok?
    requires i + 1 < n
    ensures var s := SlabGeometry(element, t, n, vacuum, base).value;
      (s.sites[i + 1].z - s.sites[i].z) * s.lattice.c.z == AverageBondDistance(base.pairDistances)
  {
    var s := SlabGeometry(element, t, n, vacuum, base).value;
    var avg := AverageBondDistance(base.pairDistances);
    var h := SlabHeight(n, base.c, avg, vacuum);
    var z0, z1, hc := s.sites[i].z, s.sites[i + 1].z, s.lattice.c.z;
    assert z0 == LayerZ(i, avg, vacuum, h) && z1 == LayerZ(i + 1, avg, vacuum, h) && hc == h;
    LayerStep(i, avg, vacuum, h);
  }

  /** Consecutive layer heights differ by the average bond distance. */
  lemma LayerStep(i: nat, avg: real, vacuum: real, h: real)
    requires h != 0.0
    ensures (LayerZ(i + 1, avg, vacuum, h) - LayerZ(i, avg, vacuum, h)) * h == avg
  {
    var z0, z1 := LayerZ(i, avg, vacuum, h), LayerZ(i + 1, avg, vacuum, h);
    assert (z1 - z0) * h == z1 * h - z0 * h;
    assert avg * (i + 1) as real == avg * i as real + avg;
  }

  /** With two or more layers the vacuum is split evenly: half of it lies
      below the first layer and half above the last. */
  lemma SlabCentred(element: string, t: StructureType, n: int, vacuum: real, base: BaseStructure)
    requires SlabGeometry(element, t, n, vacuum, base).Ok?
    requires n >= 2
    ensures var s := SlabGeometry(element, t, n, vacuum, base).value;
      && s.sites[0].z * s.lattice.c.z == vacuum / 2.0
      && (1.0 - s.sites[n - 1].z) * s.lattice.c.z == vacuum / 2.0
  {
    var s := SlabGeometry(element, t, n, vacuum, base).value;
    var h := s.lattice.c.z;
    assert (1.0 - s.sites[n - 1].z) * h == h - s.sites[n - 1].z * h;
  }

  /** `build_layer_structure`: check the inputs, query, select, then build
      the slab. */
  function BuildLayerStructure(element: string, t: StructureType, n: int, vacuum: real,
                               apiKey: Option<string>, materialId: Option<string>, requireStable: bool,
                               maxEnergy: Option<real>, search: SearchArgs -> seq<Doc>): (r: Result<Slab, LayerError>)
    ensures InputError(apiKey, maxEnergy).Some? ==> r == Err(Query(InputError(apiKey, maxEnergy).value))
    ensures r.Ok? ==>
      && |r.value.sites| == Max0(n)
      && forall i :: 0 <= i < |r.value.species| ==> r.value.species[i] == element
  {
    var bad := InputError(apiKey, maxEnergy);
    if bad.Some? then Err(Query(bad.value))
    else
      var docs := search(BuildSearchArgs(element, SpacegroupNumber(t), materialId, requireStable, maxEnergy));
      if |docs| == 0 then Err(NoMatches)
      else
        var chosen := SelectPreferredDoc(docs).value;
        if chosen.structure.None? then Err(NoStructure)
        else SlabGeometry(element, t, n, vacuum, chosen.structure.value)
  }

  /** `docs[k]` is what `min(docs, key=_doc_sort_key)` returns: no document
      has a smaller key and no earlier document ties with it. */
  predicate IsPreferred(docs: seq<Doc>, k: int) {
    && 0 <= k < |docs|
    && (forall j :: 0 <= j < |docs| ==> DocLe(docs[k], docs[j]))
    && (forall j :: 0 <= j < k ==> !DocLe(docs[j], docs[k]))
  }

  /** Only one position is the preferred one. */
  lemma PreferredUnique(docs: seq<Doc>, k: int, m: int)
    requires IsPreferred(docs, k) && IsPreferred(docs, m)
    ensures k == m
  {
    var dk, dm := docs[k], docs[m];
    if k != m {
      assert false;
    }
  }

  /** The documents a query returns. */
  function Found(element: string, t: StructureType, materialId: Option<string>, requireStable: bool,
                 maxEnergy: Option<real>, search: SearchArgs -> seq<Doc>): seq<Doc> {
    search(BuildSearchArgs(element, SpacegroupNumber(t), materialId, requireStable, maxEnergy))
  }

  /** What `build_layer_structure` yields: the input errors exactly when the
      inputs are invalid, "no matches" exactly when the query returns
      nothing, "no structure" exactly when the preferred document carries
      none, and otherwise the slab built on the preferred document's
      structure. */
  lemma BuildLayerStructureOutcome(element: string, t: StructureType, n: int, vacuum: real,
                                   apiKey: Option<string>, materialId: Option<string>, requireStable: bool,
                                   maxEnergy: Option<real>, search: SearchArgs -> seq<Doc>, k: int)
    ensures var r := BuildLayerStructure(element, t, n, vacuum, apiKey, materialId, requireStable, maxEnergy, search);
      var docs := Found(element, t, materialId, requireStable, maxEnergy, search);
      && (r.Err? && r.error.Query? <==> InputError(apiKey, maxEnergy).Some?)
      && (r == Err(NoMatches) <==> InputError(apiKey, maxEnergy).None? && |docs| == 0)
      && (InputError(apiKey, maxEnergy).None? && IsPreferred(docs, k) ==>
            && (r == Err(NoStructure) <==> docs[k].structure.None?)
            && (docs[k].structure.Some? ==> r == SlabGeometry(element, t, n, vacuum, docs[k].structure.value)))
    ensures var r := BuildLayerStructure(element, t, n, vacuum, apiKey, materialId, requireStable, maxEnergy, search);
      var docs := Found(element, t, materialId, requireStable, maxEnergy, search);
      r.Ok? ==> exists m :: IsPreferred(docs, m) && docs[m].structure.Some?
                  && r == SlabGeometry(element, t, n, vacuum, docs[m].structure.value)
  {
    var docs := Found(element, t, materialId, requireStable, maxEnergy, search);
    if InputError(apiKey, maxEnergy).None? && |docs| > 0 {
      var m :| 0 <= m < |docs| && docs[m] == SelectPreferredDoc(docs).value
        && (forall j :: 0 <= j < |docs| ==> DocLe(docs[m], docs[j]))
        && (forall j :: 0 <= j < m ==> !DocLe(docs[j], docs[m]));
      assert IsPreferred(docs, m);
      if IsPreferred(docs, k) {
        PreferredUnique(docs, k, m);
      }
    }
  }

  /** Invalid inputs are rejected before any query: the result does not
      depend on what the search would return. */
  lemma InputsCheckedBeforeQuery(element: string, t: StructureType, n: int, vacuum: real,
                                 apiKey: Option<string>, materialId: Option<string>, requireStable: bool,
                                 maxEnergy: Option<real>, s1: SearchArgs -> seq<Doc>, s2: SearchArgs -> seq<Doc>)
    requires apiKey.None? || (maxEnergy.Some? && maxEnergy.value < 0.0)
    ensures BuildLayerStructure(element, t, n, vacuum, apiKey, materialId, requireStable, maxEnergy, s1)
         == BuildLayerStructure(element, t, n, vacuum, apiKey, materialId, requireStable, maxEnergy, s2)
    ensures BuildLayerStructure(element, t, n, vacuum, apiKey, materialId, requireStable, maxEnergy, s1).Err?
  {
  }

  // ---------------------------------------------------------------------
  // One layer count (`_prepare_layer`)
  // ---------------------------------------------------------------------

  /** The request fields `_prepare_layer` passes on for every count. */
  datatype LayerRequest = LayerRequest(
    element: string, structureType: StructureType, vacuum: real, apiKey: Option<string>,
    materialId: Option<string>, requireStable: bool, maxEnergy: Option<real>)

  /** What `_prepare_layer` consults outside the program: the POTCAR tree
      and the Materials Project search. */
  datatype Sources = Sources(
    potcarRoot: string, pathExists: PotcarPath -> bool, read: PotcarPath -> Option<string>,
    search: SearchArgs -> seq<Doc>)

  datatype PrepareError =
    | PotcarFailed(missing: PotcarError)
    | StructureFailed(reason: LayerError)

  /** The failure points of `_prepare_layer` for one count, in its order:
      the element's POTCAR, then the layered structure. */
  function PrepareLayer(req: LayerRequest, src: Sources, n: int): (r: Result<(), PrepareError>)
    ensures r.Ok? <==>
      && BuildPotcar([req.element], src.potcarRoot, src.pathExists, src.read).Ok?
      && BuildLayerStructure(req.element, req.structureType, n, req.vacuum, req.apiKey,
           req.materialId, req.requireStable, req.maxEnergy, src.search).Ok?
    ensures r.Err? ==>
      (r.error.PotcarFailed? <==> BuildPotcar([req.element], src.potcarRoot, src.pathExists, src.read).Err?)
    ensures r.Err? && r.error.PotcarFailed? ==>
      && r.error.missing == BuildPotcar([req.element], src.potcarRoot, src.pathExists, src.read).error
      && (r.error.missing.PotcarNotFound? ==> r.error.missing.element == req.element)
      && (r.error.missing.PotcarUnreadable? ==>
            LocatePotcar(req.element, src.potcarRoot, src.pathExists) == Ok(r.error.missing.path))
    ensures r.Err? && r.error.StructureFailed? ==>
      r.error.reason == BuildLayerStructure(req.element, req.structureType, n, req.vacuum, req.apiKey,
        req.materialId, req.requireStable, req.maxEnergy, src.search).error
  {
    var potcar := BuildPotcar([req.element], src.potcarRoot, src.pathExists, src.read);
    if potcar.Err? then
      BuildPotcarFirstMissing([req.element], src.potcarRoot, src.pathExists, src.read);
      Err(PotcarFailed(potcar.error))
    else
      var slab := BuildLayerStructure(req.element, req.structureType, n, req.vacuum, req.apiKey,
                    req.materialId, req.requireStable, req.maxEnergy, src.search);
      if slab.Err? then Err(StructureFailed(slab.error)) else Ok(())
  }

  /** Without an API key a run over positive counts, whose element has a
      POTCAR, stops at its smallest count: that count's directories are
      created and its POTCAR assembled, then fetching the structure fails. */
  lemma RunStopsWithoutApiKey(base: string, structureType: string, counts: seq<int>, req: LayerRequest, src: Sources)
    requires ParseStructureType(structureType) == Some(req.structureType)
    requires req.apiKey.None?
    requires |counts| > 0 && forall i :: 0 <= i < |counts| ==> counts[i] >= 1
    requires BuildPotcar([req.element], src.potcarRoot, src.pathExists, src.read).Ok?
    ensures var prepare := n => PrepareLayer(req, src, n);
      var p := Preparations(structureType, counts);
      && |p| > 0 && (forall i :: 0 <= i < |counts| ==> p[0] <= counts[i])
      && Run(base, structureType, counts, prepare) == Err(PrepareFailed(p[0], StructureFailed(Query(MissingApiKey))))
      && Attempted(structureType, counts, prepare) == [p[0]]
  {
    var prepare := n => PrepareLayer(req, src, n);
    var p := Preparations(structureType, counts);
    FirstPreparationIsLeast(structureType, counts);
    assert prepare(p[0]) == Err(StructureFailed(Query(MissingApiKey)));
    assert FirstFailure(p, prepare) == 0;
  }

  /** Over positive counts of a supported type, the first preparation is
      the smallest count. */
  lemma FirstPreparationIsLeast(structureType: string, counts: seq<int>)
    requires ParseStructureType(structureType).Some?
    requires |counts| > 0 && forall i :: 0 <= i < |counts| ==> counts[i] >= 1
    ensures var p := Preparations(structureType, counts);
      |p| > 0 && forall i :: 0 <= i < |counts| ==> p[0] <= counts[i]
  {
    var p := Preparations(structureType, counts);
    PreparationsAreDistinctCounts(structureType, counts);
    assert counts[0] in p;
    forall i | 0 <= i < |counts| ensures p[0] <= counts[i] {
      assert counts[i] in p;
      var j :| 0 <= j < |p| && p[j] == counts[i];
      assert j == 0 || p[0] < p[j];
    }
  }
}
