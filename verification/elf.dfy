/** Electron-localisation-function metrics (`layer_toolkit/analysis/elf.py`).

    Loading the volumetric grid (pymatgen's `Elfcar`) and the file system
    are outside the model: a grid arrives as its shape plus its values
    flattened in C order, a header as its list of lines, and a directory
    as the list of its entry names. Number parsing (`float`, `int`) and the
    Euclidean norm are supplied as functions. */
module Elf {
  import opened Results
  import opened Strings
  import opened Sorting
  import opened Geometry

  // ---------------------------------------------------------------------
  // Grid shape and C-order indices
  // ---------------------------------------------------------------------

  datatype Dims = Dims(d0: nat, d1: nat, d2: nat)

  datatype GridIndex = GridIndex(i: nat, j: nat, k: nat)

  function Size(d: Dims): nat {
    d.d0 * d.d1 * d.d2
  }

  predicate InGrid(g: GridIndex, d: Dims) {
    g.i < d.d0 && g.j < d.d1 && g.k < d.d2
  }

  /** The flat C-order offset of a grid index (`np.ravel_multi_index`). */
  function Ravel(g: GridIndex, d: Dims): nat {
    (g.i * d.d1 + g.j) * d.d2 + g.k
  }

  lemma MulLeft(a: int, b: int, n: int)
    requires a <= b && n >= 0
    ensures a * n <= b * n
  {
    assert b * n - a * n == (b - a) * n;
  }

  /** Euclidean division of `q * n + r` by `n` gives back `q` and `r`. */
  lemma DivModUnique(q: int, r: int, n: int)
    requires n > 0 && 0 <= r < n && q >= 0
    ensures (q * n + r) / n == q && (q * n + r) % n == r
  {
    var a := q * n + r;
    var q', r' := a / n, a % n;
    assert a == q' * n + r';
    if q' > q {
      MulLeft(q + 1, q', n);
      assert false;
    }
    if q' < q {
      MulLeft(q' + 1, q, n);
      assert false;
    }
  }

  lemma QuotientBound(a: nat, m: nat, n: nat)
    requires n > 0 && a < m * n
    ensures a / n < m
  {
    assert a == (a / n) * n + a % n;
    if a / n >= m {
      MulLeft(m, a / n, n);
      assert false;
    }
  }

  lemma PositiveDims(d: Dims)
    requires Size(d) > 0
    ensures d.d0 > 0 && d.d1 > 0 && d.d2 > 0
  {
  }

  lemma RavelInRange(g: GridIndex, d: Dims)
    requires InGrid(g, d)
    ensures Ravel(g, d) < Size(d)
  {
    var a := g.i * d.d1 + g.j;
    MulLeft(g.i + 1, d.d0, d.d1);
    assert (g.i + 1) * d.d1 == g.i * d.d1 + d.d1;
    MulLeft(a + 1, d.d0 * d.d1, d.d2);
    assert (a + 1) * d.d2 == a * d.d2 + d.d2;
  }

  /** Row-major digits of a flat offset. */
  function RowMajor(flat: nat, d: Dims): GridIndex
    requires d.d1 > 0 && d.d2 > 0
  {
    var q := flat / d.d2;
    GridIndex(q / d.d1, q % d.d1, flat % d.d2)
  }

  lemma UnravelCorrect(flat: nat, d: Dims)
    requires flat < Size(d)
    ensures d.d1 > 0 && d.d2 > 0
    ensures InGrid(RowMajor(flat, d), d) && Ravel(RowMajor(flat, d), d) == flat
  {
    PositiveDims(d);
    var q := flat / d.d2;
    assert flat == q * d.d2 + flat % d.d2;
    QuotientBound(flat, d.d0 * d.d1, d.d2);
    assert q == (q / d.d1) * d.d1 + q % d.d1;
    QuotientBound(q, d.d0, d.d1);
  }

  /** `np.unravel_index` for a C-ordered grid. */
  function Unravel(flat: nat, d: Dims): (g: GridIndex)
    requires flat < Size(d)
    ensures InGrid(g, d)
    ensures Ravel(g, d) == flat
  {
    UnravelCorrect(flat, d);
    RowMajor(flat, d)
  }

  /** Unravelling is the inverse of ravelling on every index of the grid. */
  lemma UnravelRavel(g: GridIndex, d: Dims)
    requires InGrid(g, d)
    ensures Ravel(g, d) < Size(d) && Unravel(Ravel(g, d), d) == g
  {
    RavelInRange(g, d);
    var q := g.i * d.d1 + g.j;
    DivModUnique(q, g.k, d.d2);
    DivModUnique(g.i, g.j, d.d1);
  }

  // ---------------------------------------------------------------------
  // Fractional and Cartesian positions of grid points
  // ---------------------------------------------------------------------

  /** The fractional position of grid index `i` on an axis of `dim` points:
      `i / (dim - 1)`, so the first point is 0 and the last is 1. */
  function AxisFrac(i: nat, dim: nat): (f: real)
    requires dim > 1
    ensures f * (dim - 1) as real == i as real
    ensures i < dim ==> 0.0 <= f <= 1.0
    ensures f == 0.0 <==> i == 0
    ensures f == 1.0 <==> i == dim - 1
  {
    var f := i as real / (dim - 1) as real;
    RatioFacts(i as real, (dim - 1) as real, f);
    f
  }

  lemma RatioFacts(x: real, n: real, f: real)
    requires n > 0.0 && x >= 0.0 && f == x / n
    ensures f * n == x
    ensures x <= n ==> 0.0 <= f <= 1.0
    ensures f == 0.0 <==> x == 0.0
    ensures f == 1.0 <==> x == n
  {
    assert f * n == x;
    if f < 0.0 {
      MulStrict(f, 0.0, n);
      assert false;
    }
    if x <= n && f > 1.0 {
      MulStrict(1.0, f, n);
      assert false;
    }
  }

  lemma MulStrict(a: real, b: real, n: real)
    requires a < b && n > 0.0
    ensures a * n < b * n
  {
    assert b * n - a * n == (b - a) * n;
  }

  /** Every axis has at least two points, so `i / (dim - 1)` is defined. */
  predicate Resolvable(d: Dims) {
    d.d0 > 1 && d.d1 > 1 && d.d2 > 1
  }

  /** `_index_to_frac`. */
  function IndexToFrac(g: GridIndex, d: Dims): (r: Vec3)
    requires Resolvable(d)
    ensures InGrid(g, d) ==> 0.0 <= r.x <= 1.0 && 0.0 <= r.y <= 1.0 && 0.0 <= r.z <= 1.0
    ensures r == Vec3(0.0, 0.0, 0.0) <==> g.i == 0 && g.j == 0 && g.k == 0
  {
    Vec3(AxisFrac(g.i, d.d0), AxisFrac(g.j, d.d1), AxisFrac(g.k, d.d2))
  }

  // ---------------------------------------------------------------------
  // Grid metrics
  // ---------------------------------------------------------------------

  /** The grid mean never exceeds the grid maximum. */
  lemma MeanAtMostMax(s: seq<real>, k: nat)
    requires k < |s|
    requires forall i :: 0 <= i < |s| ==> s[i] <= s[k]
    ensures Mean(s) <= s[k]
  {
    var lo, hi := s[ArgMin(s)], s[k];
    SumBounds(s, lo, hi);
    QuotientAtMost(Mean(s), |s| as real, Sum(s), hi);
  }

  /** A quotient `m = total / n` with `total <= n * hi` is at most `hi`. */
  lemma QuotientAtMost(m: real, n: real, total: real, hi: real)
    requires n > 0.0 && m * n == total && total <= n * hi
    ensures m <= hi
  {
    if m > hi {
      MulStrict(hi, m, n);
      assert false;
    }
  }

  datatype ElfMetrics = ElfMetrics(
    maxElf: real,
    maxFrac: Vec3,
    maxCart: Vec3,
    shortestDistance: real,
    averageElf: real)

  datatype ElfError =
    | EmptyGrid          // `elf_data.max()` of an empty array
    | DegenerateAxis     // an axis with a single point: `i / (dim - 1)` has no value
    | BadLattice         // the header's lattice is not three rows of three numbers
    | NoAtoms            // the header lists no atomic position
    | BadPositions       // an atomic position is not three numbers
    | Header(error: ReadError)

  /** A header's three lattice rows as a lattice, if each has three numbers. */
  function ToLattice(rows: seq<seq<real>>): Option<Lattice> {
    if |rows| == 3 && forall r :: 0 <= r < 3 ==> |rows[r]| == 3 then
      Some(Lattice(Vec3(rows[0][0], rows[0][1], rows[0][2]),
                   Vec3(rows[1][0], rows[1][1], rows[1][2]),
                   Vec3(rows[2][0], rows[2][1], rows[2][2])))
    else None
  }

  predicate AllTriples(rows: seq<seq<real>>) {
    forall r :: 0 <= r < |rows| ==> |rows[r]| == 3
  }

  function ToVec(row: seq<real>): Vec3
    requires |row| == 3
  {
    Vec3(row[0], row[1], row[2])
  }

  /** The Cartesian positions of fractional positions. */
  function CartesianAll(fracs: seq<Vec3>, l: Lattice): (r: seq<Vec3>)
    ensures |r| == |fracs|
    ensures forall a :: 0 <= a < |fracs| ==> r[a] == FracToCart(fracs[a], l)
  {
    seq(|fracs|, a requires 0 <= a < |fracs| => FracToCart(fracs[a], l))
  }

  /** `np.min(np.linalg.norm(atoms - p, axis=1))`: the distance from `p` to
      the nearest atom. */
  function NearestDistance(atoms: seq<Vec3>, p: Vec3, norm: Vec3 -> real): (d: real)
    requires |atoms| > 0
    ensures forall a :: 0 <= a < |atoms| ==> d <= norm(Sub(atoms[a], p))
    ensures exists a :: 0 <= a < |atoms| && d == norm(Sub(atoms[a], p))
  {
    var dist := seq(|atoms|, a requires 0 <= a < |atoms| => norm(Sub(atoms[a], p)));
    var k := ArgMin(dist);
    assert forall a :: 0 <= a < |atoms| ==> dist[a] == norm(Sub(atoms[a], p));
    dist[k]
  }

  /** The arithmetic of `analyze_elfcar` once the grid and the header are
      loaded: the maximum and the first flat index holding it, its
      fractional and Cartesian position, the nearest-atom distance and the
      grid mean. */
  function Metrics(dims: Dims, values: seq<real>, l: Lattice, fracs: seq<Vec3>, norm: Vec3 -> real): (m: ElfMetrics)
    requires |values| == Size(dims) && |values| > 0
    requires Resolvable(dims)
    requires |fracs| > 0
    ensures forall i :: 0 <= i < |values| ==> values[i] <= m.maxElf
    ensures m.maxElf == values[ArgMax(values)]
    ensures m.maxFrac == IndexToFrac(Unravel(ArgMax(values), dims), dims)
    ensures m.maxCart == FracToCart(m.maxFrac, l)
    ensures forall a :: 0 <= a < |fracs| ==> m.shortestDistance <= norm(Sub(FracToCart(fracs[a], l), m.maxCart))
    ensures exists a :: 0 <= a < |fracs| && m.shortestDistance == norm(Sub(FracToCart(fracs[a], l), m.maxCart))
    ensures m.averageElf == Mean(values)
    ensures m.averageElf <= m.maxElf
  {
    var flat := ArgMax(values);
    var frac := IndexToFrac(Unravel(flat, dims), dims);
    var cart := FracToCart(frac, l);
    MeanAtMostMax(values, flat);
    ElfMetrics(values[flat], frac, cart, NearestDistance(CartesianAll(fracs, l), cart, norm), Mean(values))
  }

  /** `analyze_elfcar` after loading, for a header whose lattice is three
      rows of three numbers: an empty grid, an atom-free header or a
      malformed position row is an error, as it raises in the program; a
      single-point axis, where `i / (dim - 1)` has no value, is one too.
      Lattice rows of a common length other than three, which `np.dot`
      would still accept, are reported as `BadLattice`. */
  function AnalyzeElf(dims: Dims, values: seq<real>, origin: Origin, norm: Vec3 -> real): (r: Result<ElfMetrics, ElfError>)
    requires |values| == Size(dims)
    ensures r.Err? <==>
      |values| == 0 || !Resolvable(dims) || ToLattice(origin.lattice).None?
      || |origin.positions| == 0 || !AllTriples(origin.positions)
    ensures r.Ok? ==> r.value == Metrics(dims, values, ToLattice(origin.lattice).value,
      seq(|origin.positions|, a requires 0 <= a < |origin.positions| && AllTriples(origin.positions) => ToVec(origin.positions[a])), norm)
  {
    if |values| == 0 then Err(EmptyGrid)
    else if !Resolvable(dims) then Err(DegenerateAxis)
    else if ToLattice(origin.lattice).None? then Err(BadLattice)
    else if |origin.positions| == 0 then Err(NoAtoms)
    else if !AllTriples(origin.positions) then Err(BadPositions)
    else
      var fracs := seq(|origin.positions|, a requires 0 <= a < |origin.positions| && AllTriples(origin.positions) => ToVec(origin.positions[a]));
      Ok(Metrics(dims, values, ToLattice(origin.lattice).value, fracs, norm))
  }

  // ---------------------------------------------------------------------
  // Header reading (`_read_elfcar_origin`)
  // ---------------------------------------------------------------------

  datatype ReadError =
    | MissingLine(line: nat)     // the file has no line with this index
    | MissingToken(line: nat)    // the line is blank
    | BadNumber(line: nat)       // a token does not parse as a number

  /** `float` and `int` on a single token, failing with `None`. */
  datatype Parsers = Parsers(parseReal: string -> Option<real>, parseInt: string -> Option<int>)

  /** The lattice rows and fractional atomic positions of a header. */
  datatype Origin = Origin(lattice: seq<seq<real>>, positions: seq<seq<real>>)

  /** `list(map(float, tokens))`. */
  function ParseReals(tokens: seq<string>, parseReal: string -> Option<real>): (r: Option<seq<real>>)
    ensures r.Some? <==> forall t :: 0 <= t < |tokens| ==> parseReal(tokens[t]).Some?
    ensures r.Some? ==>
      && |r.value| == |tokens|
      && forall t :: 0 <= t < |tokens| ==> r.value[t] == parseReal(tokens[t]).value
  {
    if |tokens| == 0 then Some([])
    else
      assert forall t :: 1 <= t < |tokens| ==> tokens[1..][t - 1] == tokens[t];
      match (parseReal(tokens[0]), ParseReals(tokens[1..], parseReal))
      case (Some(x), Some(xs)) => Some([x] + xs)
      case _ => None
  }

  /** Line `i` exists and every token of it parses as a number. */
  predicate RowReadable(lines: seq<string>, i: nat, p: Parsers) {
    i < |lines| && ParseReals(Tokens(lines[i]), p.parseReal).Some?
  }

  function RowAt(lines: seq<string>, i: nat, p: Parsers): seq<real>
    requires RowReadable(lines, i, p)
  {
    ParseReals(Tokens(lines[i]), p.parseReal).value
  }

  /** Parse lines `from .. from + count - 1` in order, stopping at the first
      missing or unparsable line. */
  function ReadRows(lines: seq<string>, from: nat, count: nat, p: Parsers): (r: Result<seq<seq<real>>, ReadError>)
    ensures r.Ok? <==> forall i: nat :: from <= i < from + count ==> RowReadable(lines, i, p)
    ensures r.Ok? ==>
      && |r.value| == count
      && forall k :: 0 <= k < count ==> r.value[k] == RowAt(lines, from + k, p)
    decreases count
  {
    if count == 0 then Ok([])
    else if from >= |lines| then
      assert !RowReadable(lines, from, p);
      Err(MissingLine(from))
    else if !RowReadable(lines, from, p) then Err(BadNumber(from))
    else
      var rest := ReadRows(lines, from + 1, count - 1, p);
      if rest.Err? then rest
      else
        var r := [RowAt(lines, from, p)] + rest.value;
        assert forall k :: 1 <= k < count ==> r[k] == rest.value[k - 1];
        Ok(r)
  }

  /** The atom count: `int(lines[6].split()[0])`, if that line and token exist. */
  function AtomCount(lines: seq<string>, p: Parsers): Option<int> {
    if |lines| > 6 && |Tokens(lines[6])| > 0 then p.parseInt(Tokens(lines[6])[0]) else None
  }

  /** `_read_elfcar_origin`: lattice rows from lines 2-4, the atom count `n`
      from the first token of line 6, then `n` position rows from line 8 on
      (none when `n <= 0`). */
  function ReadOrigin(lines: seq<string>, p: Parsers): (r: Result<Origin, ReadError>)
    ensures r.Ok? <==>
      && (forall i: nat :: 2 <= i < 5 ==> RowReadable(lines, i, p))
      && AtomCount(lines, p).Some?
      && forall i: nat :: 8 <= i < 8 + Max0(AtomCount(lines, p).value) ==> RowReadable(lines, i, p)
    ensures r.Ok? ==>
      && |r.value.lattice| == 3
      && (forall k :: 0 <= k < 3 ==> r.value.lattice[k] == RowAt(lines, 2 + k, p))
      && |r.value.positions| == Max0(AtomCount(lines, p).value)
      && (forall k :: 0 <= k < |r.value.positions| ==> r.value.positions[k] == RowAt(lines, 8 + k, p))
    ensures r.Ok? ==> |lines| >= 7 && (AtomCount(lines, p).value > 0 ==> |lines| >= 8 + AtomCount(lines, p).value)
  {
    var lattice :- ReadRows(lines, 2, 3, p);
    if |lines| <= 6 then Err(MissingLine(6))
    else if |Tokens(lines[6])| == 0 then Err(MissingToken(6))
    else if p.parseInt(Tokens(lines[6])[0]).None? then Err(BadNumber(6))
    else
      var n := p.parseInt(Tokens(lines[6])[0]).value;
      var positions :- ReadRows(lines, 8, Max0(n), p);
      assert RowReadable(lines, 4, p);
      assert Max0(n) > 0 ==> RowReadable(lines, 8 + Max0(n) - 1, p);
      Ok(Origin(lattice, positions))
  }

  /** Lines 0, 1, 5 and 7 (title, scale factor, species names, the
      coordinate-mode line) are never read: changing them changes nothing. */
  lemma ReadOriginIgnoresLines(lines: seq<string>, other: seq<string>, p: Parsers)
    requires |lines| == |other|
    requires forall i :: 0 <= i < |lines| && i != 0 && i != 1 && i != 5 && i != 7 ==> lines[i] == other[i]
    ensures ReadOrigin(lines, p) == ReadOrigin(other, p)
  {
    ReadRowsFrame(lines, other, 2, 3, p);
    if AtomCount(lines, p).Some? {
      ReadRowsFrame(lines, other, 8, Max0(AtomCount(lines, p).value), p);
    }
  }

  lemma {:induction false} ReadRowsFrame(lines: seq<string>, other: seq<string>, from: nat, count: nat, p: Parsers)
    requires |lines| == |other|
    requires forall i :: from <= i < from + count && i < |lines| ==> lines[i] == other[i]
    ensures ReadRows(lines, from, count, p) == ReadRows(other, from, count, p)
    decreases count
  {
    if count == 0 {
    } else if from >= |lines| {
      assert ReadRows(lines, from, count, p) == Err(MissingLine(from));
    } else {
      var line := lines[from];
      assert line == other[from];
      if RowReadable(lines, from, p) {
        ReadRowsFrame(lines, other, from + 1, count - 1, p);
      } else {
        assert ReadRows(lines, from, count, p) == Err(BadNumber(from));
      }
    }
  }

  /** `analyze_elfcar` from the loaded grid and the file's lines: the
      header is read first, so a header failure is reported before any
      failure of the grid; then the metrics. */
  function AnalyzeElfcar(lines: seq<string>, p: Parsers, dims: Dims, values: seq<real>, norm: Vec3 -> real)
    : (r: Result<ElfMetrics, ElfError>)
    requires |values| == Size(dims)
    ensures ReadOrigin(lines, p).Err? <==> r.Err? && r.error.Header?
    ensures ReadOrigin(lines, p).Err? ==> r.error == Header(ReadOrigin(lines, p).error)
    ensures ReadOrigin(lines, p).Ok? ==> r == AnalyzeElf(dims, values, ReadOrigin(lines, p).value, norm)
  {
    var origin := ReadOrigin(lines, p);
    if origin.Err? then Err(Header(origin.error))
    else AnalyzeElf(dims, values, origin.value, norm)
  }

  /** The title, scale, species and coordinate-mode lines never change the
      outcome of an analysis. */
  lemma AnalyzeElfcarIgnoresLines(lines: seq<string>, other: seq<string>, p: Parsers, dims: Dims,
                                  values: seq<real>, norm: Vec3 -> real)
    requires |values| == Size(dims)
    requires |lines| == |other|
    requires forall i :: 0 <= i < |lines| && i != 0 && i != 1 && i != 5 && i != 7 ==> lines[i] == other[i]
    ensures AnalyzeElfcar(lines, p, dims, values, norm) == AnalyzeElfcar(other, p, dims, values, norm)
  {
    ReadOriginIgnoresLines(lines, other, p);
  }

  // ---------------------------------------------------------------------
  // Labels and directory ordering
  // ---------------------------------------------------------------------

  /** `_label_for_path`: drop the prefix, map any capitalisation of "bulk"
      to "bulk", and otherwise keep the text before the first '.'. */
  function LabelForName(name: string, prefix: string): (r: string)
    ensures '.' !in r
    ensures var stem := RemoveFirst(name, prefix);
      if Lower(stem) == "bulk" then r == "bulk"
      else StartsWith(stem, r) && (r == stem || stem[|r|] == '.')
  {
    var stem := RemoveFirst(name, prefix);
    if Lower(stem) == "bulk" || stem == "bulk" then "bulk"
    else BeforeFirst(stem, '.')
  }

  /** For a name that starts with the prefix, the label is the rest of the
      name up to its first '.'. */
  lemma LabelOfPrefixedName(prefix: string, rest: string)
    requires Lower(rest) != "bulk"
    ensures LabelForName(prefix + rest, prefix) == BeforeFirst(rest, '.')
  {
    assert StartsWith(prefix + rest, prefix) by {
      assert (prefix + rest)[..|prefix|] == prefix;
    }
    assert (prefix + rest)[|prefix|..] == rest;
  }

  /** The sort key of `analyze_directory`: integers first, by value, then
      every other label as text. A label counts as an integer when it is a
      non-empty string of ASCII digits. */
  datatype LabelKey = Numeric(value: nat) | Text(text: string)

  predicate IsNumericLabel(tag: string) {
    |tag| > 0 && IsDigits(tag)
  }

  function KeyOf(tag: string): LabelKey {
    if IsNumericLabel(tag) then Numeric(DecimalValue(tag)) else Text(tag)
  }

  predicate KeyLe(a: LabelKey, b: LabelKey) {
    match (a, b)
    case (Numeric(x), Numeric(y)) => x <= y
    case (Numeric(_), Text(_)) => true
    case (Text(_), Numeric(_)) => false
    case (Text(s), Text(t)) => LexLe(s, t)
  }

  /** A labelled file: its label and its name. */
  datatype Labelled = Labelled(tag: string, name: string)

  predicate LabelledLe(a: Labelled, b: Labelled) {
    KeyLe(KeyOf(a.tag), KeyOf(b.tag))
  }

  lemma LabelledLeIsTotalPreorder()
    ensures TotalPreorder(LabelledLe)
  {
    forall a: Labelled, b: Labelled ensures LabelledLe(a, b) || LabelledLe(b, a) {
      if KeyOf(a.tag).Text? && KeyOf(b.tag).Text? {
        LexLeTotal(a.tag, b.tag);
      }
    }
    forall a: Labelled, b: Labelled, c: Labelled | LabelledLe(a, b) && LabelledLe(b, c)
      ensures LabelledLe(a, c)
    {
      if KeyOf(a.tag).Text? && KeyOf(c.tag).Text? {
        LexLeTransitive(a.tag, b.tag, c.tag);
      }
    }
  }

  /** The names a `prefix*` glob matches. `MatchingCounts` says each is
      kept as often as it is listed, and `MatchingAppend` with
      `MatchingOne` that they keep the listing order. */
  function Matching(names: seq<string>, prefix: string): (r: seq<string>)
    ensures forall i :: 0 <= i < |r| ==> StartsWith(r[i], prefix)
    ensures forall n :: n in names && StartsWith(n, prefix) ==> n in r
    ensures forall n :: n in r ==> n in names
  {
    if |names| == 0 then []
    else (if StartsWith(names[0], prefix) then [names[0]] else []) + Matching(names[1..], prefix)
  }

  /** Every name that starts with the prefix is matched exactly as often as
      it is listed; no other name is matched. */
  lemma {:induction false} MatchingCounts(names: seq<string>, prefix: string)
    ensures forall n ::
      multiset(Matching(names, prefix))[n] == (if StartsWith(n, prefix) then multiset(names)[n] else 0)
  {
    if |names| > 0 {
      MatchingCounts(names[1..], prefix);
      assert names == [names[0]] + names[1..];
      assert multiset(names) == multiset([names[0]]) + multiset(names[1..]);
    }
  }

  /** Matching a listing in two parts matches each part, in order. */
  lemma {:induction false} MatchingAppend(a: seq<string>, b: seq<string>, prefix: string)
    ensures Matching(a + b, prefix) == Matching(a, prefix) + Matching(b, prefix)
  {
    if |a| > 0 {
      assert (a + b)[1..] == a[1..] + b;
      MatchingAppend(a[1..], b, prefix);
    } else {
      assert a + b == b;
    }
  }

  /** A single listed name is kept exactly when it starts with the prefix. */
  lemma MatchingOne(n: string, prefix: string)
    ensures Matching([n], prefix) == if StartsWith(n, prefix) then [n] else []
  {
    assert [n][1..] == [];
  }

  /** The labelled files of `analyze_directory`, sorted by label key. */
  function OrderedLabels(names: seq<string>, prefix: string): (r: seq<Labelled>)
    ensures |r| == |Matching(names, prefix)|
    ensures SortedBy(r, LabelledLe)
    ensures multiset(r) == multiset(LabelAll(Matching(names, prefix), prefix))
  {
    LabelledLeIsTotalPreorder();
    SortByCorrect(LabelAll(Matching(names, prefix), prefix), LabelledLe);
    SortBy(LabelAll(Matching(names, prefix), prefix), LabelledLe)
  }

  function LabelAll(names: seq<string>, prefix: string): (r: seq<Labelled>)
    ensures |r| == |names|
    ensures forall i :: 0 <= i < |names| ==> r[i] == Labelled(LabelForName(names[i], prefix), names[i])
  {
    seq(|names|, i requires 0 <= i < |names| => Labelled(LabelForName(names[i], prefix), names[i]))
  }

  /** In the directory order every integer label precedes every other label,
      integers ascend by value and the other labels ascend as text. */
  lemma OrderedLabelsShape(names: seq<string>, prefix: string, i: nat, j: nat)
    requires i < j < |OrderedLabels(names, prefix)|
    ensures var r := OrderedLabels(names, prefix);
      && (IsNumericLabel(r[j].tag) ==> IsNumericLabel(r[i].tag))
      && (IsNumericLabel(r[i].tag) && IsNumericLabel(r[j].tag) ==>
            DecimalValue(r[i].tag) <= DecimalValue(r[j].tag))
      && (!IsNumericLabel(r[i].tag) && !IsNumericLabel(r[j].tag) ==>
            LexLe(r[i].tag, r[j].tag))
  {
    var r := OrderedLabels(names, prefix);
    assert LabelledLe(r[i], r[j]);
  }

  /** One result per matched file, in directory order. */
  datatype LayerResult<R> = LayerResult(tag: string, metrics: R)

  /** The loop of `analyze_directory`: each file analysed in order, the
      first failure ending the loop with its error. */
  function AnalyzeAll<R, E>(files: seq<Labelled>, analyze: string -> Result<R, E>): (r: Result<seq<LayerResult<R>>, E>)
    ensures r.Ok? ==>
      && |r.value| == |files|
      && forall i :: 0 <= i < |files| ==>
           r.value[i].tag == files[i].tag && analyze(files[i].name) == Ok(r.value[i].metrics)
    ensures r.Err? ==> exists k :: FirstFailing(files, analyze, k) && analyze(files[k].name) == Err(r.error)
  {
    if |files| == 0 then Ok([])
    else match analyze(files[0].name)
      case Err(e) => Err(e)
      case Ok(m) =>
        match AnalyzeAll(files[1..], analyze)
        case Err(e) =>
          FirstFailingShift(files, analyze, e);
          Err(e)
        case Ok(rest) =>
          assert forall i :: 1 <= i < |files| ==> files[i] == files[1..][i - 1];
          Ok([LayerResult(files[0].tag, m)] + rest)
  }

  /** File `k` is the first whose analysis fails. */
  predicate FirstFailing<R, E>(files: seq<Labelled>, analyze: string -> Result<R, E>, k: int) {
    && 0 <= k < |files|
    && analyze(files[k].name).Err?
    && forall j :: 0 <= j < k ==> analyze(files[j].name).Ok?
  }

  lemma FirstFailingShift<R, E>(files: seq<Labelled>, analyze: string -> Result<R, E>, e: E)
    requires |files| > 0 && analyze(files[0].name).Ok?
    requires exists k :: FirstFailing(files[1..], analyze, k) && analyze(files[1..][k].name) == Err(e)
    ensures exists k :: FirstFailing(files, analyze, k) && analyze(files[k].name) == Err(e)
  {
    var k :| FirstFailing(files[1..], analyze, k) && analyze(files[1..][k].name) == Err(e);
    assert files[k + 1] == files[1..][k];
    forall j | 0 <= j < k + 1 ensures analyze(files[j].name).Ok? {
      if j > 0 {
        assert files[j] == files[1..][j - 1];
      }
    }
    assert FirstFailing(files, analyze, k + 1);
  }

  /** `analyze_directory`: analyse every matched file in label order; the
      first failure aborts the whole directory. */
  function AnalyzeDirectory<R, E>(names: seq<string>, prefix: string, analyze: string -> Result<R, E>): (r: Result<seq<LayerResult<R>>, E>)
    ensures var files := OrderedLabels(names, prefix);
      r.Ok? ==>
        && |r.value| == |Matching(names, prefix)|
        && forall i :: 0 <= i < |files| ==>
             r.value[i].tag == files[i].tag && analyze(files[i].name) == Ok(r.value[i].metrics)
    ensures var files := OrderedLabels(names, prefix);
      r.Err? ==> exists k :: FirstFailing(files, analyze, k) && analyze(files[k].name) == Err(r.error)
  {
    AnalyzeAll(OrderedLabels(names, prefix), analyze)
  }

  /** A completed directory analysis has one result for every matched name,
      labelled as that name, carrying that name's metrics, and the results
      run in label order: integer labels first and ascending, then the
      other labels as text. */
  lemma AnalyzeDirectoryCoversMatches<R, E>(names: seq<string>, prefix: string, analyze: string -> Result<R, E>)
    ensures var r := AnalyzeDirectory(names, prefix, analyze);
      r.Ok? ==>
        && (forall n :: n in names && StartsWith(n, prefix) ==>
              exists i :: 0 <= i < |r.value| && r.value[i].tag == LabelForName(n, prefix)
                          && analyze(n) == Ok(r.value[i].metrics))
        && (forall i, j :: 0 <= i < j < |r.value| ==> KeyLe(KeyOf(r.value[i].tag), KeyOf(r.value[j].tag)))
  {
    var r := AnalyzeDirectory(names, prefix, analyze);
    if r.Ok? {
      var files := OrderedLabels(names, prefix);
      var labelled := LabelAll(Matching(names, prefix), prefix);
      forall n | n in names && StartsWith(n, prefix)
        ensures exists i :: 0 <= i < |r.value| && r.value[i].tag == LabelForName(n, prefix)
                            && analyze(n) == Ok(r.value[i].metrics)
      {
        var m :| 0 <= m < |Matching(names, prefix)| && Matching(names, prefix)[m] == n;
        assert labelled[m] in multiset(files);
        var i :| 0 <= i < |files| && files[i] == labelled[m];
      }
      forall i, j | 0 <= i < j < |r.value| ensures KeyLe(KeyOf(r.value[i].tag), KeyOf(r.value[j].tag)) {
        assert LabelledLe(files[i], files[j]);
      }
    }
  }

  /** `sorted` is stable: files whose labels have equal sort keys ("2" and
      "02", or the labels of "2" and "2.gz") stay in listing order. */
  lemma OrderedLabelsStable(names: seq<string>, prefix: string, x: Labelled)
    ensures Ties(OrderedLabels(names, prefix), x, LabelledLe)
         == Ties(LabelAll(Matching(names, prefix), prefix), x, LabelledLe)
  {
    LabelledLeIsTotalPreorder();
    SortByStable(LabelAll(Matching(names, prefix), prefix), x, LabelledLe);
  }

  /** The default file-name prefix of `analyze_directory`. */
  const DefaultPrefix: string := "ELFCAR_"

  lemma StartsWithConcat(p: string, x: string)
    ensures StartsWith(p + x, p)
    ensures RemoveFirst(p + x, p) == x
  {
    assert (p + x)[..|p|] == p;
    assert (p + x)[|p|..] == x;
  }

  /** Four files named with the same prefix, as a directory listing. */
  function ExampleNames(p: string): seq<string> {
    [p + "10", p + "2", p + "bulk", p + "alpha"]
  }

  lemma ExampleMatching(p: string)
    ensures Matching(ExampleNames(p), p) == ExampleNames(p)
  {
    var names := ExampleNames(p);
    StartsWithConcat(p, "10");
    StartsWithConcat(p, "2");
    StartsWithConcat(p, "bulk");
    StartsWithConcat(p, "alpha");
    var t1, t2, t3 := names[1..], names[2..], names[3..];
    assert t1 == [p + "2", p + "bulk", p + "alpha"] && t1[1..] == t2;
    assert t2 == [p + "bulk", p + "alpha"] && t2[1..] == t3;
    assert t3 == [p + "alpha"] && t3[1..] == [];
    assert Matching(t3, p) == t3;
    assert Matching(t2, p) == t2;
    assert Matching(t1, p) == t1;
  }

  lemma ExampleLabelOf(p: string, rest: string)
    requires rest in ["10", "2", "bulk", "alpha"]
    ensures LabelForName(p + rest, p) == rest
  {
    StartsWithConcat(p, rest);
    if rest != "bulk" {
      assert |Lower(rest)| != 4;
      assert BeforeFirst(rest, '.') == rest;
    }
  }

  lemma LabelAllOfFour(a: string, b: string, c: string, d: string, p: string)
    ensures LabelAll([a, b, c, d], p) ==
      [Labelled(LabelForName(a, p), a), Labelled(LabelForName(b, p), b),
       Labelled(LabelForName(c, p), c), Labelled(LabelForName(d, p), d)]
  {
    var l := LabelAll([a, b, c, d], p);
    assert l == [l[0], l[1], l[2], l[3]];
  }

  lemma ExampleLabels(p: string)
    ensures LabelAll(Matching(ExampleNames(p), p), p) ==
      [Labelled("10", p + "10"), Labelled("2", p + "2"),
       Labelled("bulk", p + "bulk"), Labelled("alpha", p + "alpha")]
  {
    ExampleMatching(p);
    LabelAllOfFour(p + "10", p + "2", p + "bulk", p + "alpha", p);
    ExampleLabelOf(p, "10");
    ExampleLabelOf(p, "2");
    ExampleLabelOf(p, "bulk");
    ExampleLabelOf(p, "alpha");
  }

  lemma ExampleKeys()
    ensures KeyOf("2") == Numeric(2) && KeyOf("10") == Numeric(10)
    ensures KeyOf("alpha") == Text("alpha") && KeyOf("bulk") == Text("bulk")
  {
    assert DecimalValue("10") == 10 by {
      assert "10"[..1] == "1";
    }
    assert !IsDigit("alpha"[0]) && !IsDigit("bulk"[0]);
  }

  /** A list whose keys strictly ascend is sorted, and no two of its
      elements tie. */
  lemma StrictlyAscending(s: seq<Labelled>)
    requires forall i :: 0 <= i < |s| - 1 ==> KeyLe(KeyOf(s[i].tag), KeyOf(s[i + 1].tag)) && !KeyLe(KeyOf(s[i + 1].tag), KeyOf(s[i].tag))
    ensures SortedBy(s, LabelledLe)
    ensures forall i, j :: 0 <= i < |s| && 0 <= j < |s| && LabelledLe(s[i], s[j]) && LabelledLe(s[j], s[i]) ==> s[i] == s[j]
  {
    LabelledLeIsTotalPreorder();
    assert forall i, j :: 0 <= i < j < |s| ==> LabelledLe(s[i], s[j]) && !LabelledLe(s[j], s[i]) by {
      forall i, j | 0 <= i < j < |s|
        ensures LabelledLe(s[i], s[j]) && !LabelledLe(s[j], s[i])
      {
        StrictStep(s, i, j);
      }
    }
  }

  lemma {:induction false} StrictStep(s: seq<Labelled>, i: nat, j: nat)
    requires forall i :: 0 <= i < |s| - 1 ==> KeyLe(KeyOf(s[i].tag), KeyOf(s[i + 1].tag)) && !KeyLe(KeyOf(s[i + 1].tag), KeyOf(s[i].tag))
    requires i < j < |s|
    ensures LabelledLe(s[i], s[j]) && !LabelledLe(s[j], s[i])
    decreases j - i
  {
    LabelledLeIsTotalPreorder();
    if j > i + 1 {
      StrictStep(s, i + 1, j);
    }
  }

  function ExpectedOrder(p: string): seq<Labelled> {
    [Labelled("2", p + "2"), Labelled("10", p + "10"),
     Labelled("alpha", p + "alpha"), Labelled("bulk", p + "bulk")]
  }

  lemma ExpectedOrderAscends(p: string)
    ensures SortedBy(ExpectedOrder(p), LabelledLe)
    ensures forall i, j ::
      (0 <= i < |ExpectedOrder(p)| && 0 <= j < |ExpectedOrder(p)|
       && LabelledLe(ExpectedOrder(p)[i], ExpectedOrder(p)[j]) && LabelledLe(ExpectedOrder(p)[j], ExpectedOrder(p)[i]))
      ==> ExpectedOrder(p)[i] == ExpectedOrder(p)[j]
  {
    ExampleKeys();
    assert LexLe("alpha", "bulk") && !LexLe("bulk", "alpha");
    StrictlyAscending(ExpectedOrder(p));
  }

  lemma SwapPairs<T>(a: T, b: T, c: T, d: T)
    ensures multiset([a, b, c, d]) == multiset([b, a, d, c])
  {
  }

  lemma ExampleIsPermutation(p: string)
    ensures multiset(ExpectedOrder(p)) == multiset(LabelAll(Matching(ExampleNames(p), p), p))
  {
    var e := ExpectedOrder(p);
    ExampleLabels(p);
    SwapPairs(e[1], e[0], e[3], e[2]);
  }

  /** Whatever the prefix, files labelled "10", "2", "bulk" and "alpha" are
      ordered "2", "10", "alpha", "bulk": integers first and by value (so
      "2" precedes "10"), then the other labels as text. */
  lemma DirectoryOrderExample(p: string)
    ensures OrderedLabels(ExampleNames(p), p) == ExpectedOrder(p)
  {
    ExampleIsPermutation(p);
    ExpectedOrderAscends(p);
    LabelledLeIsTotalPreorder();
    SortByUnique(ExpectedOrder(p), LabelAll(Matching(ExampleNames(p), p), p), LabelledLe);
  }
}
