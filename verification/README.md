# layer-toolkit in Dafny

A model of the computational core of layer-toolkit. The toolkit prepares
and analyses VASP calculations of layered metals. The model covers four
parts of it:

- **Bond analysis** (`Bonds`, from `layer_toolkit/analysis/bonds.py`):
  - choosing the vacuum axis and counting layers by gaps along it;
  - the supercell scaling matrix;
  - classifying each bond as in-plane or interlayer;
  - counting each bond once from either end;
  - merging bond lengths within 0.008 Angstrom into one bucket entry;
  - turning a bucket into length-sorted summaries.
- **ELF analysis** (`Elf`, from `layer_toolkit/analysis/elf.py`):
  - the grid maximum, its C-order index and its fractional and Cartesian
    position;
  - the distance to the nearest atom and the grid mean;
  - reading the ELFCAR header;
  - deriving labels from file names;
  - the directory order: integer labels first, by value, then the other
    labels as text.
- **Layer generation** (`Layers`, from `layer_toolkit/generation/layers.py`):
  - which layer counts `run` prepares, and in what order;
  - POTCAR lookup by suffix priority, and POTCAR assembly;
  - the Materials Project query arguments and the input checks that
    precede the query;
  - the deterministic choice of a document;
  - the closed-form geometry of the layered slab.
- **Job scripts** (`Jobs`, from `layer_toolkit/generation/jobs.py`):
  - the `#SBATCH` scheduler directives built from the configuration;
  - substituting the eight named fields into the job template.

Shared modules:

- `Results`: `Option`/`Result` and Python truthiness of optional strings.
- `Strings`: joining, lexicographic order, ASCII case mapping, decimal
  digits, whitespace tokens and prefixes.
- `Sorting`: a stable sort under any total preorder, and the first least
  element (Python's `sorted`, `list.sort` and `min`).
- `Geometry`: 3-vectors, lattices, numpy's `argmax`/`argmin`, `mean` and
  `frac @ lattice`.

Everything the source delegates to a library becomes a parameter or input
data:

- pymatgen neighbour lists, primitive cells, supercells and pair distances;
- the Materials Project search;
- the file system (`pathExists`, directory listings, file lines, and
  `read`, which gives no text where `read_text` raises);
- Euclidean norms, `round(x, 3)`, and `float`/`int` parsing of a token.

Contracts are stated over those parameters, so they hold whatever those
functions return. A library failure that the model does not pass back
through a parameter is listed under "## Left out".

## Model

| member | source | states |
|---|---|---|
| Geometry.ArgMax | layer_toolkit/analysis/bonds.py:46 | the index of a largest element, and the first such index: every earlier element is strictly smaller |
| Geometry.ArgMaxUnique | layer_toolkit/analysis/bonds.py:46 | those two properties determine the index, so `argmax` is characterised exactly |
| Geometry.ArgMin | layer_toolkit/analysis/elf.py:47 | the first index of a smallest element |
| Geometry.Mean | layer_toolkit/analysis/elf.py:48 | the mean times the length is the sum |
| Geometry.SumBounds | layer_toolkit/analysis/elf.py:48 | a sum lies between length × lower bound and length × upper bound |
| Sorting.SortByCorrect | layer_toolkit/analysis/bonds.py:117 | the sort is ordered by the key relation and is a permutation of its input |
| Sorting.InsertCorrect | layer_toolkit/analysis/bonds.py:117 | inserting into a sorted list keeps it sorted and adds exactly that element |
| Sorting.SortByStable | layer_toolkit/analysis/bonds.py:117 | the sort is stable: elements that tie keep their input order |
| Sorting.SortByUnique | layer_toolkit/generation/layers.py:58 | a sorted permutation without distinct ties is the sort's result, so `sorted` is determined by its specification |
| Sorting.SortedUnique | layer_toolkit/analysis/bonds.py:69 | two sorted permutations of one multiset are equal when no two distinct elements tie |
| Sorting.FirstMin | layer_toolkit/generation/layers.py:283 | `min` with a key returns the first element whose key is least |
| Strings.ConcatAppend | layer_toolkit/generation/jobs.py:34 | `"".join` distributes over list concatenation |
| Strings.ConcatEmpty | layer_toolkit/generation/jobs.py:34 | a join is empty if and only if every part is empty |
| Strings.DecimalRoundTrip | layer_toolkit/generation/layers.py:92 | reading back the decimal text of `n` gives `n` |
| Strings.LexLeTotal | layer_toolkit/generation/layers.py:293 | Python string order is total |
| Strings.LexLeTransitive | layer_toolkit/generation/layers.py:293 | Python string order is transitive |
| Strings.LexLeAntisymmetric | layer_toolkit/generation/layers.py:293 | Python string order is antisymmetric |
| Strings.Tokens | layer_toolkit/analysis/elf.py:90 | `split()` yields non-empty tokens free of Python whitespace (`str.isspace`, including the no-break and other Unicode spaces) |
| Strings.TokensKeepText | layer_toolkit/analysis/elf.py:90 | the tokens together are the line with its Python whitespace removed |
| Strings.TokensOfThreeWords | layer_toolkit/analysis/elf.py:90 | three words separated by single white-space characters split into exactly those three words |
| Strings.TokensSplitOnNoBreakSpace | layer_toolkit/analysis/elf.py:90 | "0.0\u00a00.5 0.5" splits into three tokens: a no-break space separates like a space |
| Strings.RemoveFirst | layer_toolkit/analysis/elf.py:80 | `replace(prefix, "", 1)` on a name that starts with the prefix drops exactly the prefix |
| Strings.BeforeFirst | layer_toolkit/analysis/elf.py:83 | `split(".")[0]` is the longest prefix without a '.': the whole text, or the text up to its first '.' |
| Bonds.VacuumAxis | layer_toolkit/analysis/bonds.py:46 | the lattice axis with the longest vector, the first one on a tie |
| Bonds.CountLayers | layer_toolkit/analysis/bonds.py:68-71 | at least one layer; exactly one for at most one site; otherwise never more layers than sites |
| Bonds.GapCount | layer_toolkit/analysis/bonds.py:70 | no gaps if and only if every neighbouring pair is at most the threshold apart |
| Bonds.GapCountBound | layer_toolkit/analysis/bonds.py:70 | a list of n coordinates has at most n - 1 gaps |
| Bonds.CountLayersOrderFree | layer_toolkit/analysis/bonds.py:68-71 | the count depends only on the multiset of coordinates along the axis, not on site order |
| Bonds.CountLayersOfSorted | layer_toolkit/analysis/bonds.py:69-71 | for sites already in order: one plus the number of neighbouring pairs further apart than the threshold |
| Bonds.ThreeLayerExample | tests/test_analysis_bonds.py:7-19 | sites at 2, 4 and 14 Angstrom on the vacuum axis form three layers with a 1.5 Angstrom threshold |
| Bonds.ScalingMatrix | layer_toolkit/analysis/bonds.py:74-80 | 3 on the in-plane diagonal, an all-ones vacuum row, zeros elsewhere; determinant 9, i.e. nine cells |
| Bonds.Classify | layer_toolkit/analysis/bonds.py:104-105 | interlayer if and only if the vacuum component of the displacement is the first largest in absolute value |
| Bonds.PureVacuumDisplacementIsInterlayer | layer_toolkit/analysis/bonds.py:105 | a displacement purely along the vacuum axis is interlayer |
| Bonds.MakeBondId | layer_toolkit/analysis/bonds.py:99 | a bond id is the two endpoints in ascending tuple order |
| Bonds.BondIdSymmetric | layer_toolkit/analysis/bonds.py:99-101 | both ends of a bond give the same id |
| Bonds.Increment | layer_toolkit/analysis/bonds.py:110 | existing keys keep their positions; a new key is appended with count 1 |
| Bonds.IncrementTotal | layer_toolkit/analysis/bonds.py:110 | the counts rise by exactly one in total, and the key set gains exactly the key |
| Bonds.IncrementDistinct | layer_toolkit/analysis/bonds.py:110 | keys stay distinct; a key already present is not appended again |
| Bonds.IncrementCounts | layer_toolkit/analysis/bonds.py:110 | the count of that key rises by one and every other count is unchanged |
| Bonds.ResolveKey | layer_toolkit/analysis/bonds.py:121-125 | the key has the bond's type; with no key of that type within the tolerance it is the type with the rounded length |
| Bonds.ResolveKeyFirstNear | layer_toolkit/analysis/bonds.py:122-124 | otherwise it is the first key, in insertion order, of that type within the tolerance |
| Bonds.ResolveKeyIsExistingOrFresh | layer_toolkit/analysis/bonds.py:121-125 | a resolved key is an existing key, whose length is never changed, or the fresh rounded one |
| Bonds.ResolveMergesCloseLength | tests/test_analysis_bonds.py:22-26 | 2.006 joins the interlayer key 2.000 |
| Bonds.FirstNear | layer_toolkit/analysis/bonds.py:122-123 | the first index whose key has the type and lies within the tolerance |
| Bonds.AddBond | layer_toolkit/analysis/bonds.py:109-110 | a bucket of one bond type keeps distinct keys of that type and gains exactly one count |
| Bonds.Step | layer_toolkit/analysis/bonds.py:94-110 | one inner-loop iteration keeps both buckets consistent: distinct keys, one type per bucket, one count per processed id |
| Bonds.StepSkipsOutsideCell | layer_toolkit/analysis/bonds.py:95-97 | a neighbour image outside [0, 1) in fractional coordinates changes nothing |
| Bonds.StepCountsBondOnce | layer_toolkit/analysis/bonds.py:99-102 | after a bond has been counted from one end, meeting it from the other end changes nothing |
| Bonds.StepFillsOneBucket | layer_toolkit/analysis/bonds.py:102-110 | a new bond is recorded as processed and adds one count to its classified bucket; the other bucket is untouched |
| Bonds.StepProcessed | layer_toolkit/analysis/bonds.py:96-102 | the processed set gains exactly the id of an in-cell candidate |
| Bonds.CollectFrom | layer_toolkit/analysis/bonds.py:92-110 | the loops leave the buckets consistent |
| Bonds.CollectProcessesAcceptedIds | layer_toolkit/analysis/bonds.py:92-102 | the processed set is exactly the set of ids of in-cell candidates |
| Bonds.CollectCountsDistinctBonds | layer_toolkit/analysis/bonds.py:92-112 | the two buckets' totals add up to the number of distinct in-cell bonds |
| Bonds.CollectBonds | layer_toolkit/analysis/bonds.py:83-112 | in-plane and interlayer buckets with distinct keys of their own type that count every distinct bond exactly once |
| Bonds.ToSummaries | layer_toolkit/analysis/bonds.py:115-118 | sorted by length, and a permutation of the bucket's entries |
| Bonds.ToSummariesStable | layer_toolkit/analysis/bonds.py:117 | entries of equal length keep dictionary insertion order |
| Bonds.ToSummariesKeepType | layer_toolkit/analysis/bonds.py:116 | summaries keep their bucket's bond type |
| Bonds.ToSummariesTotal | layer_toolkit/analysis/bonds.py:115-118 | the summaries' counts add up to the bucket's total |
| Bonds.CountSumPermutation | layer_toolkit/analysis/bonds.py:117 | reordering summaries keeps the sum of their counts |
| Bonds.AnalyzeStructure | layer_toolkit/analysis/bonds.py:43-65 | at least one layer; all six summary lists sorted by length; every in-plane list holds only in-plane summaries and every interlayer list only interlayer ones |
| Bonds.AnalyzeStructureCountsBonds | layer_toolkit/analysis/bonds.py:49-65 | for the cell, its primitive cell and its supercell, the in-plane and interlayer counts add up to the number of distinct in-cell bonds |
| Bonds.AnalyzeStructureCountsLayers | layer_toolkit/analysis/bonds.py:46-47 | the layer count is one plus the number of gaps over 1.5 Angstrom in any ascending arrangement of the coordinates along the longest lattice vector |
| Elf.UnravelCorrect | layer_toolkit/analysis/elf.py:41 | the row-major digits of an in-range offset lie in the grid and ravel back to it |
| Elf.Unravel | layer_toolkit/analysis/elf.py:41 | `unravel_index` gives an in-grid index that ravels back to the flat offset |
| Elf.UnravelRavel | layer_toolkit/analysis/elf.py:41 | unravelling inverts ravelling on every grid index |
| Elf.IndexToFrac | layer_toolkit/analysis/elf.py:98-99 | an in-grid index has every fractional component in [0, 1]; the origin is the fractional origin exactly for index (0, 0, 0) |
| Geometry.FracToCart | layer_toolkit/analysis/elf.py:102-103 | each Cartesian component is the fractional vector times that column of the lattice, `frac @ lattice` |
| Elf.AxisFrac | layer_toolkit/analysis/elf.py:98-99 | `i / (dim - 1)`: in [0, 1] on the grid, 0 exactly at the first point, 1 exactly at the last |
| Elf.MeanAtMostMax | layer_toolkit/analysis/elf.py:40-48 | the reported average never exceeds the reported maximum |
| Elf.CartesianAll | layer_toolkit/analysis/elf.py:45 | each atom's fractional position times the lattice |
| Elf.NearestDistance | layer_toolkit/analysis/elf.py:46-47 | at most the distance to every atom, and equal to the distance to some atom |
| Elf.Metrics | layer_toolkit/analysis/elf.py:40-48 | the maximum bounds every value; its position is that of the first maximal flat index; the shortest distance is the nearest atom's; the average is the mean and at most the maximum |
| Elf.AnalyzeElf | layer_toolkit/analysis/elf.py:36-56 | for a header lattice of three rows of three numbers: fails exactly on an empty grid, a single-point axis, no atoms, or a position that is not three numbers; otherwise gives the metrics |
| Elf.AnalyzeElfcar | layer_toolkit/analysis/elf.py:31-56 | a header failure is reported, as such, exactly when the header cannot be read; otherwise the outcome of the analysis of the loaded grid and header |
| Elf.AnalyzeElfcarIgnoresLines | layer_toolkit/analysis/elf.py:86-95 | lines 0, 1, 5 and 7 of the file never change the analysis |
| Elf.ParseReals | layer_toolkit/analysis/elf.py:90 | `list(map(float, ...))` succeeds if and only if every token parses, and then gives those values in order |
| Elf.ReadRows | layer_toolkit/analysis/elf.py:90-94 | succeeds if and only if every requested line exists and parses, giving them in order |
| Elf.ReadOrigin | layer_toolkit/analysis/elf.py:86-95 | lattice from lines 2-4, atom count from line 6's first token, that many positions from line 8; succeeds exactly when all of those exist and parse |
| Elf.ReadOriginIgnoresLines | layer_toolkit/analysis/elf.py:86-95 | lines 0, 1, 5 and 7 do not affect the result |
| Elf.ReadRowsFrame | layer_toolkit/analysis/elf.py:90-94 | reading rows depends only on the lines read |
| Elf.LabelForName | layer_toolkit/analysis/elf.py:79-83 | "bulk" for any capitalisation of bulk; otherwise the text before the first '.', after the prefix |
| Elf.LabelOfPrefixedName | layer_toolkit/analysis/elf.py:79-83 | for prefix + rest the label is rest up to its first '.' |
| Elf.LabelledLeIsTotalPreorder | layer_toolkit/analysis/elf.py:65-70 | the sort key is a total preorder |
| Elf.Matching | layer_toolkit/analysis/elf.py:62 | for a prefix without glob metacharacters, every kept name starts with the prefix, every listed such name is kept, and nothing else is |
| Elf.MatchingCounts | layer_toolkit/analysis/elf.py:62 | each name that starts with the prefix is kept as many times as it is listed; other names not at all |
| Elf.MatchingAppend | layer_toolkit/analysis/elf.py:62 | matching a + b gives the matches of a followed by those of b, so listing order is kept |
| Elf.MatchingOne | layer_toolkit/analysis/elf.py:62 | a single name is kept exactly when it starts with the prefix |
| Elf.LabelAll | layer_toolkit/analysis/elf.py:63 | each matched file paired with its label |
| Elf.OrderedLabels | layer_toolkit/analysis/elf.py:63-73 | the labelled files as a sorted permutation |
| Elf.OrderedLabelsShape | layer_toolkit/analysis/elf.py:65-73 | integer labels first, in ascending value; the other labels follow in text order |
| Elf.OrderedLabelsStable | layer_toolkit/analysis/elf.py:73 | files whose labels have equal sort keys ("2" and "02", or two names labelled "bulk") stay in listing order |
| Elf.ExampleKeys | layer_toolkit/analysis/elf.py:67-70 | "2" and "10" are integer keys; "alpha" and "bulk" are text keys |
| Elf.DirectoryOrderExample | tests/test_analysis_elf.py:45-73 | files labelled 10, 2, bulk and alpha come out as 2, 10, alpha, bulk |
| Elf.AnalyzeAll | layer_toolkit/analysis/elf.py:72-76 | on success, one result per file in order, with its label and metrics; on failure, the error of the first file whose analysis fails, every earlier one having succeeded |
| Elf.AnalyzeDirectory | layer_toolkit/analysis/elf.py:59-76 | on success, one result per matching file, in label order, each with its file's label and metrics; on failure, the first failing file's error in that order |
| Elf.AnalyzeDirectoryCoversMatches | layer_toolkit/analysis/elf.py:59-76 | on success every matching name has a result with its label and its metrics, and the results ascend by label key |
| Layers.ParseStructureType | layer_toolkit/generation/layers.py:53-55 | accepted if and only if the upper-cased name is BCC or HCP |
| Layers.ParseTypeName | layer_toolkit/generation/layers.py:22 | every type is accepted under its own name |
| Layers.SortInts | layer_toolkit/generation/layers.py:58 | ascending, and a permutation of the counts |
| Layers.Preparations | layer_toolkit/generation/layers.py:57-75 | the counts a run walks: none for an unsupported type; otherwise strictly ascending counts from the input |
| Layers.Attempted | layer_toolkit/generation/layers.py:57-75 | the counts handed to `_prepare_layer` are a prefix of the walked counts |
| Layers.Walk | layer_toolkit/generation/layers.py:57-75 | every prepared count comes from the input and was not seen before |
| Layers.WalkFailsIff | layer_toolkit/generation/layers.py:59-60 | the walk fails if and only if some count is below 1 |
| Layers.WalkFailsFirst | layer_toolkit/generation/layers.py:58-60 | on sorted counts a failure comes before any layer is prepared |
| Layers.WalkCovers | layer_toolkit/generation/layers.py:61-64 | a successful walk prepares every count it had not seen |
| Layers.WalkStrict | layer_toolkit/generation/layers.py:58-64 | on sorted counts the prepared counts strictly ascend, so there are no repeats |
| Layers.FirstFailure | layer_toolkit/generation/layers.py:58-75 | the position of the first count whose preparation raises; every earlier one succeeds |
| Layers.Run | layer_toolkit/generation/layers.py:49-77 | an unsupported type fails with its name; a count below 1 fails exactly when the type is supported and some count is below 1; a raising preparation fails with that count and its error; otherwise one path per prepared count |
| Layers.PreparationsAreDistinctCounts | layer_toolkit/generation/layers.py:57-64 | with a supported type and positive counts, the counts walked are the distinct counts, strictly ascending |
| Layers.RunOkIff | layer_toolkit/generation/layers.py:49-77 | a run succeeds if and only if the type is supported, every count is at least 1 and every count's preparation succeeds |
| Layers.RunPreparesDistinctCounts | layer_toolkit/generation/layers.py:49-77 | the counts handed to `_prepare_layer` strictly ascend and come from the input; none when the type or a count is rejected; on success every distinct count |
| Layers.RunStopsAtFirstFailure | layer_toolkit/generation/layers.py:58-75 | after a raising preparation, the earlier counts were all prepared successfully and the failing count, with its error, was handed over last; every input count below the failing one was prepared successfully |
| Layers.RunSucceeds | layer_toolkit/generation/layers.py:49-77 | a known type with positive counts whose preparations all succeed yields the prepared counts' paths |
| Layers.RunExample | layer_toolkit/generation/layers.py:49-77 | counts [3, 1, 3, 2] prepare 1, 2, 3 when no preparation raises |
| Layers.SortExample | layer_toolkit/generation/layers.py:58 | [3, 1, 3, 2] sorts to [1, 2, 3, 3] |
| Layers.WalkExample | layer_toolkit/generation/layers.py:57-64 | [1, 2, 3, 3] prepares 1, 2, 3 and skips the repeated 3 |
| Layers.LayerPaths | layer_toolkit/generation/layers.py:92 | one directory `base/str(n)` per count, in order |
| Layers.LayerPathsDistinct | layer_toolkit/generation/layers.py:92 | distinct positive counts get distinct directories |
| Layers.FirstExisting | layer_toolkit/generation/layers.py:149-152 | the first candidate that exists, or none |
| Layers.Candidates | layer_toolkit/generation/layers.py:23 | one candidate per suffix, in the order `_pv`, `_sv`, none, `_s` |
| Layers.LocatePotcar | layer_toolkit/generation/layers.py:148-153 | a found POTCAR exists under the root; a miss reports the element |
| Layers.LocatePotcarFirst | layer_toolkit/generation/layers.py:148-153 | found if and only if some suffix variant exists, and then it is the existing variant with the highest-priority suffix |
| Layers.PreferPv | layer_toolkit/generation/layers.py:23 | the `_pv` variant wins whenever it exists |
| Layers.Fetch | layer_toolkit/generation/layers.py:142-143 | one element's text: succeeds if and only if the POTCAR is located and its file can be read; a lookup miss passes on, an unreadable file is reported with its path |
| Layers.AssembleOkIff | layer_toolkit/generation/layers.py:141-145 | assembly succeeds if and only if every element's lookup and read succeed |
| Layers.BuildPotcar | layer_toolkit/generation/layers.py:136-145 | no elements give the empty text; a missing POTCAR names one of the elements; an unreadable one is the located POTCAR of one of the elements |
| Layers.BuildPotcarOkIff | layer_toolkit/generation/layers.py:136-153 | `build_potcar` succeeds if and only if every element has a POTCAR and the located file can be read as text |
| Layers.AssembleFirstMissing | layer_toolkit/generation/layers.py:141-143 | a failure carries the error of the first failing lookup or read |
| Layers.BuildPotcarFirstMissing | layer_toolkit/generation/layers.py:136-153 | a failure is at the first element whose POTCAR is missing, which it names, or cannot be read, whose path it gives; every earlier one was found and read |
| Layers.BuildPotcarSingle | layer_toolkit/generation/layers.py:136-145 | one located element gives the text of its file, or an unreadable-file error for that path |
| Layers.AssembleAppend | layer_toolkit/generation/layers.py:141-145 | the assembly of a + b is the assembly of a followed by that of b |
| Layers.BuildPotcarAppend | layer_toolkit/generation/layers.py:136-145 | the POTCAR of a + b is the POTCAR of a followed by that of b |
| Layers.InputError | layer_toolkit/generation/layers.py:169-174 | no error if and only if an API key is given and any energy limit is non-negative; a missing key is reported first |
| Layers.BuildSearchArgs | layer_toolkit/generation/layers.py:245-275 | fixed fields; query by id if and only if the id is truthy, otherwise by element and spacegroup; `is_stable` only when required; energy window (0, max) only when a maximum is given |
| Layers.SearchByIdOrByComposition | layer_toolkit/generation/layers.py:263-267 | exactly one of the two selection modes is used |
| Layers.DocLe | layer_toolkit/generation/layers.py:286-293 | a document with an energy comes before one without (`inf`); of two different energies the lower comes first |
| Layers.DocLeTiesShareKeys | layer_toolkit/generation/layers.py:286-293 | two documents tie in the key order only when their energy keys and their id keys are equal |
| Layers.DocLeIsTotalPreorder | layer_toolkit/generation/layers.py:286-293 | the `(energy, id)` key order is a total preorder |
| Layers.SelectPreferredDoc | layer_toolkit/generation/layers.py:278-283 | fails exactly on no documents; otherwise the first document with the least `(energy, id)` key |
| Layers.SelectedHasLowestEnergy | layer_toolkit/generation/layers.py:286-293 | the chosen document's energy is the lowest; a document without an energy is chosen only when none has one |
| Layers.SelectionExample | layer_toolkit/generation/layers.py:286-293 | at equal energy the smaller id wins, whatever the input order |
| Layers.LowestEnergyWinsExample | tests/test_generation_selection.py:39-48 | of energies 0.08, 0.08, 0.01 and none, the 0.01 document is chosen |
| Layers.AverageBondDistance | layer_toolkit/generation/layers.py:217-222 | the mean pair distance, or 1.0 with no pairs |
| Layers.SlabHeight | layer_toolkit/generation/layers.py:225-228 | with at least one layer and non-negative lengths, the new c length is at least the vacuum |
| Layers.InPlane | layer_toolkit/generation/layers.py:235-238 | both in-plane fractional coordinates lie in [0, 1) |
| Layers.InPlaneAlternates | layer_toolkit/generation/layers.py:235-238 | in-plane positions alternate from layer to layer |
| Layers.LayerZ | layer_toolkit/generation/layers.py:234 | the fractional height times the cell height is `avg * i + vacuum / 2` |
| Layers.LayerStep | layer_toolkit/generation/layers.py:234 | consecutive heights differ by `avg / new_c` |
| Layers.SlabGeometry | layer_toolkit/generation/layers.py:224-242 | fails exactly when there is at least one layer and the new c length is zero; otherwise an orthogonal `diag(a, b, new_c)` lattice with n sites of the element at the stated heights and alternating in-plane positions |
| Layers.SlabSpacing | layer_toolkit/generation/layers.py:228-234 | neighbouring layers are one average bond distance apart in Cartesian height |
| Layers.SlabCentred | layer_toolkit/generation/layers.py:228-234 | with at least two layers, half the vacuum lies below the first layer and half above the last |
| Layers.BuildLayerStructure | layer_toolkit/generation/layers.py:156-242 | invalid inputs fail with their error before any query; a built slab has one site of the element per layer |
| Layers.PreferredUnique | layer_toolkit/generation/layers.py:283 | only one position holds the first least document |
| Layers.BuildLayerStructureOutcome | layer_toolkit/generation/layers.py:169-242 | an input error exactly when the inputs are invalid; no matches exactly when the query returns nothing; no structure exactly when the preferred document has none; otherwise the slab built on the preferred document's structure |
| Layers.InputsCheckedBeforeQuery | layer_toolkit/generation/layers.py:169-185 | with a missing key or a negative limit, the result fails and does not depend on the search |
| Layers.PrepareLayer | layer_toolkit/generation/layers.py:100-121 | one count's preparation succeeds if and only if the element's POTCAR and the layered structure can both be built; it fails on the POTCAR exactly when `build_potcar` fails, with that error, which names the element or its located file; otherwise a structure failure carries `build_layer_structure`'s error |
| Layers.RunStopsWithoutApiKey | layer_toolkit/generation/layers.py:58-121 | without an API key, a run over positive counts whose element has a POTCAR fails at its smallest count with the missing-key error, after preparing only that count |
| Jobs.DirectiveLines | layer_toolkit/generation/jobs.py:26-32 | a partition line if and only if the partition is truthy; then an exclude line if and only if the exclusion is truthy; then each extra line plus a newline, in order |
| Jobs.Directives | layer_toolkit/generation/jobs.py:34 | the joined directives start with the partition line when the partition is truthy, and otherwise with the exclude line when the exclusion is truthy |
| Jobs.DirectivesEmpty | layer_toolkit/generation/jobs.py:26-34 | the directives are empty if and only if nothing is configured |
| Jobs.DirectivesEndInNewline | layer_toolkit/generation/jobs.py:28-32 | non-empty directives end in a newline |
| Jobs.DirectivesAppendExtra | layer_toolkit/generation/jobs.py:31-34 | one more extra line appends exactly that line and a newline |
| Jobs.DirectivesOfThree | tests/test_jobs.py:33-41 | a partition, an exclusion and one extra line give those three lines in that order |
| Jobs.DefaultHasNoDirectives | layer_toolkit/config.py:41-51 | the default scheduler produces no directives |
| Jobs.FieldNameRoundTrip | layer_toolkit/generation/jobs.py:36-45 | names and the eight fields correspond one to one |
| Jobs.Render | layer_toolkit/generation/jobs.py:36 | a failure names a placeholder of the template that is not a field; a template of literals always renders |
| Jobs.RenderJobScript | layer_toolkit/generation/jobs.py:20-45 | the script renders if and only if every placeholder of the template is one of the eight fields; a failure names such a placeholder |
| Jobs.RenderOk | layer_toolkit/generation/jobs.py:36-45 | rendering succeeds if and only if every placeholder names a field; each literal is kept and each placeholder replaced, in order |
| Jobs.RenderFirstUnknown | layer_toolkit/generation/jobs.py:36-45 | a failure names the first unknown placeholder |
| Jobs.RenderAppend | layer_toolkit/generation/jobs.py:36 | rendering two template parts one after the other gives their renderings one after the other |
| Jobs.RenderLiteral | layer_toolkit/generation/jobs.py:36 | literal text renders to itself |
| Jobs.RenderPlaceholder | layer_toolkit/generation/jobs.py:36-45 | a placeholder renders to its field's value |
| Jobs.JobScriptFields | layer_toolkit/generation/jobs.py:38-40 | `{nodes}` and `{ntasks_per_node}` become decimal counts; `{scheduler_directives}` becomes the directives |
| Jobs.NamedJobOutputs | layer_toolkit/generation/jobs.py:15-17 | a job given only a name writes to `%j.out` and `%j.err` |

## Left out

- Loading structures, ELFCARs and templates; writing POSCAR, INCAR, POTCAR and job files; `chmod`; creating directories. These are file-system effects. The model receives file contents and existence as parameters.
- `submit_job` and the `submit_jobs` flag. They run an external process.
- Network access to the Materials Project (`MPRester`). The search is a function parameter.
- pymatgen's neighbour search, fractional conversion, primitive-standard reduction, `make_supercell` and `get_distance`. They are library code; the model takes their results as data.
- Floating point. Reals are exact, so NaN, infinities, overflow and the last-bit effects of `round` are not modelled.
- Elf.Metrics: does not model the rounding of reported values to five decimals.
- Bonds.ResolveKey: `round(x, 3)` is a function parameter, so nothing is claimed about its rounding.
- A grid axis with a single point. `_index_to_frac` (elf.py:99) divides by `dim - 1` without a guard, and numpy produces NaN; the model reports `DegenerateAxis`.
- A header without atoms. The program raises: the empty position array does not multiply with the lattice (elf.py:45), and `np.min` has no distances to take (elf.py:47). The model reports `NoAtoms` and does not model which exception is raised.
- Elf.AnalyzeElf: only a lattice of three rows of three numbers is modelled. Three lattice rows of one common length k other than three are accepted by `np.array` and `np.dot` (elf.py:43-45), giving k-component Cartesian coordinates; the model reports `BadLattice` instead.
- Elf.AnalyzeElf: when several of its failures apply at once, which one is reported is not the program's exception order. A ragged lattice or position list raises inside `_read_elfcar_origin` in the program, but is reported after the grid checks in the model.
- ELFCAR headers with several species counts or a "Selective dynamics" line. `_read_elfcar_origin` (elf.py:91-94) takes the atom count from the first token of zero-based line 6 and the positions from zero-based line 8 on; the model does the same and does not interpret such headers further.
- Elf.ParseReals: Python `float` and `int` parsing are parameters. A directory label counts as an integer when it is a non-empty ASCII digit string; Python `int` also accepts signs, surrounding whitespace and underscores.
- Upper-casing of structure types and lower-casing of "bulk" cover ASCII letters only, not full Unicode case mapping.
- The order of `glob` results. The directory listing is an input, and `Elf.Matching` keeps its order. `sorted` is stable (elf.py:73), so files whose labels have equal sort keys come out in listing order (`Elf.OrderedLabelsStable`). Examples are "ELFCAR_2" and "ELFCAR_2.gz", "ELFCAR_02" and "ELFCAR_2", or "ELFCAR_BULK" and "ELFCAR_bulk". Which listing order the file system produces is not modelled.
- Elf.Matching: the glob `prefix*` is modelled as a literal prefix test. A prefix that contains glob metacharacters (`*`, `?`, `[`) matches other names in the program; `--prefix` reaches it unchanged from the command line (cli.py:178).
- Logging, including the spacegroup-mismatch warning that `_doc_spacegroup_number` feeds (layers.py:196-204).
- Layers.BuildLayerStructure:
  - Reading a document works on a record with optional fields; `_doc_get` on arbitrary objects is not modelled.
  - A structure that is not a pymatgen `Structure` is modelled as a missing structure.
  - An unknown structure type in the `_STRUCTURE_SPACEGROUPS` lookup (a `KeyError`) cannot occur, because `StructureType` is a datatype with only BCC and HCP.
- Layers.SlabGeometry: the model keeps only `a`, `b`, `c` and the pair distances of the base structure; the other lattice parameters are not used.
- Layers.Fetch: the exception `read_text` raises (layers.py:143) is not distinguished. A directory that `exists()` accepts (layers.py:151), bytes that are not UTF-8 and a denied permission all become `PotcarUnreadable` with the located path.
- Layers.PrepareLayer: only two failure points of `_prepare_layer` are modelled, POTCAR assembly and building the structure. Failures of directory creation, template reads, file writes, job-script rendering and job submission are left out. `Layers.Run` takes any preparation function, so those failures are covered by its contracts.
- Template parsing. `str.format` format specs, conversions, `{{`/`}}` escapes and positional fields are not modelled; a template enters as literal and placeholder segments.
- Settings loading (`config.py`) beyond the defaults of `SchedulerConfig`, and the CLI. They are configuration and user interface, not core logic.
- ELF hotspots. They are outside the modelled core. The metrics use the grid maximum at the first flat index holding it (elf.py:40-41), as the code does.
