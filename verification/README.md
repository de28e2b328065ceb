# Dihedral scan parser, modelled in Dafny

`dihed_parser.py` collects the energies of a dihedral-angle scan. The scan has one
directory per angle. For quantum (QM) scans each directory holds a Psi4 output with
a `Final energy` line. For molecular-mechanics (MM) scans each directory holds a NAMD
log with `ENERGY:` lines. The parser does four things:

- it sorts the per-angle files by a natural key (`numericalSort`);
- it reads the angle from each file's path and the energy from the marker line;
- it caches the pairs in a two-column summary file, and reads that file back on a
  later call instead of scanning again;
- it turns the energies into relative energies above the lowest one. QM energies
  are converted from Hartree to kcal/mol. MM energies can first have a harmonic
  dihedral-restraint energy subtracted; it is computed from a log of measured angles.

The model is pure. A file is its path and its lines, the directory listing is a
parameter, and an exception is a `Failure` carrying the kind of error Python
would raise. The modules follow the program:

| module | models |
|---|---|
| `Wrappers`, `PyErrors` | `Option`/`Result` and the Python error kinds met on the way |
| `PyText` | `in`, `startswith`, `str.split(sep)`, `str.split()`, `strip()`, `re.sub(' +', ' ', s)` |
| `Numerals` | `int()` and `float()` on decimal text, `str()` of an integer and of a decimal |
| `NaturalSort` | `numericalSort`, Python's list comparison, and the stable `sorted(..., key=numericalSort)` |
| `Glob` | the paths `glob` returns under the scan root, and the angle rule `path.split(root)[1].split('/')[0]` |
| `Catalog` | `read_summary`, `cat_qm` and `cat_mm` (one `Format` parameter covers both) and the summary cache |
| `Restraint` | `subtract_restraint` |
| `Relative` | the arithmetic of `process_plot_qm` and `process_plot_mm`, and the size check of the plot's `scatter` |

Three behaviours of the code are easy to misread:

- `cat_qm` keeps the **last** `Final energy` line of a file. Every
  marker line overwrites the slot and writes one more summary row. `cat_mm` walks
  the reversed lines and breaks, so it also keeps the last marker line, but writes
  only one row.
- `subtract_restraint` shifts the first measured angle by −360 whenever its absolute
  value exceeds 5, so 358 becomes −2.
- The energy is field 3 (QM) or 13 (MM) of `re.sub(' +', ' ', line).split(' ')`.
  That counts an empty field in front when the line starts with a space, and only
  U+0020 runs are collapsed: a tab stays inside a field.

The angle rule is modelled literally. When the root is given without a trailing
`/`, the text after it in every globbed path starts with `/`, so the angle read is
the empty text, and `float` of it raises `ValueError` at the first marker line
unless the energy field raises first (`Catalog.RootWithoutSlashFails`). Only
a root with one trailing `/` gives the angle directory's name.

## Model

| member | source | states |
|---|---|---|
| NaturalSort.DigitSplitConcat | 02_analysis/02_parse-diheds/dihed_parser.py:31-32 | the pieces of `re.split(r'(\d+)', path)` joined back give the path |
| NaturalSort.DigitSplitShape | 02_analysis/02_parse-diheds/dihed_parser.py:31-32 | the split alternates digit-free texts and maximal non-empty digit runs, beginning and ending with a text |
| NaturalSort.DigitSplitUnique | 02_analysis/02_parse-diheds/dihed_parser.py:31-32 | any sequence of that shape that joins back to the path is the split, so the split is determined by the path |
| NaturalSort.DigitSplit | 02_analysis/02_parse-diheds/dihed_parser.py:31-32 | `re.split(r'(\d+)', path)` has at least one piece; `DigitSplitConcat`, `DigitSplitShape` and `DigitSplitUnique` specify it |
| NaturalSort.Parts | 02_analysis/02_parse-diheds/dihed_parser.py:33 | the odd positions become the integer value of their digit run; the even positions stay text |
| NaturalSort.SortKeyShape | 02_analysis/02_parse-diheds/dihed_parser.py:24-35 | every key alternates text and number, starting with text, with the split's texts in place |
| NaturalSort.SortKeyOfFive | 02_analysis/02_parse-diheds/dihed_parser.py:26-35 | the key of `5` is `['', 5, '']`, not `['5']` as the docstring says |
| NaturalSort.SortKeyAround | 02_analysis/02_parse-diheds/dihed_parser.py:31-35 | the key of a path with a bounded digit run is the key of the text before it, the run's number, and the key of the text after it |
| NaturalSort.SortKey | 02_analysis/02_parse-diheds/dihed_parser.py:24-35 | `numericalSort` is the split with its odd pieces turned into numbers; `SortKeyShape`, `SortKeyAround`, `SortKeyOfFive` and `SortKeyAtRun` specify it |
| NaturalSort.SortKeyAtRun | 02_analysis/02_parse-diheds/dihed_parser.py:72 | two paths that differ in one bounded digit run sort by the run's value (`10` after `9`), in both directions |
| NaturalSort.KeyLessIrreflexive | 02_analysis/02_parse-diheds/dihed_parser.py:72 | no key sorts before itself |
| NaturalSort.KeyLessTransitive | 02_analysis/02_parse-diheds/dihed_parser.py:72 | list comparison of keys is transitive |
| NaturalSort.KeyLessTotal | 02_analysis/02_parse-diheds/dihed_parser.py:72 | keys whose kinds line up are ordered one way or the other, or are equal, so sorting never compares a text with a number |
| NaturalSort.KeyLessCommonPrefix | 02_analysis/02_parse-diheds/dihed_parser.py:72 | a common prefix does not change how two keys compare |
| NaturalSort.KeyLessAtNumber | 02_analysis/02_parse-diheds/dihed_parser.py:72 | keys that differ only in a leading number compare as the numbers do |
| NaturalSort.KeyLess | 02_analysis/02_parse-diheds/dihed_parser.py:72 | Python's `<` on keys; `KeyLessIrreflexive`, `KeyLessTransitive`, `KeyLessTotal`, `KeyLessCommonPrefix` and `KeyLessAtNumber` specify it |
| NaturalSort.SortKeyWellKeyed | 02_analysis/02_parse-diheds/dihed_parser.py:72 | every path's key has the alternating shape, so any two keys can be compared |
| NaturalSort.Insert | 02_analysis/02_parse-diheds/dihed_parser.py:72 | an insertion step adds exactly one element to the multiset |
| NaturalSort.SortBy | 02_analysis/02_parse-diheds/dihed_parser.py:72 | `sorted` returns a permutation of its input |
| NaturalSort.SortBySorted | 02_analysis/02_parse-diheds/dihed_parser.py:72 | `sorted` returns its elements in key order |
| NaturalSort.SortByStable | 02_analysis/02_parse-diheds/dihed_parser.py:72 | elements with the same key keep their input order |
| NaturalSort.SortPathsSorted | 02_analysis/02_parse-diheds/dihed_parser.py:72 | sorted paths are in `numericalSort` order |
| NaturalSort.SortPathsStable | 02_analysis/02_parse-diheds/dihed_parser.py:72 | paths with the same key keep the order `glob` listed them in |
| PyText.FindFrom | 02_analysis/02_parse-diheds/dihed_parser.py:90 | the reported index is an occurrence with none before it, and none means no occurrence at all, as `in` needs |
| PyText.Split | 02_analysis/02_parse-diheds/dihed_parser.py:91 | `s.split(sep)` has at least one piece, its pieces joined by `sep` give `s`, and no piece contains `sep`; `SplitLeftmost` and `SplitUnique` pin down where it cuts |
| PyText.SplitLeftmost | 02_analysis/02_parse-diheds/dihed_parser.py:91 | `s.split(sep)` cuts each piece at the first occurrence of `sep` in what is left of the text |
| PyText.SplitUnique | 02_analysis/02_parse-diheds/dihed_parser.py:91 | pieces that join back to the text, are cut at the first remaining occurrence each time, and end in a piece without `sep` are the split, so the split is determined by the text |
| PyText.SplitOverlapping | 02_analysis/02_parse-diheds/dihed_parser.py:91 | with a separator that overlaps itself the leftmost cut wins: `'aaa'.split('aa')` is `['', 'a']` |
| PyText.SplitOn | 02_analysis/02_parse-diheds/dihed_parser.py:91 | splitting raises `ValueError` exactly when the separator is empty |
| PyText.SplitJoin | 02_analysis/02_parse-diheds/dihed_parser.py:91 | splitting on one character undoes joining on it when no piece holds that character |
| PyText.CollapseNoDouble | 02_analysis/02_parse-diheds/dihed_parser.py:92 | after `re.sub(' +', ' ', line)` no two spaces are adjacent |
| PyText.CollapseKeepsText | 02_analysis/02_parse-diheds/dihed_parser.py:92 | apart from spaces, collapsing adds, drops and reorders nothing |
| PyText.CollapseFixpoint | 02_analysis/02_parse-diheds/dihed_parser.py:92 | collapsing leaves a line unchanged exactly when it has no double space |
| PyText.CollapseIdempotent | 02_analysis/02_parse-diheds/dihed_parser.py:92 | collapsing twice is collapsing once |
| PyText.CollapseSpaces | 02_analysis/02_parse-diheds/dihed_parser.py:92 | `re.sub(' +', ' ', s)` is never longer than `s`, is empty only when `s` is, and keeps the first character; `CollapseRun`, `CollapseUnspacedPrefix`, `CollapseNoDouble`, `CollapseKeepsText`, `CollapseFixpoint` and `CollapseIdempotent` specify it |
| PyText.CollapseRun | 02_analysis/02_parse-diheds/dihed_parser.py:92 | a whole run of spaces, however long, becomes exactly one space |
| PyText.CollapseUnspacedPrefix | 02_analysis/02_parse-diheds/dihed_parser.py:92 | a prefix without spaces passes through collapsing unchanged |
| PyText.SplitWhitespaceWords | 02_analysis/02_parse-diheds/dihed_parser.py:42 | every word of `line.split()` is non-empty and holds no whitespace |
| PyText.SplitWhitespaceSquash | 02_analysis/02_parse-diheds/dihed_parser.py:42 | the words of `line.split()` hold exactly the line's non-whitespace characters, in order |
| PyText.SplitWhitespacePair | 02_analysis/02_parse-diheds/dihed_parser.py:42 | two words with whitespace between and after them split into those two words |
| PyText.SplitWhitespace | 02_analysis/02_parse-diheds/dihed_parser.py:42 | `line.split()`; `SplitWhitespaceWords`, `SplitWhitespaceSquash` and `SplitWhitespacePair` specify it |
| PyText.StripIsSlice | 02_analysis/02_parse-diheds/dihed_parser.py:43 | what `float()` and `int()` strip is whitespace on either side of a slice of the text |
| PyText.Strip | 02_analysis/02_parse-diheds/dihed_parser.py:43 | `strip()` is never longer than the text and neither starts nor ends with whitespace; `StripIsSlice` says what it removes |
| Numerals.ParseIntText | 02_analysis/02_parse-diheds/dihed_parser.py:181 | `int()` reads `str(i)` back as `i` |
| Numerals.ParseNumeralText | 02_analysis/02_parse-diheds/dihed_parser.py:43-44 | `float()` reads a rendered decimal back as the value it denotes |
| Numerals.ParseFloatIntText | 02_analysis/02_parse-diheds/dihed_parser.py:94 | `float()` reads `str(i)` back as `i` |
| Numerals.FloatTextHasDigit | 02_analysis/02_parse-diheds/dihed_parser.py:92 | whatever `float()` accepts holds at least one decimal digit |
| Numerals.EmptyIsNotFloat | 02_analysis/02_parse-diheds/dihed_parser.py:94 | `float('')` raises, which is what the angle rule's empty text meets |
| Numerals.ParseFloat | 02_analysis/02_parse-diheds/dihed_parser.py:43-44 | `float()` of a text; `ParseNumeralText`, `ParseFloatIntText`, `FloatTextHasDigit` and `EmptyIsNotFloat` specify it |
| Numerals.ParseInt | 02_analysis/02_parse-diheds/dihed_parser.py:181 | `int()` of a text; `ParseIntText` specifies it |
| Glob.AngleSegment | 02_analysis/02_parse-diheds/dihed_parser.py:91 | the angle rule raises `ValueError` for an empty root and `IndexError` when the path does not contain the root; otherwise the angle has no `/` |
| Glob.SplitCount | 02_analysis/02_parse-diheds/dihed_parser.py:91 | `path.split(root)` has a second piece exactly when the root occurs in the path |
| Glob.FirstSegment | 02_analysis/02_parse-diheds/dihed_parser.py:91 | `.split('/')[0]` of a name followed by a new path component is that name |
| Glob.AngleWithoutSlash | 02_analysis/02_parse-diheds/dihed_parser.py:91 | with a root given without a trailing `/`, the angle read from every globbed path is the empty text |
| Glob.AngleWithSlash | 02_analysis/02_parse-diheds/dihed_parser.py:91 | with a root given with one trailing `/`, the angle read from a globbed path is the angle directory's name, unless the root also occurs inside it |
| Glob.AngleAfterRoot | 02_analysis/02_parse-diheds/dihed_parser.py:91 | a path that starts with the root and holds no second occurrence of it gives the name after the root, up to the first `/` |
| Glob.AngleOverlappingRoot | 02_analysis/02_parse-diheds/dihed_parser.py:91 | a root that overlaps itself is cut at its first occurrence: root `a/b/a/` and path `a/b/a/b/a/out.dat` give the angle `b` |
| Glob.GlobPath | 02_analysis/02_parse-diheds/dihed_parser.py:72 | the path `glob` returns for an angle directory under the root; `AngleWithoutSlash`, `AngleWithSlash` and `RootWithoutSlashFails` specify what the angle rule reads from it |
| Catalog.Field | 02_analysis/02_parse-diheds/dihed_parser.py:92 | the energy field raises `IndexError` when it is missing, and holds no space |
| Catalog.FieldOfJoin | 02_analysis/02_parse-diheds/dihed_parser.py:92 | on a line of words separated by single spaces, the field rule gives word `n`, or `IndexError` exactly when there are not `n + 1` words |
| Catalog.CollapseSpread | 02_analysis/02_parse-diheds/dihed_parser.py:92 | collapsing a line of words separated by runs of spaces gives the words joined by single spaces |
| Catalog.FieldOfSpread | 02_analysis/02_parse-diheds/dihed_parser.py:92 | on a line of words separated by non-empty runs of spaces, the field rule gives word `n`, or `IndexError` exactly when there are not `n + 1` words |
| Catalog.Canonical | 02_analysis/02_parse-diheds/dihed_parser.py:96 | the numeral written to the summary keeps the value and has whole digits |
| Catalog.ReadHit | 02_analysis/02_parse-diheds/dihed_parser.py:90-95 | a marker line is read exactly when the angle rule, the field rule, `float` of the field and `float` of the angle all succeed; then the angle and energy are those values, and the energy text reads back as the energy |
| Catalog.RootWithoutSlashFails | 02_analysis/02_parse-diheds/dihed_parser.py:90-95 | with a root given without a trailing `/`, reading any marker line of any globbed file raises; when the field is read, the error is `float('')`'s `ValueError` |
| Catalog.HitReadable | 02_analysis/02_parse-diheds/dihed_parser.py:94-96 | a hit whose angle text has no whitespace is written as a row that reads back exactly |
| Catalog.ReadAllRows | 02_analysis/02_parse-diheds/dihed_parser.py:41-44 | the read loop succeeds exactly when every line is read, and then row `i` holds line `i`'s values |
| Catalog.ReadRow | 02_analysis/02_parse-diheds/dihed_parser.py:42-44 | one summary line read as two floats; `ReadAllRows`, `RowRoundTrip` and `ReadSummaryRows` specify it |
| Catalog.ReadSummary | 02_analysis/02_parse-diheds/dihed_parser.py:37-47 | `read_summary` gives one angle and one energy per line; `ReadSummaryRows` and `RowsRoundTrip` specify it |
| Catalog.ReadSummaryRows | 02_analysis/02_parse-diheds/dihed_parser.py:37-47 | `read_summary` succeeds exactly when every line has two float fields, and returns them column by column in line order |
| Catalog.RowWords | 02_analysis/02_parse-diheds/dihed_parser.py:96 | a written row `angle\tenergy\n` splits into its two words |
| Catalog.RowRoundTrip | 02_analysis/02_parse-diheds/dihed_parser.py:96 | a written row reads back as the angle and energy it was written from |
| Catalog.RowsRoundTrip | 02_analysis/02_parse-diheds/dihed_parser.py:37-47 | a summary written from readable hits reads back as their angles and energies, in order |
| Catalog.ReverseIndex | 02_analysis/02_parse-diheds/dihed_parser.py:137 | `reversed` keeps the length and puts line `k` from the end at position `k` |
| Catalog.MarkersIn | 02_analysis/02_parse-diheds/dihed_parser.py:90 | a line is a marker line of the file exactly when it is one of its lines and carries the marker |
| Catalog.HitsOfAll | 02_analysis/02_parse-diheds/dihed_parser.py:89-95 | reading marker lines raises nothing exactly when every one is read, and then gives one hit per line, in order |
| Catalog.RecordAllClosed | 02_analysis/02_parse-diheds/dihed_parser.py:94-96 | recording hits leaves the slot holding the last of them, every other slot as it was, and one more row per hit |
| Catalog.QmLinesHits | 02_analysis/02_parse-diheds/dihed_parser.py:89-96 | the QM loop over a file records every marker line in order and stops at the first that raises |
| Catalog.QmLines | 02_analysis/02_parse-diheds/dihed_parser.py:89-96 | the QM inner loop keeps the array lengths; `QmLinesHits` specifies it |
| Catalog.MmLinesHits | 02_analysis/02_parse-diheds/dihed_parser.py:137-145 | the MM loop over the reversed lines records the file's last marker line and only that one |
| Catalog.MmLines | 02_analysis/02_parse-diheds/dihed_parser.py:137-145 | the MM inner loop keeps the array lengths; `MmLinesHits` specifies it |
| Catalog.ScanFileHits | 02_analysis/02_parse-diheds/dihed_parser.py:86-96 | either inner loop records the hits of the file's chosen marker lines |
| Catalog.ChosenHits | 02_analysis/02_parse-diheds/dihed_parser.py:135-145 | a file raises exactly when one of its chosen lines does; otherwise it gives one hit per marker line for QM and at most one for MM, each read from its line |
| Catalog.SlotOfMarkers | 02_analysis/02_parse-diheds/dihed_parser.py:135-145 | a file's slot holds the values of its last marker line, or stays zero when it has none |
| Catalog.FileStepRecords | 02_analysis/02_parse-diheds/dihed_parser.py:86-96 | each step of the outer loop records its file's hits and error |
| Catalog.RecordFile | 02_analysis/02_parse-diheds/dihed_parser.py:94-96 | after a file: its slot is its last hit or zero, later slots are still zero, other slots are unchanged, and its rows follow the earlier ones |
| Catalog.LoopError | 02_analysis/02_parse-diheds/dihed_parser.py:86-96 | the outer loop ends without an error exactly when no file raises |
| Catalog.LoopTables | 02_analysis/02_parse-diheds/dihed_parser.py:86-96 | after the outer loop every slot holds its file's last hit or zero, and the summary holds every hit's row in file order |
| Catalog.Loop | 02_analysis/02_parse-diheds/dihed_parser.py:86-96 | the outer loop over the sorted files; `LoopError`, `LoopTables`, `LoopColumns` and `LoopReplays` specify it |
| Catalog.CatFromCache | 02_analysis/02_parse-diheds/dihed_parser.py:77-81 | with an existing summary file the call returns `read_summary` of it, whatever the angle files hold, and writes nothing |
| Catalog.CatOrder | 02_analysis/02_parse-diheds/dihed_parser.py:72 | the files are scanned in a permutation of the glob's order that is sorted by `numericalSort` and stable |
| Catalog.FreshScan | 02_analysis/02_parse-diheds/dihed_parser.py:72-97 | without a summary file the scan succeeds exactly when no file raises; then there is one slot per file with its last hit or zero, and the summary holds one row per hit |
| Catalog.CatScan | 02_analysis/02_parse-diheds/dihed_parser.py:72-97 | without a summary file the call scans the files in sorted order |
| Catalog.LoopColumns | 02_analysis/02_parse-diheds/dihed_parser.py:86-96 | when every file gives exactly one hit, the arrays are the columns of those hits and one row is written per file |
| Catalog.LoopReplays | 02_analysis/02_parse-diheds/dihed_parser.py:84-97 | when every file gives exactly one readable hit, the summary written reads back as the arrays filled |
| Catalog.CacheReplays | 02_analysis/02_parse-diheds/dihed_parser.py:77-97 | in that case a second call that finds the summary returns the same arrays as the first |
| Catalog.Cat | 02_analysis/02_parse-diheds/dihed_parser.py:50-146 | `cat_qm` and `cat_mm`, one `Format` apart; `CatFromCache`, `CatOrder`, `CatScan`, `FreshScan` and `CacheReplays` specify it |
| Restraint.MapAllEach | 02_analysis/02_parse-diheds/dihed_parser.py:174-182 | a conversion over a list succeeds exactly when every element converts, keeps the values in order, and otherwise raises the first failing element's error |
| Restraint.LogLineShort | 02_analysis/02_parse-diheds/dihed_parser.py:175-178 | a log line fails exactly when it has fewer than two words, and the error is `IndexError` |
| Restraint.LogLineRoundTrip | 02_analysis/02_parse-diheds/dihed_parser.py:175-178 | a line written as two words reads back as those words |
| Restraint.Int32Of | 02_analysis/02_parse-diheds/dihed_parser.py:181 | a reference converts when `int()` accepts it and it fits 32 bits; otherwise it raises `ValueError` or `OverflowError` |
| Restraint.Int32OfText | 02_analysis/02_parse-diheds/dihed_parser.py:181 | `str(i)` converts back to `i` inside the 32-bit range and overflows outside it |
| Restraint.FloatOf | 02_analysis/02_parse-diheds/dihed_parser.py:182 | a measured angle converts exactly when `float()` accepts it, otherwise `ValueError` |
| Restraint.ReadLogLines | 02_analysis/02_parse-diheds/dihed_parser.py:173-182 | the log is read exactly when every line has two words, a 32-bit reference and a float angle; then line `k` gives reference `k` and angle `k` |
| Restraint.ReadLogRefsFirst | 02_analysis/02_parse-diheds/dihed_parser.py:181-182 | a bad reference on any line is reported before a bad measured angle on any line |
| Restraint.ReadLog | 02_analysis/02_parse-diheds/dihed_parser.py:173-182 | reading the log gives one reference and one measured angle per line; `ReadLogLines` and `ReadLogRefsFirst` specify it |
| Restraint.WrapRange | 02_analysis/02_parse-diheds/dihed_parser.py:185-186 | a negative angle gains 360 and a non-negative one is kept; an angle in `[-360, 360)` lands in `[0, 360)` |
| Restraint.AlignFirst | 02_analysis/02_parse-diheds/dihed_parser.py:189-190 | an empty log raises `IndexError`; otherwise only the first angle can change, and it loses 360 exactly when its absolute value exceeds 5 |
| Restraint.AdjustRange | 02_analysis/02_parse-diheds/dihed_parser.py:185-190 | a non-empty log is adjusted; each angle moves by a whole turn or not at all, and later angles are wrapped; for measured angles in `[-360, 360)`, later angles land in `[0, 360)` and the first in `(-355, 5]` |
| Restraint.AdjustExamples | 02_analysis/02_parse-diheds/dihed_parser.py:185-190 | 358 becomes −2, −10 becomes 350, 300 becomes −60, angles near zero are kept, and an empty log raises |
| Restraint.Adjust | 02_analysis/02_parse-diheds/dihed_parser.py:185-190 | the two angle corrections; `AlignFirst`, `AdjustRange` and `AdjustExamples` specify it |
| Restraint.HarmonicSign | 02_analysis/02_parse-diheds/dihed_parser.py:193 | `k * d ** 2` is non-negative for `k >= 0` and zero at `d = 0` |
| Restraint.EnergiesSign | 02_analysis/02_parse-diheds/dihed_parser.py:193 | every restraint energy is non-negative for `k >= 0`, and zero where the angle reached its reference |
| Restraint.Energies | 02_analysis/02_parse-diheds/dihed_parser.py:193 | one restraint energy per measured angle; `EnergiesSign` specifies it |
| Restraint.SubtractRestraintResult | 02_analysis/02_parse-diheds/dihed_parser.py:150-197 | the call succeeds exactly when the log is read and is not empty; then the angles are the read ones corrected, and each energy is `k` times the squared distance from its reference |
| Restraint.SubtractRestraintSign | 02_analysis/02_parse-diheds/dihed_parser.py:193-197 | the restraint energies returned are non-negative for `k >= 0` and zero where an angle reached its reference |
| Restraint.SubtractRestraint | 02_analysis/02_parse-diheds/dihed_parser.py:150-197 | `subtract_restraint` returns one corrected angle and one energy per log line; `SubtractRestraintResult` and `SubtractRestraintSign` specify it |
| Relative.Nonzero | 02_analysis/02_parse-diheds/dihed_parser.py:241-243 | filtering keeps angles next to their energies, keeps no zero energy, and never adds points |
| Relative.NonzeroAppend | 02_analysis/02_parse-diheds/dihed_parser.py:241-243 | filtering a concatenation filters each part |
| Relative.NonzeroKeepsAll | 02_analysis/02_parse-diheds/dihed_parser.py:241-243 | a scan without zero energies passes unchanged |
| Relative.NonzeroIdempotent | 02_analysis/02_parse-diheds/dihed_parser.py:241-243 | filtering twice is filtering once |
| Relative.NonzeroEmpty | 02_analysis/02_parse-diheds/dihed_parser.py:241-243 | nothing is kept exactly when every energy is zero |
| Relative.NonzeroSound | 02_analysis/02_parse-diheds/dihed_parser.py:241-243 | every kept (angle, energy) point is a point of the scan |
| Relative.NonzeroComplete | 02_analysis/02_parse-diheds/dihed_parser.py:241-243 | every scan point with a non-zero energy is kept |
| Relative.MinOf | 02_analysis/02_parse-diheds/dihed_parser.py:245 | `min` raises `ValueError` exactly on an empty sequence; otherwise it returns an element no larger than any other |
| Relative.KcalInverse | 02_analysis/02_parse-diheds/dihed_parser.py:246 | the Hartree-to-kcal/mol factor keeps the sign and the zero, and dividing undoes it |
| Relative.AboveMinimumKcal | 02_analysis/02_parse-diheds/dihed_parser.py:245-246 | QM relative energies are non-negative, give back the energy when divided and added to the minimum, are zero exactly at the minimal energies, and one of them is zero |
| Relative.AboveMinimum | 02_analysis/02_parse-diheds/dihed_parser.py:264-265 | MM relative energies are non-negative, give back the energy when added to the minimum, are zero exactly at the minimal energies, and one of them is zero |
| Relative.AboveKcal | 02_analysis/02_parse-diheds/dihed_parser.py:246 | one relative energy in kcal/mol per energy; `AboveMinimumKcal` specifies it |
| Relative.Above | 02_analysis/02_parse-diheds/dihed_parser.py:265 | one relative energy per energy; `AboveMinimum` specifies it |
| Relative.ProcessQmResult | 02_analysis/02_parse-diheds/dihed_parser.py:238-253 | the QM branch raises `ValueError` exactly when every energy is zero; otherwise it returns the non-zero points in order with kcal/mol energies above the lowest, which is zero |
| Relative.ProcessQm | 02_analysis/02_parse-diheds/dihed_parser.py:238-253 | the arithmetic of `process_plot_qm`; `ProcessQmResult` specifies it |
| Relative.Subtract | 02_analysis/02_parse-diheds/dihed_parser.py:261 | `np.subtract` raises a shape error exactly when the lengths differ and neither is one |
| Relative.SubtractInverse | 02_analysis/02_parse-diheds/dihed_parser.py:261 | the difference has the broadcast length, and adding the subtrahend back gives the minuend element by element |
| Relative.ProcessMmPlain | 02_analysis/02_parse-diheds/dihed_parser.py:255-273 | without a spring constant the MM branch keeps every energy, zeros included, and measures from the lowest; it raises exactly on an empty scan (`min`) or on angles and energies of different lengths (`scatter`) |
| Relative.ProcessMmLogError | 02_analysis/02_parse-diheds/dihed_parser.py:259-261 | with a spring constant the MM branch raises what reading the restraint log raises |
| Relative.ProcessMmRestrained | 02_analysis/02_parse-diheds/dihed_parser.py:259-271 | with a log as long as the scan's energies, the branch succeeds exactly when there is one angle per energy, and then each energy is the scan energy less its restraint energy, measured from the lowest |
| Relative.ProcessMmBroadcastRaises | 02_analysis/02_parse-diheds/dihed_parser.py:259-271 | one scan point against a log of two or more lines: `np.subtract` stretches the energy over the log, and `scatter` raises on one angle against several energies |
| Relative.ProcessMmMismatch | 02_analysis/02_parse-diheds/dihed_parser.py:261 | a log whose length differs from the scan's, neither being one, ends the MM branch with a shape error |
| Relative.ProcessMm | 02_analysis/02_parse-diheds/dihed_parser.py:255-273 | the arithmetic of `process_plot_mm` and the size check of the plot's `scatter`; `ProcessMmPlain`, `ProcessMmLogError`, `ProcessMmRestrained`, `ProcessMmMismatch` and `ProcessMmBroadcastRaises` specify it |

## Left out

- File I/O is modelled as data. Opening and reading files becomes a `File` value holding a path and lines. The directory listing `glob` walks and the existence of the summary file are parameters. Writing the summary becomes the `summary` rows a call returns.
- `plot_dihed`, printing, `np.set_printoptions`, `main`, the command-line parsing and the `opt` globals are not modelled, with one exception. `plot_dihed`'s `scatter` raises `ValueError` when the angles and the relative energies differ in size, and `Relative.ProcessMm` models that check; `process_plot_qm` always plots arrays of one size. The rest holds no logic that affects the returned values or the errors raised. `opt_mmff.py` is not part of this model.
- Floating point is modelled by exact reals. The float32 rounding of the measured angles, the float64 rounding of energies and conversions, and NaN and infinity are not modelled.
- `Catalog.Canonical`: a float's text in the summary is a canonical decimal of the value read, not Python's shortest `repr`. Exponent forms and rounding of long decimals are not reproduced.
- `Numerals.ParseFloat`: `float()` is modelled on ASCII decimal literals. It rejects `inf`, `nan`, digits from other Unicode scripts and underscores between digits, all of which Python accepts.
- `Numerals.ParseInt`: `int()` is modelled on signed ASCII decimal text. It rejects digits from other Unicode scripts and underscores between digits, which Python accepts.
- `Numerals.ParseNumeralText`: the round trip is stated for the decimal literals the model renders, so it says nothing about the forms `ParseFloat` leaves out.
- `NaturalSort.DigitSplitShape`: `\d` is modelled as the ASCII digits. Python's `\d` also matches other Unicode decimal digits.
- `Glob.AngleWithSlash`: `glob` is modelled by the paths it returns, given as a listing. Which directory names `*` matches (hidden names are skipped), pattern characters inside the root, the theory or the file name, and the filesystem's listing order are not modelled. The sort makes that order irrelevant up to ties.
- `Restraint.EnergiesSign`: does not state that the energy is positive when the angle differs from its reference and `k > 0`. The solver's nonlinear real arithmetic does not close that direction.
- `Restraint.Int32Of`: numpy's string-to-`int32` conversion is modelled as `int()` of the text followed by a range check that raises `OverflowError`.
- `Relative.ProcessQmResult`: requires the angles and energies to have one length. `cat_qm` and `read_summary` always return arrays of one length.
- `Relative.ProcessMmPlain`: `ProcessMm` takes the `cat_mm` result and the restraint log's lines as arguments. The restraint log path `mdir + '/diheds-from-coor.dat'` is not modelled.
