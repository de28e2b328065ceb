/** `cat_qm` and `cat_mm`: one energy per angle directory, read from the
    marker line of each output file, with the angle taken from the file's
    path, and the two-column summary file that caches the result
    (`read_summary` reads it back). The two functions differ only in the
    marker, the field index and which marker lines count, so one `Format`
    parameter covers both. */
module Catalog {
  import opened Wrappers
  import opened PyErrors
  import opened PyText
  import opened Numerals
  import opened NaturalSort
  import opened Glob

  /** An output file the glob found: its path and its lines (each with its
      line break, as iterating over a Python file yields them). */
  datatype File = File(path: string, lines: seq<string>)

  /** `Qm` is `cat_qm` on Psi4 output, `Mm` is `cat_mm` on a NAMD log. */
  datatype Format = Qm | Mm

  /** The line that carries the energy: QM lines contain `Final energy`,
      MM lines start with `ENERGY:`. */
  predicate IsMarker(fmt: Format, line: string) {
    match fmt
    case Qm => Contains(line, "Final energy")
    case Mm => MatchAt(line, "ENERGY:", 0)
  }

  /** The position of the energy among the fields of a marker line. */
  function FieldIndex(fmt: Format): nat {
    match fmt
    case Qm => 3
    case Mm => 13
  }

  /** No U+0020 space in `w` (other whitespace allowed). */
  predicate Unspaced(w: string) {
    forall i :: 0 <= i < |w| ==> w[i] != ' '
  }

  /** `re.sub(' +', ' ', line).split(' ')[n]`, raising `IndexError` when the
      line has too few fields. */
  function Field(line: string, n: nat): (r: Result<string, Error>)
    ensures r.Failure? ==> r.error == IndexOutOfRange
    ensures r.Success? ==> Unspaced(r.value)
  {
    var fields := Split(CollapseSpaces(line), " ");
    if n < |fields| then
      UnspacedOf(fields[n]);
      Success(fields[n])
    else Failure(IndexOutOfRange)
  }

  lemma UnspacedOf(w: string)
    ensures Unspaced(w) <==> !Contains(w, " ")
  {
    forall j | 0 <= j <= |w| ensures MatchAt(w, " ", j) <==> j < |w| && w[j] == ' ' {
      MatchChar(w, ' ', j);
    }
  }

  /** Joining an unspaced word to a text that has no double space and does not
      start with a space, with one space between, makes no double space. */
  lemma NoDoubleJoin(a: string, b: string)
    requires Unspaced(a) && NoDoubleSpace(b) && (b == "" || b[0] != ' ')
    ensures NoDoubleSpace(a + " " + b)
  {
    var s := a + " " + b;
    forall i, j | 0 <= i < |s| && 0 <= j < |s| && j == i + 1 ensures !(s[i] == ' ' && s[j] == ' ') {
      if i < |a| {
        assert s[i] == a[i];
      } else if i == |a| {
        assert s[j] == b[0];
      } else {
        assert s[i] == b[i - |a| - 1] && s[j] == b[j - |a| - 1];
      }
    }
  }

  /** Words joined by single spaces, none of them holding a space and only
      the first and the last possibly empty, have no double space; the text
      starts with the first word. */
  lemma {:induction false} JoinNoDouble(words: seq<string>)
    requires |words| >= 1
    requires forall k :: 0 <= k < |words| ==> Unspaced(words[k])
    requires forall k :: 0 < k < |words| - 1 ==> |words[k]| > 0
    ensures NoDoubleSpace(Join(words, " "))
    ensures Join(words, " ") == "" || Join(words, " ")[0] != ' ' || words[0] == ""
    decreases |words|
  {
    if |words| == 1 {
      assert Join(words, " ") == words[0];
    } else {
      var rest := Join(words[1..], " ");
      JoinNoDouble(words[1..]);
      assert rest == "" || rest[0] != ' ' by {
        if |words| > 2 {
          assert |words[1]| > 0 && words[1..][0] == words[1];
        } else {
          assert rest == words[1];
        }
      }
      NoDoubleJoin(words[0], rest);
      assert Join(words, " ") == words[0] + " " + rest;
    }
  }

  /** On a line that is words separated by single spaces the field rule picks
      the word at position `n`, and fails exactly when there are not `n + 1`
      words. */
  lemma FieldOfJoin(words: seq<string>, n: nat)
    requires |words| >= 1
    requires forall k :: 0 <= k < |words| ==> Unspaced(words[k])
    requires forall k :: 0 < k < |words| - 1 ==> |words[k]| > 0
    ensures Field(Join(words, " "), n) == if n < |words| then Success(words[n]) else Failure(IndexOutOfRange)
  {
    var line := Join(words, " ");
    JoinNoDouble(words);
    CollapseFixpoint(line);
    forall k | 0 <= k < |words| ensures !Contains(words[k], [' ']) {
      UnspacedOf(words[k]);
    }
    SplitJoin(words, ' ');
  }

  /** Words laid out with a run of spaces between each two, the way the
      columns of a log line are aligned: `words[0]`, `gaps[0]`, `words[1]`,
      and so on up to the last word. */
  function Spread(words: seq<string>, gaps: seq<string>): (r: string)
    requires |words| >= 1 && |gaps| == |words| - 1
    ensures words[0] != "" ==> |r| > 0 && r[0] == words[0][0]
    decreases |words|
  {
    if |words| == 1 then words[0] else words[0] + gaps[0] + Spread(words[1..], gaps[1..])
  }

  /** Collapsing a spread-out line leaves its words joined by single spaces. */
  lemma {:induction false} CollapseSpread(words: seq<string>, gaps: seq<string>)
    requires |words| >= 1 && |gaps| == |words| - 1
    requires forall k :: 0 <= k < |words| ==> Unspaced(words[k])
    requires forall k :: 0 < k < |words| - 1 ==> |words[k]| > 0
    requires forall k :: 0 <= k < |gaps| ==> Blanks(gaps[k])
    ensures CollapseSpaces(Spread(words, gaps)) == Join(words, " ")
    decreases |words|
  {
    var w := words[0];
    if |words| == 1 {
      CollapseUnspacedPrefix(w, "");
      assert w + "" == w;
    } else {
      var rest := Spread(words[1..], gaps[1..]);
      CollapseSpread(words[1..], gaps[1..]);
      assert rest == "" || rest[0] != ' ' by {
        assert words[1..][0] == words[1];
        if |words| > 2 {
          assert |words[1]| > 0 && rest[0] == words[1][0];
        } else {
          assert rest == words[1];
        }
      }
      var j := Join(words[1..], " ");
      assert CollapseSpaces(w + (gaps[0] + rest)) == w + (" " + j) by {
        CollapseRun(gaps[0], rest);
        CollapseUnspacedPrefix(w, gaps[0] + rest);
      }
      assert Spread(words, gaps) == w + (gaps[0] + rest);
      assert Join(words, " ") == w + (" " + j);
    }
  }

  /** On a line whose words are separated by runs of spaces of any length,
      the field rule picks the word at position `n`, and fails exactly when
      there are not `n + 1` words. A line that starts with spaces has an
      empty first word. */
  lemma FieldOfSpread(words: seq<string>, gaps: seq<string>, n: nat)
    requires |words| >= 1 && |gaps| == |words| - 1
    requires forall k :: 0 <= k < |words| ==> Unspaced(words[k])
    requires forall k :: 0 < k < |words| - 1 ==> |words[k]| > 0
    requires forall k :: 0 <= k < |gaps| ==> Blanks(gaps[k])
    ensures Field(Spread(words, gaps), n) == if n < |words| then Success(words[n]) else Failure(IndexOutOfRange)
  {
    var line := Join(words, " ");
    CollapseSpread(words, gaps);
    JoinNoDouble(words);
    CollapseFixpoint(line);
    FieldOfJoin(words, n);
  }

  /** The numeral with a `0` before a bare fraction (`.5` becomes `0.5`), the
      way Python writes a float. */
  function Canonical(n: Numeral): (c: Numeral)
    requires ValidNumeral(n)
    ensures ValidNumeral(c) && |c.whole| > 0
    ensures NumeralValue(c) == NumeralValue(n)
  {
    if |n.whole| == 0 then
      assert DigitsValue("0") == 0;
      n.(whole := "0")
    else n
  }

  /** What one marker line yields: the angle text from the path, its value,
      and the energy with the text the summary file gets for it. */
  datatype Hit = Hit(angleText: string, angle: real, energyText: string, energy: real)

  /** The body of the marker branch, in the order Python evaluates it: the
      angle segment of the path, the energy field, `float` of the field, and
      `float` of the angle when it is stored into the array. */
  function ReadHit(fmt: Format, root: string, path: string, line: string): (r: Result<Hit, Error>)
    ensures r.Success? <==>
      && AngleSegment(path, root).Success?
      && Field(line, FieldIndex(fmt)).Success?
      && ParseFloat(Field(line, FieldIndex(fmt)).value).Some?
      && ParseFloat(AngleSegment(path, root).value).Some?
    ensures r.Success? ==>
      && r.value.angleText == AngleSegment(path, root).value
      && ParseFloat(r.value.angleText) == Some(r.value.angle)
      && ParseFloat(Field(line, FieldIndex(fmt)).value) == Some(r.value.energy)
      && ParseFloat(r.value.energyText) == Some(r.value.energy)
      && |r.value.energyText| > 0 && NoSpace(r.value.energyText)
  {
    var angleText :- AngleSegment(path, root);
    var field :- Field(line, FieldIndex(fmt));
    var numeral :- LexFloat(field).ToResult(NotAFloat(field));
    var angle :- ParseFloat(angleText).ToResult(NotAFloat(angleText));
    var c := Canonical(numeral);
    ParseNumeralText(c);
    NumeralTextNoSpace(c);
    Success(Hit(angleText, angle, NumeralText(c), NumeralValue(numeral)))
  }

  /** `'{}\t{}\n'.format(angle, energy)`. */
  function RowText(h: Hit): string {
    h.angleText + "\t" + h.energyText + "\n"
  }

  /** A row the summary file reads back exactly. */
  predicate Readable(h: Hit) {
    && |h.angleText| > 0 && NoSpace(h.angleText) && ParseFloat(h.angleText) == Some(h.angle)
    && |h.energyText| > 0 && NoSpace(h.energyText) && ParseFloat(h.energyText) == Some(h.energy)
  }

  /** One line of `read_summary`: `float` of the first two whitespace-separated
      fields, raising `IndexError` when one is missing. */
  function ReadRow(line: string): (r: Result<(real, real), Error>) {
    var parts := SplitWhitespace(line);
    if |parts| == 0 then Failure(IndexOutOfRange)
    else
      var angle :- ParseFloat(parts[0]).ToResult(NotAFloat(parts[0]));
      if |parts| < 2 then Failure(IndexOutOfRange)
      else
        var energy :- ParseFloat(parts[1]).ToResult(NotAFloat(parts[1]));
        Success((angle, energy))
  }

  /** The two parallel arrays a scan returns. */
  datatype Scan = Scan(angles: seq<real>, energies: seq<real>)

  /** Reads every line with `read`, stopping at the first that raises. */
  function ReadAll(read: string -> Result<(real, real), Error>, lines: seq<string>): (r: Result<Scan, Error>)
    ensures r.Success? ==> |r.value.angles| == |lines| && |r.value.energies| == |lines|
    decreases |lines|
  {
    if |lines| == 0 then Success(Scan([], []))
    else
      var row :- read(lines[0]);
      var rest :- ReadAll(read, lines[1..]);
      Success(Scan([row.0] + rest.angles, [row.1] + rest.energies))
  }

  /** `read_summary(filename)` on the lines of the file. */
  function ReadSummary(lines: seq<string>): (r: Result<Scan, Error>)
    ensures r.Success? ==> |r.value.angles| == |lines| && |r.value.energies| == |lines|
  {
    ReadAll(ReadRow, lines)
  }

  lemma {:induction false} ReadAllRows(read: string -> Result<(real, real), Error>, lines: seq<string>)
    ensures ReadAll(read, lines).Success? <==> forall i :: 0 <= i < |lines| ==> read(lines[i]).Success?
    ensures ReadAll(read, lines).Success? ==> forall i :: 0 <= i < |lines| ==>
      read(lines[i]).value == (ReadAll(read, lines).value.angles[i], ReadAll(read, lines).value.energies[i])
    decreases |lines|
  {
    if |lines| > 0 {
      ReadAllRows(read, lines[1..]);
      assert forall i :: 1 <= i < |lines| ==> lines[i] == lines[1..][i - 1];
    }
  }

  /** The summary file is read line by line: it is read exactly when every
      line is, and then row `i` holds the two values of line `i`. */
  lemma ReadSummaryRows(lines: seq<string>)
    ensures ReadSummary(lines).Success? <==> forall i :: 0 <= i < |lines| ==> ReadRow(lines[i]).Success?
    ensures ReadSummary(lines).Success? ==> forall i :: 0 <= i < |lines| ==>
      ReadRow(lines[i]).value == (ReadSummary(lines).value.angles[i], ReadSummary(lines).value.energies[i])
  {
    ReadAllRows(ReadRow, lines);
  }

  /** A row splits into its two words. */
  lemma RowWords(a: string, e: string)
    requires |a| > 0 && NoSpace(a) && |e| > 0 && NoSpace(e)
    ensures SplitWhitespace(a + "\t" + e + "\n") == [a, e]
  {
    SpaceChar('\t');
    SpaceChar('\n');
    SplitWhitespacePair(a, "\t", e, "\n");
  }

  /** A written row reads back as the values it was written from. */
  lemma RowRoundTrip(h: Hit)
    requires Readable(h)
    ensures ReadRow(RowText(h)) == Success((h.angle, h.energy))
  {
    RowWords(h.angleText, h.energyText);
  }

  /** The marker lines of a file, in file order. */
  function Markers(fmt: Format, lines: seq<string>): seq<string>
    decreases |lines|
  {
    if |lines| == 0 then []
    else (if IsMarker(fmt, lines[0]) then [lines[0]] else []) + Markers(fmt, lines[1..])
  }

  /** The marker lines whose energy ends up in the file's slot and in the
      summary: all of them for QM, only the last for MM. */
  function Chosen(fmt: Format, lines: seq<string>): seq<string> {
    var ms := Markers(fmt, lines);
    match fmt
    case Qm => ms
    case Mm => if |ms| == 0 then [] else [ms[|ms| - 1]]
  }

  /** `reversed(lines)`. */
  function Reverse(s: seq<string>): (r: seq<string>)
    ensures |r| == |s|
    decreases |s|
  {
    if |s| == 0 then [] else [s[|s| - 1]] + Reverse(s[..|s| - 1])
  }

  /** `reversed` puts the last line first and the first line last. */
  lemma {:induction false} ReverseIndex(s: seq<string>)
    ensures |Reverse(s)| == |s|
    ensures forall k :: 0 <= k < |s| ==> Reverse(s)[k] == s[|s| - 1 - k]
    decreases |s|
  {
    if |s| > 0 {
      var init := s[..|s| - 1];
      ReverseIndex(init);
      forall k | 0 < k < |s| ensures Reverse(s)[k] == s[|s| - 1 - k] {
        assert Reverse(s)[k] == Reverse(init)[k - 1];
      }
    }
  }

  /** The hits of a list of marker lines, read in order, and the error of the
      first line that raises, if one does; the hits before it are kept. */
  datatype Hits = Hits(hits: seq<Hit>, error: Option<Error>)

  /** How the marker lines of the file at `path` are read. */
  function Reader(fmt: Format, root: string, path: string): string -> Result<Hit, Error> {
    line => ReadHit(fmt, root, path, line)
  }

  function HitsOf(read: string -> Result<Hit, Error>, ms: seq<string>): Hits
    decreases |ms|
  {
    if |ms| == 0 then Hits([], None)
    else match read(ms[0])
      case Failure(e) => Hits([], Some(e))
      case Success(h) =>
        var rest := HitsOf(read, ms[1..]);
        Hits([h] + rest.hits, rest.error)
  }

  /** A file's outcome: the hits of its chosen marker lines. */
  function Outcome(fmt: Format, root: string, file: File): Hits {
    HitsOf(Reader(fmt, root, file.path), Chosen(fmt, file.lines))
  }

  /** When no marker line raises, there is one hit per line, read from it. */
  lemma {:induction false} HitsOfAll(read: string -> Result<Hit, Error>, ms: seq<string>)
    ensures HitsOf(read, ms).error.None? <==> forall k :: 0 <= k < |ms| ==> read(ms[k]).Success?
    ensures HitsOf(read, ms).error.None? ==>
      && |HitsOf(read, ms).hits| == |ms|
      && forall k :: 0 <= k < |ms| ==> read(ms[k]) == Success(HitsOf(read, ms).hits[k])
    decreases |ms|
  {
    if |ms| > 0 {
      HitsOfAll(read, ms[1..]);
      assert forall k :: 1 <= k < |ms| ==> ms[k] == ms[1..][k - 1];
    }
  }

  /** The summary rows of a list of hits. */
  function RowsOf(hs: seq<Hit>): (rows: seq<string>)
    ensures |rows| == |hs|
  {
    seq(|hs|, k requires 0 <= k < |hs| => RowText(hs[k]))
  }

  /** The two arrays being filled and the summary rows written so far. */
  datatype Tables = Tables(angles: seq<real>, energies: seq<real>, rows: seq<string>)

  /** The state after a loop: the tables, and the error that ended it, if any. */
  datatype Run = Run(tables: Tables, error: Option<Error>)

  predicate Fits(t: Tables, i: nat) {
    i < |t.angles| && i < |t.energies|
  }

  /** `angs[i] = angle; enes[i] = energy; output.write(row)`. */
  function Record(t: Tables, i: nat, h: Hit): (u: Tables)
    requires Fits(t, i)
    ensures |u.angles| == |t.angles| && |u.energies| == |t.energies|
  {
    Tables(t.angles[i := h.angle], t.energies[i := h.energy], t.rows + [RowText(h)])
  }

  /** Records the hits one after the other. */
  function RecordAll(t: Tables, i: nat, hs: seq<Hit>): (u: Tables)
    requires Fits(t, i)
    ensures |u.angles| == |t.angles| && |u.energies| == |t.energies|
    decreases |hs|
  {
    if |hs| == 0 then t else RecordAll(Record(t, i, hs[0]), i, hs[1..])
  }

  /** One marker line: raise, or store and write. */
  function Take(read: string -> Result<Hit, Error>, line: string, i: nat, t: Tables): (r: Run)
    requires Fits(t, i)
    ensures |r.tables.angles| == |t.angles| && |r.tables.energies| == |t.energies|
  {
    match read(line)
    case Failure(e) => Run(t, Some(e))
    case Success(h) => Run(Record(t, i, h), None)
  }

  /** The loop of `cat_qm` over one file: every marker line is taken. */
  function QmLines(read: string -> Result<Hit, Error>, lines: seq<string>, i: nat, t: Tables): (r: Run)
    requires Fits(t, i)
    ensures |r.tables.angles| == |t.angles| && |r.tables.energies| == |t.energies|
    decreases |lines|
  {
    if |lines| == 0 then Run(t, None)
    else if IsMarker(Qm, lines[0]) then
      var r := Take(read, lines[0], i, t);
      if r.error.Some? then r else QmLines(read, lines[1..], i, r.tables)
    else QmLines(read, lines[1..], i, t)
  }

  /** The loop of `cat_mm` over the reversed lines of one file: the first
      marker line met is taken and the loop breaks. */
  function MmLines(read: string -> Result<Hit, Error>, rev: seq<string>, i: nat, t: Tables): (r: Run)
    requires Fits(t, i)
    ensures |r.tables.angles| == |t.angles| && |r.tables.energies| == |t.energies|
    decreases |rev|
  {
    if |rev| == 0 then Run(t, None)
    else if IsMarker(Mm, rev[0]) then Take(read, rev[0], i, t)
    else MmLines(read, rev[1..], i, t)
  }

  /** The inner loop for file `i`. */
  function ScanFile(fmt: Format, root: string, file: File, i: nat, t: Tables): (r: Run)
    requires Fits(t, i)
    ensures |r.tables.angles| == |t.angles| && |r.tables.energies| == |t.energies|
  {
    var read := Reader(fmt, root, file.path);
    match fmt
    case Qm => QmLines(read, file.lines, i, t)
    case Mm => MmLines(read, Reverse(file.lines), i, t)
  }

  /** The inner loop as a value: file `i` of the outer loop. Assigning to a
      slot past the arrays' end would raise `IndexError`; the outer loop
      never asks for one. */
  function FileStep(fmt: Format, root: string): (File, nat, Tables) -> Run {
    (f: File, i: nat, t: Tables) =>
      if Fits(t, i) then ScanFile(fmt, root, f, i, t) else Run(t, Some(IndexOutOfRange))
  }

  /** The outer loop `for i, filename in enumerate(files)` from file `i` on,
      stopping at the first error. */
  function Loop(step: (File, nat, Tables) -> Run, files: seq<File>, i: nat, t: Tables): Run
    requires i <= |files|
    decreases |files| - i
  {
    if i == |files| then Run(t, None)
    else
      var r := step(files[i], i, t);
      if r.error.Some? then r else Loop(step, files, i + 1, r.tables)
  }

  /** The sort key of a file: `numericalSort` of its path. */
  function PathKey(f: File): seq<Part> {
    SortKey(f.path)
  }

  /** What a call returns and what it leaves in the summary file: `None` when
      the summary file already existed and was only read. */
  datatype Catalogue = Catalogue(scan: Result<Scan, Error>, summary: Option<seq<string>>)

  function Zeros(n: nat): (z: seq<real>)
    ensures |z| == n && forall k :: 0 <= k < n ==> z[k] == 0.0
  {
    seq(n, k => 0.0)
  }

  /** `cat_qm(root, fname, theory)` (`Qm`) or `cat_mm(root, fname)` (`Mm`):
      `files` are the glob's matches in listing order and `cached` holds the
      lines of the summary file when it already exists. */
  function Cat(fmt: Format, root: string, files: seq<File>, cached: Option<seq<string>>): Catalogue {
    if cached.Some? then Catalogue(ReadSummary(cached.value), None)
    else Fresh(fmt, root, SortBy(PathKey, files))
  }

  /** The run without a summary file, over the files already sorted. */
  function Fresh(fmt: Format, root: string, sorted: seq<File>): Catalogue {
    var n := |sorted|;
    var r := Loop(FileStep(fmt, root), sorted, 0, Tables(Zeros(n), Zeros(n), []));
    var scan := if r.error.Some? then Failure(r.error.value) else Success(Scan(r.tables.angles, r.tables.energies));
    Catalogue(scan, Some(r.tables.rows))
  }

  lemma RowsOfAppend(a: seq<Hit>, b: seq<Hit>)
    ensures RowsOf(a + b) == RowsOf(a) + RowsOf(b)
  {
    assert forall k :: |a| <= k < |a + b| ==> (a + b)[k] == b[k - |a|];
  }

  /** Recording a list of hits leaves the slot holding the last of them, every
      other slot as it was, and one more row per hit. */
  lemma {:induction false} RecordAllClosed(t: Tables, i: nat, hs: seq<Hit>)
    requires Fits(t, i)
    ensures RecordAll(t, i, hs) == if |hs| == 0 then t else
      Tables(t.angles[i := hs[|hs| - 1].angle], t.energies[i := hs[|hs| - 1].energy], t.rows + RowsOf(hs))
    decreases |hs|
  {
    if |hs| > 0 {
      var u := Record(t, i, hs[0]);
      RecordAllClosed(u, i, hs[1..]);
      assert RowsOf(hs) == [RowText(hs[0])] + RowsOf(hs[1..]) by {
        assert hs == [hs[0]] + hs[1..];
        RowsOfAppend([hs[0]], hs[1..]);
      }
      if |hs| > 1 {
        assert hs[1..][|hs[1..]| - 1] == hs[|hs| - 1];
        assert u.angles[i := hs[|hs| - 1].angle] == t.angles[i := hs[|hs| - 1].angle];
        assert u.energies[i := hs[|hs| - 1].energy] == t.energies[i := hs[|hs| - 1].energy];
      }
    }
  }

  lemma {:induction false} MarkersSnoc(fmt: Format, s: seq<string>, x: string)
    ensures Markers(fmt, s + [x]) == Markers(fmt, s) + (if IsMarker(fmt, x) then [x] else [])
    decreases |s|
  {
    var last: seq<string> := if IsMarker(fmt, x) then [x] else [];
    if |s| == 0 {
      assert [x][1..] == [];
      assert s + [x] == [x];
    } else {
      var head: seq<string> := if IsMarker(fmt, s[0]) then [s[0]] else [];
      assert (s + [x])[0] == s[0];
      assert (s + [x])[1..] == s[1..] + [x];
      MarkersSnoc(fmt, s[1..], x);
      assert Markers(fmt, s + [x]) == head + (Markers(fmt, s[1..]) + last);
      assert Markers(fmt, s) == head + Markers(fmt, s[1..]);
    }
  }

  /** The `cat_qm` loop over a file reads its marker lines in order. */
  lemma {:induction false} QmLinesHits(read: string -> Result<Hit, Error>, lines: seq<string>, i: nat, t: Tables)
    requires Fits(t, i)
    ensures var h := HitsOf(read, Markers(Qm, lines));
      QmLines(read, lines, i, t) == Run(RecordAll(t, i, h.hits), h.error)
    decreases |lines|
  {
    if |lines| > 0 {
      var ms := Markers(Qm, lines);
      if IsMarker(Qm, lines[0]) {
        assert ms == [lines[0]] + Markers(Qm, lines[1..]);
        assert ms[1..] == Markers(Qm, lines[1..]);
        match read(lines[0])
        case Failure(e) =>
        case Success(h) =>
          QmLinesHits(read, lines[1..], i, Record(t, i, h));
          var rest := HitsOf(read, ms[1..]);
          assert ([h] + rest.hits)[1..] == rest.hits;
      } else {
        assert ms == Markers(Qm, lines[1..]);
        QmLinesHits(read, lines[1..], i, t);
      }
    }
  }

  /** The `cat_mm` loop over the reversed lines takes the last marker line of
      the file, and only that one. */
  lemma {:induction false} MmLinesHits(read: string -> Result<Hit, Error>, lines: seq<string>, i: nat, t: Tables)
    requires Fits(t, i)
    ensures var h := HitsOf(read, Chosen(Mm, lines));
      MmLines(read, Reverse(lines), i, t) == Run(RecordAll(t, i, h.hits), h.error)
    decreases |lines|
  {
    if |lines| > 0 {
      var init, x := lines[..|lines| - 1], lines[|lines| - 1];
      assert lines == init + [x];
      MarkersSnoc(Mm, init, x);
      assert Reverse(lines) == [x] + Reverse(init);
      if IsMarker(Mm, x) {
        assert Chosen(Mm, lines) == [x];
        assert [x][1..] == [];
        match read(x)
        case Failure(e) =>
        case Success(h) =>
          assert HitsOf(read, [x]) == Hits([h], None);
          assert [h][1..] == [];
      } else {
        assert Markers(Mm, lines) == Markers(Mm, init);
        assert ([x] + Reverse(init))[1..] == Reverse(init);
        MmLinesHits(read, init, i, t);
      }
    }
  }

  /** Either loop over file `i` records the file's outcome. */
  lemma ScanFileHits(fmt: Format, root: string, file: File, i: nat, t: Tables)
    requires Fits(t, i)
    ensures var o := Outcome(fmt, root, file);
      ScanFile(fmt, root, file, i, t) == Run(RecordAll(t, i, o.hits), o.error)
  {
    var read := Reader(fmt, root, file.path);
    match fmt
    case Qm => QmLinesHits(read, file.lines, i, t);
    case Mm => MmLinesHits(read, file.lines, i, t);
  }

  /** The outcome of every file, as a value. */
  function Outcomes(fmt: Format, root: string): File -> Hits {
    f => Outcome(fmt, root, f)
  }

  /** What a file's slot holds after a successful scan: the angle and energy
      of its last recorded hit, or the zeros `np.zeros` put there. */
  function Slot(outcome: File -> Hits, file: File): (real, real) {
    var hs := outcome(file).hits;
    if |hs| == 0 then (0.0, 0.0) else (hs[|hs| - 1].angle, hs[|hs| - 1].energy)
  }

  /** Every file from `i` on is read without an error. */
  predicate FilesOk(outcome: File -> Hits, files: seq<File>, i: nat) {
    forall j :: i <= j < |files| ==> outcome(files[j]).error.None?
  }

  /** The hits of the files from `i` on, file after file. */
  function AllHits(outcome: File -> Hits, files: seq<File>, i: nat): seq<Hit>
    requires i <= |files|
    decreases |files| - i
  {
    if i == |files| then [] else outcome(files[i]).hits + AllHits(outcome, files, i + 1)
  }

  predicate ZerosFrom(t: Tables, i: nat) {
    forall j :: i <= j < |t.angles| && j < |t.energies| ==> t.angles[j] == 0.0 && t.energies[j] == 0.0
  }

  /** `step` records the hits of each file's outcome. */
  ghost predicate Records(step: (File, nat, Tables) -> Run, outcome: File -> Hits) {
    forall f, i, t :: Fits(t, i) ==> step(f, i, t) == Run(RecordAll(t, i, outcome(f).hits), outcome(f).error)
  }

  lemma FileStepRecords(fmt: Format, root: string)
    ensures Records(FileStep(fmt, root), Outcomes(fmt, root))
  {
    forall f, i, t | Fits(t, i)
      ensures FileStep(fmt, root)(f, i, t) == Run(RecordAll(t, i, Outcomes(fmt, root)(f).hits), Outcomes(fmt, root)(f).error)
    {
      ScanFileHits(fmt, root, f, i, t);
    }
  }

  /** After a file without errors: its slot is `Slot`, the slots after it
      are still zero, and its rows follow the earlier ones. */
  lemma RecordFile(hs: seq<Hit>, i: nat, t: Tables)
    requires Fits(t, i) && |t.angles| == |t.energies| && ZerosFrom(t, i)
    ensures var u := RecordAll(t, i, hs);
      && ZerosFrom(u, i + 1)
      && (u.angles[i], u.energies[i]) == (if |hs| == 0 then (0.0, 0.0) else (hs[|hs| - 1].angle, hs[|hs| - 1].energy))
      && (forall j :: 0 <= j < |t.angles| && j != i ==> u.angles[j] == t.angles[j] && u.energies[j] == t.energies[j])
      && u.rows == t.rows + RowsOf(hs)
  {
    RecordAllClosed(t, i, hs);
    if |hs| == 0 {
      assert t.rows + RowsOf(hs) == t.rows;
    }
  }

  /** The outer loop from file `i` on ends without an error exactly when no
      file from `i` on raises. */
  lemma {:induction false} LoopError(step: (File, nat, Tables) -> Run, outcome: File -> Hits, files: seq<File>, i: nat, t: Tables)
    requires Records(step, outcome)
    requires i <= |files| && |t.angles| == |files| && |t.energies| == |files|
    ensures Loop(step, files, i, t).error.None? <==> FilesOk(outcome, files, i)
    decreases |files| - i
  {
    if i < |files| {
      var o := outcome(files[i]);
      assert step(files[i], i, t) == Run(RecordAll(t, i, o.hits), o.error);
      if o.error.None? {
        LoopError(step, outcome, files, i + 1, RecordAll(t, i, o.hits));
      }
    }
  }

  /** After an outer loop without errors, every slot from `i` on holds its
      file's `Slot`, the earlier slots are untouched, and the summary holds
      the rows of every hit in file order. */
  lemma {:induction false} LoopTables(step: (File, nat, Tables) -> Run, outcome: File -> Hits, files: seq<File>, i: nat, t: Tables)
    requires Records(step, outcome)
    requires i <= |files| && |t.angles| == |files| && |t.energies| == |files|
    requires ZerosFrom(t, i)
    requires Loop(step, files, i, t).error.None?
    ensures var u := Loop(step, files, i, t).tables;
      && |u.angles| == |files| && |u.energies| == |files|
      && (forall j :: 0 <= j < i ==> u.angles[j] == t.angles[j] && u.energies[j] == t.energies[j])
      && (forall j :: i <= j < |files| ==> (u.angles[j], u.energies[j]) == Slot(outcome, files[j]))
      && u.rows == t.rows + RowsOf(AllHits(outcome, files, i))
    decreases |files| - i
  {
    if i == |files| {
      assert t.rows + RowsOf([]) == t.rows;
    } else {
      var o := outcome(files[i]);
      assert step(files[i], i, t) == Run(RecordAll(t, i, o.hits), o.error);
      var u := RecordAll(t, i, o.hits);
      RecordFile(o.hits, i, t);
      LoopTables(step, outcome, files, i + 1, u);
      RowsOfAppend(o.hits, AllHits(outcome, files, i + 1));
    }
  }

  /** A call that finds the summary file reads only that file: its result is
      the summary's two columns, whatever the angle files hold, and it
      writes nothing. */
  lemma CatFromCache(fmt: Format, root: string, files: seq<File>, other: seq<File>, cached: seq<string>)
    ensures Cat(fmt, root, files, Some(cached)) == Catalogue(ReadSummary(cached), None)
    ensures Cat(fmt, root, files, Some(cached)) == Cat(fmt, root, other, Some(cached))
  {
  }

  lemma PathKeyWellKeyed()
    ensures WellKeyed(PathKey)
  {
    forall f ensures WellKey(PathKey(f)) {
      SortKeyShape(f.path);
    }
  }

  /** The files are taken in `numericalSort` order of their paths: a
      permutation of the glob's matches, sorted by key, stable. */
  lemma CatOrder(files: seq<File>, k: seq<Part>)
    ensures var sorted := SortBy(PathKey, files);
      && |sorted| == |files|
      && multiset(sorted) == multiset(files)
      && Sorted(PathKey, sorted)
      && WithKey(PathKey, sorted, k) == WithKey(PathKey, files, k)
  {
    var sorted := SortBy(PathKey, files);
    PathKeyWellKeyed();
    SortBySorted(PathKey, files);
    SortByStable(PathKey, files, k);
    assert |multiset(sorted)| == |multiset(files)|;
  }

  /** Without a summary file, the run over the sorted files succeeds exactly
      when no file raises; then there is one slot per file, holding that
      file's `Slot`, and the summary holds one row per hit, file after file. */
  lemma FreshScan(fmt: Format, root: string, sorted: seq<File>)
    ensures var c := Fresh(fmt, root, sorted);
      && (c.scan.Success? <==> FilesOk(Outcomes(fmt, root), sorted, 0))
      && (c.scan.Success? ==>
        && |c.scan.value.angles| == |sorted| && |c.scan.value.energies| == |sorted|
        && (forall j :: 0 <= j < |sorted| ==>
              (c.scan.value.angles[j], c.scan.value.energies[j]) == Slot(Outcomes(fmt, root), sorted[j]))
        && c.summary == Some(RowsOf(AllHits(Outcomes(fmt, root), sorted, 0))))
  {
    var n := |sorted|;
    var t := Tables(Zeros(n), Zeros(n), []);
    FileStepRecords(fmt, root);
    LoopError(FileStep(fmt, root), Outcomes(fmt, root), sorted, 0, t);
    if Loop(FileStep(fmt, root), sorted, 0, t).error.None? {
      LoopTables(FileStep(fmt, root), Outcomes(fmt, root), sorted, 0, t);
      assert [] + RowsOf(AllHits(Outcomes(fmt, root), sorted, 0)) == RowsOf(AllHits(Outcomes(fmt, root), sorted, 0));
    }
  }

  /** A call without a summary file scans the files in `numericalSort` order
      and gives what `FreshScan` describes for that order. */
  lemma CatScan(fmt: Format, root: string, files: seq<File>)
    ensures var sorted := SortBy(PathKey, files);
      && |sorted| == |files| && Sorted(PathKey, sorted)
      && Cat(fmt, root, files, None) == Fresh(fmt, root, sorted)
  {
    CatOrder(files, []);
  }

  /** The marker lines are exactly the lines that carry a marker. */
  lemma {:induction false} MarkersIn(fmt: Format, lines: seq<string>, x: string)
    ensures x in Markers(fmt, lines) <==> x in lines && IsMarker(fmt, x)
    decreases |lines|
  {
    if |lines| > 0 {
      MarkersIn(fmt, lines[1..], x);
      assert lines == [lines[0]] + lines[1..];
    }
  }

  /** A file raises exactly when one of its chosen marker lines does;
      otherwise it gives one hit per chosen line, read from that line: one
      per marker line for QM, at most one for MM. */
  lemma ChosenHits(fmt: Format, read: string -> Result<Hit, Error>, lines: seq<string>)
    ensures var o := HitsOf(read, Chosen(fmt, lines)); var cs := Chosen(fmt, lines);
      && (o.error.None? <==> forall k :: 0 <= k < |cs| ==> read(cs[k]).Success?)
      && (o.error.None? ==>
        && |o.hits| == (if fmt.Qm? then |Markers(fmt, lines)| else if |Markers(fmt, lines)| == 0 then 0 else 1)
        && forall k :: 0 <= k < |cs| ==> read(cs[k]) == Success(o.hits[k]))
  {
    HitsOfAll(read, Chosen(fmt, lines));
  }

  /** A file's slot holds the values read from its last marker line, or
      stays zero when it has none; for QM that is the last line to overwrite
      it, for MM the first one met walking backwards. */
  lemma SlotOfMarkers(fmt: Format, read: string -> Result<Hit, Error>, outcome: File -> Hits, file: File)
    requires outcome(file) == HitsOf(read, Chosen(fmt, file.lines))
    requires outcome(file).error.None?
    ensures var ms := Markers(fmt, file.lines);
      && (|ms| == 0 ==> Slot(outcome, file) == (0.0, 0.0))
      && (|ms| > 0 ==>
            read(ms[|ms| - 1]).Success? &&
            Slot(outcome, file) == (read(ms[|ms| - 1]).value.angle, read(ms[|ms| - 1]).value.energy))
  {
    ChosenHits(fmt, read, file.lines);
    var cs := Chosen(fmt, file.lines);
    var ms := Markers(fmt, file.lines);
    if |ms| > 0 {
      assert cs[|cs| - 1] == ms[|ms| - 1];
    }
  }

  /** A hit whose angle text holds no whitespace is written as a row that
      reads back exactly. */
  lemma HitReadable(fmt: Format, root: string, path: string, line: string)
    requires ReadHit(fmt, root, path, line).Success?
    requires NoSpace(ReadHit(fmt, root, path, line).value.angleText)
    ensures Readable(ReadHit(fmt, root, path, line).value)
  {
    var h := ReadHit(fmt, root, path, line).value;
    FloatTextHasDigit(h.angleText);
  }

  /** With a root given without a trailing `/`, no marker line of a globbed
      path is read: the angle text is empty and `float('')` raises, unless
      the field rule or `float` of the field raises first. */
  lemma RootWithoutSlashFails(fmt: Format, base: string, name: string, tail: string, line: string)
    requires base != "" && base[|base| - 1] != '/'
    ensures var r := ReadHit(fmt, base, GlobPath(base, name, tail), line);
      && r.Failure?
      && (Field(line, FieldIndex(fmt)).Success? && LexFloat(Field(line, FieldIndex(fmt)).value).Some? ==>
            r.error == NotAFloat(""))
  {
    AngleWithoutSlash(base, name, tail);
    EmptyIsNotFloat();
  }

  /** The angles and energies of a list of hits. */
  function Columns(hs: seq<Hit>): (sc: Scan)
    ensures |sc.angles| == |hs| && |sc.energies| == |hs|
    ensures forall k :: 0 <= k < |hs| ==> sc.angles[k] == hs[k].angle && sc.energies[k] == hs[k].energy
  {
    Scan(seq(|hs|, k requires 0 <= k < |hs| => hs[k].angle), seq(|hs|, k requires 0 <= k < |hs| => hs[k].energy))
  }

  /** Reading lines that each give their row of `sc` gives `sc`. */
  lemma {:induction false} ReadAllExact(read: string -> Result<(real, real), Error>, lines: seq<string>, sc: Scan)
    requires |sc.angles| == |lines| && |sc.energies| == |lines|
    requires forall k :: 0 <= k < |lines| ==> read(lines[k]) == Success((sc.angles[k], sc.energies[k]))
    ensures ReadAll(read, lines) == Success(sc)
    decreases |lines|
  {
    if |lines| > 0 {
      var rest := Scan(sc.angles[1..], sc.energies[1..]);
      assert forall k :: 0 <= k < |lines| - 1 ==> lines[1..][k] == lines[k + 1];
      ReadAllExact(read, lines[1..], rest);
      assert sc.angles == [sc.angles[0]] + rest.angles;
      assert sc.energies == [sc.energies[0]] + rest.energies;
    }
  }

  /** The summary written for a list of readable hits reads back as their
      angles and energies, in order. */
  lemma RowsRoundTrip(hs: seq<Hit>)
    requires forall k :: 0 <= k < |hs| ==> Readable(hs[k])
    ensures ReadSummary(RowsOf(hs)) == Success(Columns(hs))
  {
    var rows := RowsOf(hs);
    var sc := Columns(hs);
    forall k | 0 <= k < |rows| ensures ReadRow(rows[k]) == Success((sc.angles[k], sc.energies[k])) {
      RowRoundTrip(hs[k]);
    }
    ReadAllExact(ReadRow, rows, sc);
  }

  /** When every file gives exactly one hit, the hits are one per file. */
  lemma {:induction false} AllHitsSingle(outcome: File -> Hits, files: seq<File>, i: nat)
    requires i <= |files|
    requires forall j :: i <= j < |files| ==> |outcome(files[j]).hits| == 1
    ensures var hs := AllHits(outcome, files, i);
      |hs| == |files| - i && forall j :: 0 <= j < |hs| ==> hs[j] == outcome(files[i + j]).hits[0]
    decreases |files| - i
  {
    if i < |files| {
      AllHitsSingle(outcome, files, i + 1);
      var hs := AllHits(outcome, files, i + 1);
      var h := outcome(files[i]).hits;
      assert h == [h[0]];
      var all := [h[0]] + hs;
      assert AllHits(outcome, files, i) == all;
      forall j | 0 <= j < |all| ensures all[j] == outcome(files[i + j]).hits[0] {
        if j > 0 {
          assert all[j] == hs[j - 1];
          assert i + 1 + (j - 1) == i + j;
        }
      }
    }
  }

  /** An outer loop over files that each give exactly one hit fills the
      arrays with the columns of those hits and writes one row per hit. */
  lemma LoopColumns(step: (File, nat, Tables) -> Run, outcome: File -> Hits, files: seq<File>)
    requires Records(step, outcome)
    requires forall j :: 0 <= j < |files| ==> outcome(files[j]).error.None? && |outcome(files[j]).hits| == 1
    ensures var n := |files|; var r := Loop(step, files, 0, Tables(Zeros(n), Zeros(n), []));
      var hs := AllHits(outcome, files, 0);
      && r.error.None? && |hs| == |files| && r.tables.rows == RowsOf(hs)
      && Columns(hs) == Scan(r.tables.angles, r.tables.energies)
      && forall j :: 0 <= j < |hs| ==> hs[j] == outcome(files[j]).hits[0]
  {
    var n := |files|;
    var t := Tables(Zeros(n), Zeros(n), []);
    LoopError(step, outcome, files, 0, t);
    LoopTables(step, outcome, files, 0, t);
    AllHitsSingle(outcome, files, 0);
    var hs := AllHits(outcome, files, 0);
    assert [] + RowsOf(hs) == RowsOf(hs);
    ColumnsOfSlots(outcome, files, hs, Loop(step, files, 0, t).tables);
  }

  /** Slots that each hold a file's only hit hold the columns of those hits. */
  lemma ColumnsOfSlots(outcome: File -> Hits, files: seq<File>, hs: seq<Hit>, u: Tables)
    requires |hs| == |files| && |u.angles| == |files| && |u.energies| == |files|
    requires forall j :: 0 <= j < |files| ==> |outcome(files[j]).hits| == 1
    requires forall j :: 0 <= j < |hs| ==> hs[j] == outcome(files[j]).hits[0]
    requires forall j :: 0 <= j < |files| ==> (u.angles[j], u.energies[j]) == Slot(outcome, files[j])
    ensures Columns(hs) == Scan(u.angles, u.energies)
  {
    var sc := Columns(hs);
    forall j | 0 <= j < |files| ensures sc.angles[j] == u.angles[j] && sc.energies[j] == u.energies[j] {
      var o := outcome(files[j]);
      assert hs[j] == o.hits[0];
      assert Slot(outcome, files[j]) == (o.hits[0].angle, o.hits[0].energy);
    }
    assert sc.angles == u.angles;
    assert sc.energies == u.energies;
  }

  /** Every file raises nothing and gives exactly one hit, one the summary
      reads back exactly. */
  predicate Replayable(outcome: File -> Hits, files: seq<File>) {
    forall j :: 0 <= j < |files| ==>
      && outcome(files[j]).error.None?
      && |outcome(files[j]).hits| == 1 && Readable(outcome(files[j]).hits[0])
  }

  /** An outer loop over files that each give exactly one readable hit
      writes a summary that reads back as the arrays it fills. */
  lemma LoopReplays(step: (File, nat, Tables) -> Run, outcome: File -> Hits, files: seq<File>)
    requires Records(step, outcome) && Replayable(outcome, files)
    ensures var n := |files|; var r := Loop(step, files, 0, Tables(Zeros(n), Zeros(n), []));
      r.error.None? && ReadSummary(r.tables.rows) == Success(Scan(r.tables.angles, r.tables.energies))
  {
    LoopColumns(step, outcome, files);
    RowsRoundTrip(AllHits(outcome, files, 0));
  }

  /** The summary caches the scan when every file gives exactly one hit and
      every hit is readable: a second call that finds the summary gives the
      same arrays as the first. */
  lemma CacheReplays(fmt: Format, root: string, files: seq<File>)
    requires Replayable(Outcomes(fmt, root), SortBy(PathKey, files))
    ensures var c := Cat(fmt, root, files, None);
      c.scan.Success? && c.summary.Some? && Cat(fmt, root, files, c.summary).scan == c.scan
  {
    var sorted := SortBy(PathKey, files);
    var n := |sorted|;
    FileStepRecords(fmt, root);
    LoopReplays(FileStep(fmt, root), Outcomes(fmt, root), sorted);
  }
}
