/** The natural sort key the parser orders its per-angle files by:
    `re.split(r'(\d+)', path)` with every captured digit run turned into an
    `int`, compared the way Python compares lists. */
module NaturalSort {
  import opened PyText
  import opened Numerals

  predicate NoDigit(s: string) {
    forall i :: 0 <= i < |s| ==> !IsDigit(s[i])
  }

  /** The end of the run of non-digits starting at `from`. */
  function NonDigitEnd(s: string, from: nat): (k: nat)
    requires from <= |s|
    ensures from <= k <= |s|
    ensures forall j :: from <= j < k ==> !IsDigit(s[j])
    ensures k == |s| || IsDigit(s[k])
    decreases |s| - from
  {
    if from == |s| || IsDigit(s[from]) then from else NonDigitEnd(s, from + 1)
  }

  /** The end of the run of digits starting at `from`. */
  function DigitEnd(s: string, from: nat): (k: nat)
    requires from <= |s|
    ensures from <= k <= |s|
    ensures forall j :: from <= j < k ==> IsDigit(s[j])
    ensures k == |s| || !IsDigit(s[k])
    decreases |s| - from
  {
    if from == |s| || !IsDigit(s[from]) then from else DigitEnd(s, from + 1)
  }

  /** `re.split(r'(\d+)', s)`: the text before the first digit run, that run,
      the text up to the next run, and so on, ending with the text after the
      last run. */
  function DigitSplit(s: string): (r: seq<string>)
    ensures |r| >= 1
    decreases |s|
  {
    var t := NonDigitEnd(s, 0);
    if t == |s| then [s]
    else
      var d := DigitEnd(s, t);
      [s[..t], s[t..d]] + DigitSplit(s[d..])
  }

  /** The shape of a capturing split on `\d+`: odd length, digit-free texts at
      even positions, non-empty digit runs at odd positions, and non-empty texts
      between two runs (the runs are maximal). */
  predicate WellSplit(r: seq<string>) {
    && |r| % 2 == 1
    && (forall i :: 0 <= i < |r| && i % 2 == 0 ==> NoDigit(r[i]))
    && (forall i :: 0 <= i < |r| && i % 2 == 1 ==> |r[i]| > 0 && AllDigits(r[i]))
    && (forall i :: 0 < i < |r| - 1 && i % 2 == 0 ==> |r[i]| > 0)
  }

  /** The pieces of `re.split` put back together are the string. */
  lemma {:induction false} DigitSplitConcat(s: string)
    ensures Concat(DigitSplit(s)) == s
    decreases |s|
  {
    var t := NonDigitEnd(s, 0);
    if t < |s| {
      var d := DigitEnd(s, t);
      var rest := DigitSplit(s[d..]);
      DigitSplitConcat(s[d..]);
      var r := [s[..t], s[t..d]] + rest;
      assert DigitSplit(s) == r;
      assert r[1..] == [s[t..d]] + rest && r[1..][1..] == rest;
      assert Concat(r) == s[..t] + (s[t..d] + Concat(rest));
      assert s == s[..t] + (s[t..d] + s[d..]);
    }
  }

  /** A string that starts with a non-digit starts with a non-empty text. */
  lemma DigitSplitHead(s: string)
    requires |s| > 0 && !IsDigit(s[0])
    ensures |DigitSplit(s)[0]| > 0
  {
    var t := NonDigitEnd(s, 0);
    assert t > 0;
    assert DigitSplit(s)[0] == s[..t];
  }

  /** `re.split(r'(\d+)', s)` always has the capturing-split shape. */
  lemma {:induction false} DigitSplitShape(s: string)
    ensures WellSplit(DigitSplit(s))
    decreases |s|
  {
    var t := NonDigitEnd(s, 0);
    if t == |s| {
      assert DigitSplit(s) == [s];
    } else {
      var d := DigitEnd(s, t);
      var rest := DigitSplit(s[d..]);
      DigitSplitShape(s[d..]);
      assert DigitSplit(s) == [s[..t], s[t..d]] + rest;
      assert NoDigit(s[..t]) by {
        forall j | 0 <= j < t ensures !IsDigit(s[..t][j]) { assert s[..t][j] == s[j]; }
      }
      assert AllDigits(s[t..d]) by {
        forall j | 0 <= j < d - t ensures IsDigit(s[t..d][j]) { assert s[t..d][j] == s[t + j]; }
      }
      if |rest| > 1 {
        assert d == |s| ==> rest == [""] by { assert s[|s|..] == ""; }
        assert s[d..][0] == s[d];
        DigitSplitHead(s[d..]);
      }
      WellSplitCons(s[..t], s[t..d], rest);
    }
  }

  /** A text and a digit run in front of a capturing split keep its shape. */
  lemma WellSplitCons(a: string, b: string, rest: seq<string>)
    requires NoDigit(a) && |b| > 0 && AllDigits(b) && WellSplit(rest)
    requires |rest| > 1 ==> |rest[0]| > 0
    ensures WellSplit([a, b] + rest)
  {
    var r := [a, b] + rest;
    assert forall i :: 2 <= i < |r| ==> r[i] == rest[i - 2];
    forall i | 0 < i < |r| - 1 && i % 2 == 0 ensures |r[i]| > 0 {
      assert i - 2 == 0 || 0 < i - 2 < |rest| - 1;
    }
  }

  lemma NonDigitEndIs(s: string, from: nat, k: nat)
    requires from <= k <= |s|
    requires forall j :: from <= j < k ==> !IsDigit(s[j])
    requires k == |s| || IsDigit(s[k])
    ensures NonDigitEnd(s, from) == k
  {
  }

  lemma DigitEndIs(s: string, from: nat, k: nat)
    requires from <= k <= |s|
    requires forall j :: from <= j < k ==> IsDigit(s[j])
    requires k == |s| || !IsDigit(s[k])
    ensures DigitEnd(s, from) == k
  {
  }

  lemma WellSplitTail(r: seq<string>)
    requires WellSplit(r) && |r| >= 3
    ensures WellSplit(r[2..])
  {
    var tail := r[2..];
    assert forall i :: 0 <= i < |tail| ==> tail[i] == r[i + 2];
  }

  lemma ConcatPair(r: seq<string>)
    requires |r| >= 2
    ensures Concat(r) == r[0] + r[1] + Concat(r[2..])
  {
    assert r[1..][1..] == r[2..];
  }

  /** The pieces of a capturing split of `s` on `\d+` are determined by `s`:
      any sequence of that shape which joins back to `s` is `DigitSplit(s)`. */
  lemma {:induction false} DigitSplitUnique(s: string, r: seq<string>)
    requires WellSplit(r) && Concat(r) == s
    ensures r == DigitSplit(s)
    decreases |s|
  {
    if |r| == 1 {
      assert r[1..] == [];
      assert s == r[0];
      assert NoDigit(r[0]);
      NonDigitEndIs(s, 0, |s|);
    } else {
      var a, b := r[0], r[1];
      var c := Concat(r[2..]);
      FirstRuns(s, r);
      WellSplitTail(r);
      DigitSplitUnique(c, r[2..]);
      assert DigitSplit(s) == [a, b] + DigitSplit(c);
      assert r == [a, b] + r[2..];
    }
  }

  /** The first text and digit run of a capturing split are the runs
      `DigitSplit` cuts off. */
  lemma FirstRuns(s: string, r: seq<string>)
    requires WellSplit(r) && Concat(r) == s && |r| >= 3
    ensures NonDigitEnd(s, 0) == |r[0]| < |s|
    ensures DigitEnd(s, |r[0]|) == |r[0]| + |r[1]|
    ensures s[..|r[0]|] == r[0] && s[|r[0]|..|r[0]| + |r[1]|] == r[1]
    ensures s[|r[0]| + |r[1]|..] == Concat(r[2..])
  {
    var a, b := r[0], r[1];
    var c := Concat(r[2..]);
    ConcatPair(r);
    assert s == a + b + c;
    forall j | 0 <= j < |a| ensures !IsDigit(s[j]) { assert s[j] == a[j]; }
    assert s[|a|] == b[0];
    NonDigitEndIs(s, 0, |a|);
    forall j | |a| <= j < |a| + |b| ensures IsDigit(s[j]) { assert s[j] == b[j - |a|]; }
    NextIsText(r);
    DigitEndIs(s, |a|, |a| + |b|);
    assert s[..|a|] == a && s[|a|..|a| + |b|] == b && s[|a| + |b|..] == c;
  }

  /** What follows a digit run in a capturing split does not start with a digit. */
  lemma NextIsText(r: seq<string>)
    requires WellSplit(r) && |r| >= 3
    ensures Concat(r[2..]) == "" || !IsDigit(Concat(r[2..])[0])
  {
    var tail := r[2..];
    ConcatCons(tail[0], tail[1..]);
    assert tail == [tail[0]] + tail[1..];
    if |tail[0]| == 0 {
      assert |r| == 3;
      assert tail[1..] == [];
    } else {
      assert Concat(tail)[0] == tail[0][0];
    }
  }

  /** One element of a sort key: a text piece or the `int` of a digit run. */
  datatype Part = Text(text: string) | Num(value: nat)

  /** `parts[1::2] = list(map(int, parts[1::2]))`: the digit runs at odd
      positions become numbers, the texts stay. */
  function Parts(r: seq<string>): (k: seq<Part>)
    requires WellSplit(r)
    ensures |k| == |r|
    ensures forall i :: 0 <= i < |r| && i % 2 == 0 ==> k[i] == Text(r[i])
    ensures forall i :: 0 <= i < |r| && i % 2 == 1 ==> k[i] == Num(DigitsValue(r[i]))
    decreases |r|
  {
    if |r| == 1 then [Text(r[0])]
    else
      WellSplitTail(r);
      var rest := Parts(r[2..]);
      var k := [Text(r[0]), Num(DigitsValue(r[1]))] + rest;
      assert forall i :: 2 <= i < |r| ==> k[i] == rest[i - 2] && r[i] == r[2..][i - 2];
      k
  }

  /** `numericalSort(value)`. */
  function SortKey(s: string): seq<Part> {
    DigitSplitShape(s);
    Parts(DigitSplit(s))
  }

  /** A sort key alternates text and numbers, starting and ending with text. */
  predicate WellKey(k: seq<Part>) {
    |k| % 2 == 1 && forall i :: 0 <= i < |k| ==> (k[i].Text? <==> i % 2 == 0)
  }

  /** The key of `s` is its capturing split on `\d+` with each digit run read as a
      number: texts at even positions, in order, and numbers at odd positions. */
  lemma SortKeyShape(s: string)
    ensures WellKey(SortKey(s))
    ensures |SortKey(s)| == |DigitSplit(s)|
    ensures forall i :: 0 <= i < |SortKey(s)| && i % 2 == 0 ==> SortKey(s)[i] == Text(DigitSplit(s)[i])
  {
    DigitSplitShape(s);
  }

  /** The docstring promises `['5']` for `5`; the code returns the empty text
      before the run, the number, and the empty text after it. */
  lemma SortKeyOfFive()
    ensures SortKey("5") == [Text(""), Num(5), Text("")]
  {
    assert NonDigitEnd("5", 0) == 0;
    assert DigitEnd("5", 0) == 1;
    assert "5"[..0] == "" && "5"[0..1] == "5" && "5"[1..] == "";
    assert DigitSplit("") == [""];
    assert DigitSplit("5") == ["", "5", ""];
    assert DigitsValue("5") == 5 by { assert "5"[..0] == ""; }
  }

  /** Python's `<` on `str`: code point by code point, a proper prefix first. */
  predicate StrLess(a: string, b: string)
    decreases |a|
  {
    if |a| == 0 then |b| > 0
    else |b| > 0 && (a[0] < b[0] || (a[0] == b[0] && StrLess(a[1..], b[1..])))
  }

  /** `<` between two key elements. Python raises `TypeError` when a text meets
      a number; two keys never line those up (`AlignedKeys`). */
  predicate PartLess(a: Part, b: Part) {
    match (a, b)
    case (Text(x), Text(y)) => StrLess(x, y)
    case (Num(m), Num(n)) => m < n
    case _ => false
  }

  /** Python's `<` on lists: the first differing element decides, and a
      proper prefix comes first. */
  predicate KeyLess(a: seq<Part>, b: seq<Part>)
    decreases |a|
  {
    if |a| == 0 then |b| > 0
    else if |b| == 0 then false
    else if a[0] == b[0] then KeyLess(a[1..], b[1..])
    else PartLess(a[0], b[0])
  }

  /** At every position both keys have, both hold a text or both a number. */
  predicate AlignedKeys(a: seq<Part>, b: seq<Part>) {
    forall i :: 0 <= i < |a| && i < |b| ==> (a[i].Text? <==> b[i].Text?)
  }

  lemma WellKeysAligned(a: seq<Part>, b: seq<Part>)
    requires WellKey(a) && WellKey(b)
    ensures AlignedKeys(a, b)
  {
  }

  lemma {:induction false} StrLessIrreflexive(a: string)
    ensures !StrLess(a, a)
    decreases |a|
  {
    if |a| > 0 {
      StrLessIrreflexive(a[1..]);
    }
  }

  lemma {:induction false} StrLessTransitive(a: string, b: string, c: string)
    requires StrLess(a, b) && StrLess(b, c)
    ensures StrLess(a, c)
    decreases |a|
  {
    if |a| > 0 && a[0] == b[0] && b[0] == c[0] {
      StrLessTransitive(a[1..], b[1..], c[1..]);
    }
  }

  lemma {:induction false} StrLessTotal(a: string, b: string)
    ensures StrLess(a, b) || StrLess(b, a) || a == b
    decreases |a|
  {
    if |a| > 0 && |b| > 0 && a[0] == b[0] {
      StrLessTotal(a[1..], b[1..]);
      if a[1..] == b[1..] {
        assert a == [a[0]] + a[1..] && b == [b[0]] + b[1..];
      }
    }
  }

  lemma PartLessTransitive(a: Part, b: Part, c: Part)
    requires PartLess(a, b) && PartLess(b, c)
    ensures PartLess(a, c)
  {
    if a.Text? {
      StrLessTransitive(a.text, b.text, c.text);
    }
  }

  lemma PartLessIrreflexive(a: Part)
    ensures !PartLess(a, a)
  {
    if a.Text? {
      StrLessIrreflexive(a.text);
    }
  }

  /** Two elements of the same kind are ordered one way or the other, or equal. */
  lemma PartLessTotal(a: Part, b: Part)
    requires a.Text? <==> b.Text?
    ensures PartLess(a, b) || PartLess(b, a) || a == b
  {
    if a.Text? {
      StrLessTotal(a.text, b.text);
    }
  }

  lemma {:induction false} KeyLessIrreflexive(a: seq<Part>)
    ensures !KeyLess(a, a)
    decreases |a|
  {
    if |a| > 0 {
      KeyLessIrreflexive(a[1..]);
    }
  }

  lemma {:induction false} KeyLessTransitive(a: seq<Part>, b: seq<Part>, c: seq<Part>)
    requires KeyLess(a, b) && KeyLess(b, c)
    ensures KeyLess(a, c)
    decreases |a|
  {
    if |a| > 0 {
      if a[0] == b[0] && b[0] == c[0] {
        KeyLessTransitive(a[1..], b[1..], c[1..]);
      } else if a[0] != b[0] && b[0] != c[0] {
        PartLessTransitive(a[0], b[0], c[0]);
        if a[0] == c[0] {
          PartLessIrreflexive(a[0]);
        }
      }
    }
  }

  /** Keys whose kinds line up are ordered one way or the other, or equal:
      sorting by `numericalSort` never compares a text with a number. */
  lemma {:induction false} KeyLessTotal(a: seq<Part>, b: seq<Part>)
    requires AlignedKeys(a, b)
    ensures KeyLess(a, b) || KeyLess(b, a) || a == b
    decreases |a|
  {
    if |a| > 0 && |b| > 0 {
      if a[0] == b[0] {
        assert AlignedKeys(a[1..], b[1..]) by {
          forall i | 0 <= i < |a[1..]| && i < |b[1..]| ensures (a[1..][i].Text? <==> b[1..][i].Text?) {
            assert a[1..][i] == a[i + 1] && b[1..][i] == b[i + 1];
          }
        }
        KeyLessTotal(a[1..], b[1..]);
        if a[1..] == b[1..] {
          assert a == [a[0]] + a[1..] && b == [b[0]] + b[1..];
        }
      } else {
        PartLessTotal(a[0], b[0]);
      }
    }
  }

  /** A string that does not end in a digit ends its capturing split with a
      non-empty text, unless it has no digit run at all. */
  lemma {:induction false} LastTextNonEmpty(p: string)
    requires p == "" || !IsDigit(p[|p| - 1])
    ensures var r := DigitSplit(p); |r| == 1 || |r[|r| - 1]| > 0
    decreases |p|
  {
    var t := NonDigitEnd(p, 0);
    if t < |p| {
      var d := DigitEnd(p, t);
      var rest := DigitSplit(p[d..]);
      assert DigitSplit(p) == [p[..t], p[t..d]] + rest;
      assert d < |p|;
      assert p[d..][|p[d..]| - 1] == p[|p| - 1];
      LastTextNonEmpty(p[d..]);
      if |rest| == 1 {
        NonDigitEndIs(p[d..], 0, |p[d..]|);
        assert rest == [p[d..]];
      }
    }
  }

  /** Two capturing splits joined around a digit run keep the shape, provided
      the texts that become interior are non-empty. */
  lemma WellSplitJoin(a: seq<string>, d: string, b: seq<string>)
    requires WellSplit(a) && WellSplit(b) && |d| > 0 && AllDigits(d)
    requires |a| == 1 || |a[|a| - 1]| > 0
    requires |b| == 1 || |b[0]| > 0
    ensures WellSplit(a + [d] + b)
  {
    var r := a + [d] + b;
    forall i | 0 <= i < |r| && i % 2 == 0 ensures NoDigit(r[i]) {
      if i < |a| {
        assert r[i] == a[i];
      } else {
        var j := i - |a| - 1;
        assert j % 2 == 0 && r[i] == b[j];
      }
    }
    forall i | 0 <= i < |r| && i % 2 == 1 ensures |r[i]| > 0 && AllDigits(r[i]) {
      if i < |a| {
        assert r[i] == a[i];
      } else if i > |a| {
        var j := i - |a| - 1;
        assert j % 2 == 1 && r[i] == b[j];
      }
    }
    forall i | 0 < i < |r| - 1 && i % 2 == 0 ensures |r[i]| > 0 {
      if i < |a| - 1 {
        assert r[i] == a[i];
      } else if i == |a| - 1 {
        assert r[i] == a[|a| - 1];
      } else if i == |a| + 1 {
        assert r[i] == b[0];
      } else {
        var j := i - |a| - 1;
        assert 0 < j < |b| - 1 && r[i] == b[j];
      }
    }
  }

  lemma ConcatJoin(a: seq<string>, d: string, b: seq<string>)
    ensures Concat(a + [d] + b) == Concat(a) + d + Concat(b)
  {
    ConcatAppend(a + [d], b);
    ConcatAppend(a, [d]);
    ConcatCons(d, []);
    assert [d] + [] == [d];
  }

  /** Splitting at a digit run that is bounded by non-digits on both sides:
      the split of the whole is the split of the left, the run, and the split
      of the right. */
  lemma DigitSplitAround(p: string, d: string, q: string)
    requires p == "" || !IsDigit(p[|p| - 1])
    requires |d| > 0 && AllDigits(d)
    requires q == "" || !IsDigit(q[0])
    ensures DigitSplit(p + d + q) == DigitSplit(p) + [d] + DigitSplit(q)
  {
    var a, b := DigitSplit(p), DigitSplit(q);
    AroundWellSplit(p, d, q);
    assert Concat(a + [d] + b) == p + d + q by {
      DigitSplitConcat(p);
      DigitSplitConcat(q);
      ConcatJoin(a, d, b);
    }
    DigitSplitUnique(p + d + q, a + [d] + b);
  }

  lemma AroundWellSplit(p: string, d: string, q: string)
    requires p == "" || !IsDigit(p[|p| - 1])
    requires |d| > 0 && AllDigits(d)
    requires q == "" || !IsDigit(q[0])
    ensures WellSplit(DigitSplit(p) + [d] + DigitSplit(q))
  {
    var a, b := DigitSplit(p), DigitSplit(q);
    DigitSplitShape(p);
    DigitSplitShape(q);
    LastTextNonEmpty(p);
    if q != "" {
      DigitSplitHead(q);
    }
    WellSplitJoin(a, d, b);
  }

  /** The key of a joined split is the keys of its halves around the run's number. */
  lemma PartsJoin(a: seq<string>, d: string, b: seq<string>)
    requires WellSplit(a) && WellSplit(b) && |d| > 0 && AllDigits(d)
    requires WellSplit(a + [d] + b)
    ensures Parts(a + [d] + b) == Parts(a) + ([Num(DigitsValue(d))] + Parts(b))
  {
    var r := a + [d] + b;
    var pr, pa, pb := Parts(r), Parts(a), Parts(b);
    var k := pa + ([Num(DigitsValue(d))] + pb);
    var h := |a| + 1;
    assert h % 2 == 0;
    forall i | 0 <= i < |r| ensures pr[i] == k[i] {
      PartAt(r, i);
      if i < |a| {
        PartAt(a, i);
        assert r[i] == a[i] && k[i] == pa[i];
      } else if i == |a| {
        assert r[i] == d && k[i] == Num(DigitsValue(d));
      } else {
        var j := i - h;
        ParityShift(h, j);
        PartAt(b, j);
        assert r[i] == b[j] && k[i] == pb[j];
      }
    }
    assert |pr| == |k|;
  }

  /** Element `i` of a key, by the parity of `i`. */
  lemma PartAt(r: seq<string>, i: nat)
    requires WellSplit(r) && i < |r|
    ensures Parts(r)[i] == if i % 2 == 0 then Text(r[i]) else Num(DigitsValue(r[i]))
  {
  }

  lemma ParityShift(h: nat, j: nat)
    requires h % 2 == 0
    ensures (h + j) % 2 == j % 2
  {
  }

  /** A common prefix does not change how two keys compare. */
  lemma {:induction false} KeyLessCommonPrefix(c: seq<Part>, x: seq<Part>, y: seq<Part>)
    ensures KeyLess(c + x, c + y) == KeyLess(x, y)
    decreases |c|
  {
    if |c| > 0 {
      assert (c + x)[1..] == c[1..] + x && (c + y)[1..] == c[1..] + y;
      KeyLessCommonPrefix(c[1..], x, y);
    } else {
      assert c + x == x && c + y == y;
    }
  }

  /** Keys that differ only in one number compare as those numbers do. */
  lemma KeyLessAtNumber(m: nat, n: nat, z: seq<Part>)
    ensures KeyLess([Num(m)] + z, [Num(n)] + z) <==> m < n
  {
    if m == n {
      assert ([Num(m)] + z)[1..] == z;
      KeyLessIrreflexive(z);
    }
  }

  /** The key of a string with a bounded digit run in it. */
  lemma SortKeyAround(p: string, d: string, q: string)
    requires p == "" || !IsDigit(p[|p| - 1])
    requires |d| > 0 && AllDigits(d)
    requires q == "" || !IsDigit(q[0])
    ensures SortKey(p + d + q) == SortKey(p) + ([Num(DigitsValue(d))] + SortKey(q))
  {
    var a, b := DigitSplit(p), DigitSplit(q);
    DigitSplitShape(p);
    DigitSplitShape(q);
    DigitSplitAround(p, d, q);
    var r := a + [d] + b;
    assert DigitSplit(p + d + q) == r;
    DigitSplitShape(p + d + q);
    PartsJoin(a, d, b);
    assert SortKey(p + d + q) == Parts(r);
  }

  /** Two paths that are the same but for one digit run, bounded by non-digits,
      sort by the run's value: `angle/10/...` after `angle/9/...`. */
  lemma SortKeyAtRun(p: string, d1: string, d2: string, q: string)
    requires p == "" || !IsDigit(p[|p| - 1])
    requires |d1| > 0 && AllDigits(d1) && |d2| > 0 && AllDigits(d2)
    requires q == "" || !IsDigit(q[0])
    ensures KeyLess(SortKey(p + d1 + q), SortKey(p + d2 + q)) <==> DigitsValue(d1) < DigitsValue(d2)
  {
    SortKeyAround(p, d1, q);
    SortKeyAround(p, d2, q);
    var m, n := DigitsValue(d1), DigitsValue(d2);
    KeyLessCommonPrefix(SortKey(p), [Num(m)] + SortKey(q), [Num(n)] + SortKey(q));
    KeyLessAtNumber(m, n, SortKey(q));
  }

  /** Every sort key alternates texts and numbers in the same way, so any two
      are comparable. */
  ghost predicate WellKeyed<T(!new)>(key: T -> seq<Part>) {
    forall x :: WellKey(key(x))
  }

  lemma SortKeyWellKeyed()
    ensures WellKeyed(SortKey)
  {
    forall x ensures WellKey(SortKey(x)) {
      SortKeyShape(x);
    }
  }

  /** `a` may precede `b` when sorting by `key`: the key of `b` is not less
      than the key of `a`. */
  predicate NotAfter<T>(key: T -> seq<Part>, a: T, b: T) {
    !KeyLess(key(b), key(a))
  }

  lemma NotAfterTotal<T>(key: T -> seq<Part>, a: T, b: T)
    ensures NotAfter(key, a, b) || NotAfter(key, b, a)
  {
    var ka, kb := key(a), key(b);
    if KeyLess(ka, kb) && KeyLess(kb, ka) {
      KeyLessTransitive(ka, kb, ka);
      KeyLessIrreflexive(ka);
    }
  }

  lemma NotAfterTransitive<T(!new)>(key: T -> seq<Part>, a: T, b: T, c: T)
    requires WellKeyed(key)
    requires NotAfter(key, a, b) && NotAfter(key, b, c)
    ensures NotAfter(key, a, c)
  {
    var ka, kb, kc := key(a), key(b), key(c);
    if KeyLess(kc, ka) {
      WellKeysAligned(ka, kb);
      KeyLessTotal(ka, kb);
      if ka != kb {
        KeyLessTransitive(kc, ka, kb);
      }
    }
  }

  predicate Sorted<T>(key: T -> seq<Part>, xs: seq<T>) {
    forall i, j :: 0 <= i < j < |xs| ==> NotAfter(key, xs[i], xs[j])
  }

  /** One insertion step of a stable sort: `x` goes in front of the first
      element it does not sort after. */
  function Insert<T(==)>(key: T -> seq<Part>, x: T, xs: seq<T>): (r: seq<T>)
    ensures multiset(r) == multiset(xs) + multiset{x}
    decreases |xs|
  {
    if |xs| == 0 || NotAfter(key, x, xs[0]) then [x] + xs
    else
      assert xs == [xs[0]] + xs[1..];
      [xs[0]] + Insert(key, x, xs[1..])
  }

  /** Python's `sorted(xs, key=key)` for a key that returns a `numericalSort`
      list: insertion from the back, so that of two elements with equal keys
      the earlier one stays first. */
  function SortBy<T(==)>(key: T -> seq<Part>, xs: seq<T>): (r: seq<T>)
    ensures multiset(r) == multiset(xs)
    decreases |xs|
  {
    if |xs| == 0 then []
    else
      assert xs == [xs[0]] + xs[1..];
      Insert(key, xs[0], SortBy(key, xs[1..]))
  }

  /** `sorted(paths, key=numericalSort)`. */
  function SortPaths(xs: seq<string>): (r: seq<string>)
    ensures multiset(r) == multiset(xs)
  {
    SortBy(SortKey, xs)
  }

  lemma SortedTail<T>(key: T -> seq<Part>, xs: seq<T>)
    requires Sorted(key, xs) && |xs| > 0
    ensures Sorted(key, xs[1..])
    ensures forall e :: e in xs[1..] ==> NotAfter(key, xs[0], e)
  {
    forall e | e in xs[1..] ensures NotAfter(key, xs[0], e) {
      var j :| 0 <= j < |xs[1..]| && xs[1..][j] == e;
      assert xs[j + 1] == e;
    }
  }

  lemma SortedCons<T>(key: T -> seq<Part>, x: T, xs: seq<T>)
    requires Sorted(key, xs)
    requires forall e :: e in xs ==> NotAfter(key, x, e)
    ensures Sorted(key, [x] + xs)
  {
    var r := [x] + xs;
    forall i, j | 0 <= i < j < |r| ensures NotAfter(key, r[i], r[j]) {
      assert r[j] == xs[j - 1];
      if i > 0 {
        assert r[i] == xs[i - 1];
      }
    }
  }

  lemma {:induction false} InsertSorted<T(!new)>(key: T -> seq<Part>, x: T, xs: seq<T>)
    requires WellKeyed(key) && Sorted(key, xs)
    ensures Sorted(key, Insert(key, x, xs))
    decreases |xs|
  {
    if |xs| == 0 {
    } else if NotAfter(key, x, xs[0]) {
      SortedTail(key, xs);
      forall e | e in xs ensures NotAfter(key, x, e) {
        if e != xs[0] {
          assert xs == [xs[0]] + xs[1..];
          NotAfterTransitive(key, x, xs[0], e);
        }
      }
      SortedCons(key, x, xs);
    } else {
      SortedTail(key, xs);
      InsertSorted(key, x, xs[1..]);
      NotAfterTotal(key, x, xs[0]);
      var rest := Insert(key, x, xs[1..]);
      forall e | e in rest ensures NotAfter(key, xs[0], e) {
        assert e in multiset(rest);
      }
      SortedCons(key, xs[0], rest);
    }
  }

  lemma {:induction false} SortBySorted<T(!new)>(key: T -> seq<Part>, xs: seq<T>)
    requires WellKeyed(key)
    ensures Sorted(key, SortBy(key, xs))
    decreases |xs|
  {
    if |xs| > 0 {
      SortBySorted(key, xs[1..]);
      InsertSorted(key, xs[0], SortBy(key, xs[1..]));
    }
  }

  /** The result of sorting the paths is in `numericalSort` order. */
  lemma SortPathsSorted(xs: seq<string>)
    ensures Sorted(SortKey, SortPaths(xs))
  {
    SortKeyWellKeyed();
    SortBySorted(SortKey, xs);
  }

  /** The elements of `xs` whose key is `k`, in order. */
  function WithKey<T>(key: T -> seq<Part>, xs: seq<T>, k: seq<Part>): seq<T>
    decreases |xs|
  {
    if |xs| == 0 then []
    else (if key(xs[0]) == k then [xs[0]] else []) + WithKey(key, xs[1..], k)
  }

  lemma {:induction false} InsertWithKey<T>(key: T -> seq<Part>, x: T, xs: seq<T>, k: seq<Part>)
    ensures WithKey(key, Insert(key, x, xs), k) == (if key(x) == k then [x] else []) + WithKey(key, xs, k)
    decreases |xs|
  {
    var here := if key(x) == k then [x] else [];
    if |xs| == 0 || NotAfter(key, x, xs[0]) {
      assert ([x] + xs)[1..] == xs;
    } else {
      var y := xs[0];
      var there := if key(y) == k then [y] else [];
      InsertWithKey(key, x, xs[1..], k);
      assert ([y] + Insert(key, x, xs[1..]))[1..] == Insert(key, x, xs[1..]);
      if key(y) == k && key(x) == k {
        KeyLessIrreflexive(k);
      }
      assert there + here == here + there;
      assert WithKey(key, Insert(key, x, xs), k) == there + (here + WithKey(key, xs[1..], k));
    }
  }

  lemma {:induction false} SortByStable<T>(key: T -> seq<Part>, xs: seq<T>, k: seq<Part>)
    ensures WithKey(key, SortBy(key, xs), k) == WithKey(key, xs, k)
    decreases |xs|
  {
    if |xs| > 0 {
      SortByStable(key, xs[1..], k);
      InsertWithKey(key, xs[0], SortBy(key, xs[1..]), k);
    }
  }

  /** `sorted` is stable: the paths that share a key keep their input order. */
  lemma SortPathsStable(xs: seq<string>, k: seq<Part>)
    ensures WithKey(SortKey, SortPaths(xs), k) == WithKey(SortKey, xs, k)
  {
    SortByStable(SortKey, xs, k);
  }
}
