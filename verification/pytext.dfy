/** The Python string operations the parser relies on, over `string`
    (`seq<char>`, one element per code point): `str.isspace`, the `in`
    operator on strings, `str.startswith`, `str.split(sep)`, `str.split()`,
    `str.strip()` and `re.sub(' +', ' ', s)`. */
module PyText {
  import opened Wrappers
  import opened PyErrors

  /** `c.isspace()`: the characters Python treats as whitespace. */
  predicate IsSpace(c: char) {
    || c == ' '
    || '\t' <= c <= '\r'
    || '\U{1c}' <= c <= '\U{1f}'
    || c == '\U{85}' || c == '\U{a0}' || c == '\U{1680}'
    || '\U{2000}' <= c <= '\U{200a}'
    || c == '\U{2028}' || c == '\U{2029}' || c == '\U{202f}'
    || c == '\U{205f}' || c == '\U{3000}'
  }

  /** An ASCII decimal digit. */
  predicate IsDigit(c: char) {
    '0' <= c <= '9'
  }

  predicate NoSpace(s: string) {
    forall i :: 0 <= i < |s| ==> !IsSpace(s[i])
  }

  predicate AllSpace(s: string) {
    forall i :: 0 <= i < |s| ==> IsSpace(s[i])
  }

  /** `sep` occurs in `s` starting at index `i`. */
  predicate MatchAt(s: string, sep: string, i: nat) {
    i + |sep| <= |s| && s[i..i + |sep|] == sep
  }

  /** Index of the first occurrence of `sep` in `s` at or after `from`. */
  function FindFrom(s: string, sep: string, from: nat): (r: Option<nat>)
    requires from <= |s|
    ensures r.Some? ==> from <= r.value && MatchAt(s, sep, r.value)
    ensures r.Some? ==> forall j :: from <= j < r.value ==> !MatchAt(s, sep, j)
    ensures r.None? ==> forall j :: from <= j <= |s| ==> !MatchAt(s, sep, j)
    decreases |s| - from
  {
    if MatchAt(s, sep, from) then Some(from)
    else if from == |s| then None
    else FindFrom(s, sep, from + 1)
  }

  /** `s.find(sep)`, with `None` for Python's `-1`. */
  function Find(s: string, sep: string): Option<nat> {
    FindFrom(s, sep, 0)
  }

  /** `sep in s` for strings. */
  predicate Contains(s: string, sep: string) {
    Find(s, sep).Some?
  }

  /** An occurrence with none before it is the one `Find` reports. */
  lemma FindFirst(s: string, sep: string, k: nat)
    requires MatchAt(s, sep, k)
    requires forall j :: 0 <= j < k ==> !MatchAt(s, sep, j)
    ensures Find(s, sep) == Some(k)
  {
  }

  /** No occurrence of `sep` starts before `i`, so none lies inside `s[..i]`. */
  lemma NotContainsPrefix(s: string, sep: string, i: nat)
    requires |sep| > 0 && i <= |s|
    requires forall j :: 0 <= j < i ==> !MatchAt(s, sep, j)
    ensures !Contains(s[..i], sep)
  {
    var t := s[..i];
    forall k | 0 <= k <= i ensures !MatchAt(t, sep, k) {
      if k + |sep| <= i {
        assert k < i && !MatchAt(s, sep, k);
        assert t[k..k + |sep|] == s[k..k + |sep|];
      }
    }
  }

  /** `sep.join(parts)`. */
  function Join(parts: seq<string>, sep: string): string
    decreases |parts|
  {
    if |parts| == 0 then ""
    else if |parts| == 1 then parts[0]
    else parts[0] + sep + Join(parts[1..], sep)
  }

  /** `s.split(sep)` for a non-empty `sep`: the pieces between the
      occurrences of `sep`, found left to right without overlap. */
  function Split(s: string, sep: string): (parts: seq<string>)
    requires |sep| > 0
    ensures |parts| >= 1
    ensures Join(parts, sep) == s
    ensures forall k :: 0 <= k < |parts| ==> !Contains(parts[k], sep)
    decreases |s|
  {
    match Find(s, sep)
    case None =>
      assert s[..|s|] == s;
      NotContainsPrefix(s, sep, |s|);
      [s]
    case Some(i) =>
      var rest := Split(s[i + |sep|..], sep);
      NotContainsPrefix(s, sep, i);
      assert s == s[..i] + sep + s[i + |sep|..] by {
        assert s[i..i + |sep|] == sep;
      }
      [s[..i]] + rest
  }

  /** Every piece but the last ends where the first occurrence of `sep`
      in the rest of the text begins: the cuts are made left to right. */
  predicate CutsLeftmost(parts: seq<string>, sep: string) {
    forall k :: 0 <= k < |parts| - 1 ==> Find(Join(parts[k..], sep), sep) == Some(|parts[k]|)
  }

  /** `Split` cuts at the leftmost occurrence each time. */
  lemma {:induction false} SplitLeftmost(s: string, sep: string)
    requires |sep| > 0
    ensures CutsLeftmost(Split(s, sep), sep)
    decreases |s|
  {
    var parts := Split(s, sep);
    match Find(s, sep)
    case None =>
    case Some(i) =>
      var t := s[i + |sep|..];
      var rest := Split(t, sep);
      assert parts == [s[..i]] + rest;
      SplitLeftmost(t, sep);
      forall k | 0 <= k < |parts| - 1 ensures Find(Join(parts[k..], sep), sep) == Some(|parts[k]|) {
        if k == 0 {
          assert parts[0..] == parts;
        } else {
          assert parts[k..] == rest[k - 1..];
        }
      }
  }

  /** Pieces that join back to `s`, are cut left to right, and end in a
      piece without `sep` are `s.split(sep)`: nothing else meets that. */
  lemma {:induction false} SplitUnique(s: string, sep: string, parts: seq<string>)
    requires |sep| > 0 && |parts| >= 1 && Join(parts, sep) == s
    requires !Contains(parts[|parts| - 1], sep)
    requires CutsLeftmost(parts, sep)
    ensures parts == Split(s, sep)
    decreases |parts|
  {
    if |parts| == 1 {
      assert Find(s, sep).None?;
    } else {
      var t := Join(parts[1..], sep);
      assert s == parts[0] + sep + t;
      assert Find(s, sep) == Some(|parts[0]|) by {
        assert parts[0..] == parts;
      }
      SplitFirstCut(s, sep, parts[0], t);
      CutsLeftmostTail(parts, sep);
      SplitUnique(t, sep, parts[1..]);
      assert parts == [parts[0]] + parts[1..];
    }
  }

  /** A text whose first occurrence of `sep` follows `p` splits into `p`
      and the split of what follows that occurrence. */
  lemma SplitFirstCut(s: string, sep: string, p: string, t: string)
    requires |sep| > 0 && s == p + sep + t && Find(s, sep) == Some(|p|)
    ensures Split(s, sep) == [p] + Split(t, sep)
  {
    assert s[..|p|] == p;
    assert s[|p| + |sep|..] == t;
  }

  lemma CutsLeftmostTail(parts: seq<string>, sep: string)
    requires |parts| >= 1 && CutsLeftmost(parts, sep)
    ensures CutsLeftmost(parts[1..], sep)
  {
    var tail := parts[1..];
    forall k | 0 <= k < |tail| - 1 ensures Find(Join(tail[k..], sep), sep) == Some(|tail[k]|) {
      assert tail[k..] == parts[k + 1..];
    }
  }

  /** With a separator that overlaps itself, the leftmost cut wins:
      `"aaa".split("aa")` is `["", "a"]`, not `["a", ""]`. */
  lemma SplitOverlapping()
    ensures Split("aaa", "aa") == ["", "a"]
  {
    assert MatchAt("aaa", "aa", 0) by {
      assert "aaa"[0..2] == "aa";
    }
    assert Find("aaa", "aa") == Some(0);
    assert "aaa"[2..] == "a";
    assert Find("a", "aa") == None;
  }

  /** `s.split(sep)`, raising on an empty separator as Python does. */
  function SplitOn(s: string, sep: string): (r: Result<seq<string>, Error>)
    ensures r.Failure? <==> sep == ""
    ensures r.Failure? ==> r.error == EmptySeparator
    ensures r.Success? ==> Join(r.value, sep) == s && |r.value| >= 1
  {
    if sep == "" then Failure(EmptySeparator) else Success(Split(s, sep))
  }

  /** A one-character separator occurs exactly where that character is. */
  lemma MatchChar(s: string, c: char, j: nat)
    ensures MatchAt(s, [c], j) <==> j < |s| && s[j] == c
  {
    if j < |s| && s[j] == c {
      assert s[j..j + 1] == [c];
    }
  }

  /** When `p` has no `c`, the first `c` of `p + [c] + q` is right after `p`. */
  lemma FindAfterFree(p: string, c: char, q: string)
    requires !Contains(p, [c])
    ensures Find(p + [c] + q, [c]) == Some(|p|)
  {
    var s := p + [c] + q;
    forall j | 0 <= j < |p| ensures !MatchAt(s, [c], j) {
      MatchChar(s, c, j);
      MatchChar(p, c, j);
      assert s[j] == p[j];
    }
    MatchChar(s, c, |p|);
    FindFirst(s, [c], |p|);
  }

  /** Splitting on one character undoes joining on it, as long as no piece
      contains that character: `Split` and `Join` are inverses there. */
  lemma {:induction false} SplitJoin(parts: seq<string>, c: char)
    requires |parts| >= 1
    requires forall k :: 0 <= k < |parts| ==> !Contains(parts[k], [c])
    ensures Split(Join(parts, [c]), [c]) == parts
    decreases |parts|
  {
    if |parts| == 1 {
      assert Find(parts[0], [c]).None?;
    } else {
      var rest := Join(parts[1..], [c]);
      var s := parts[0] + [c] + rest;
      assert Join(parts, [c]) == s;
      FindAfterFree(parts[0], c, rest);
      assert s[..|parts[0]|] == parts[0];
      assert s[|parts[0]| + 1..] == rest;
      SplitJoin(parts[1..], c);
      assert Split(s, [c]) == [parts[0]] + Split(rest, [c]);
      assert parts == [parts[0]] + parts[1..];
    }
  }

  /** `s` with its leading run of U+0020 spaces removed. */
  function DropSpaces(s: string): (r: string)
    ensures |r| <= |s| && r == s[|s| - |r|..]
    ensures |r| == 0 || r[0] != ' '
    decreases |s|
  {
    if |s| > 0 && s[0] == ' ' then DropSpaces(s[1..]) else s
  }

  /** No two U+0020 spaces in a row. */
  predicate NoDoubleSpace(s: string) {
    forall i, j :: 0 <= i < |s| && 0 <= j < |s| && j == i + 1 ==> !(s[i] == ' ' && s[j] == ' ')
  }

  /** `s` with every U+0020 space removed. */
  function WithoutSpaces(s: string): string
    decreases |s|
  {
    if |s| == 0 then "" else (if s[0] == ' ' then "" else [s[0]]) + WithoutSpaces(s[1..])
  }

  lemma {:induction false} WithoutSpacesOfDropped(s: string)
    ensures WithoutSpaces(DropSpaces(s)) == WithoutSpaces(s)
    decreases |s|
  {
    if |s| > 0 && s[0] == ' ' {
      WithoutSpacesOfDropped(s[1..]);
    }
  }

  /** `re.sub(' +', ' ', s)`: every maximal run of U+0020 spaces becomes one
      space. Other whitespace (tabs, newlines) is left alone. */
  function CollapseSpaces(s: string): (r: string)
    ensures |r| <= |s|
    ensures |r| == 0 <==> |s| == 0
    ensures |s| > 0 ==> r[0] == s[0]
    decreases |s|
  {
    if |s| == 0 then ""
    else if s[0] == ' ' then " " + CollapseSpaces(DropSpaces(s))
    else [s[0]] + CollapseSpaces(s[1..])
  }

  /** After collapsing no two spaces are adjacent. */
  lemma {:induction false} CollapseNoDouble(s: string)
    ensures NoDoubleSpace(CollapseSpaces(s))
    decreases |s|
  {
    if |s| > 0 {
      var rest := if s[0] == ' ' then DropSpaces(s) else s[1..];
      var t := CollapseSpaces(rest);
      var r := [s[0]] + t;
      CollapseNoDouble(rest);
      assert CollapseSpaces(s) == r;
      assert forall i :: 1 <= i < |r| ==> r[i] == t[i - 1];
      assert s[0] == ' ' ==> |t| == 0 || t[0] != ' ';
    }
  }

  /** Apart from spaces, collapsing adds, drops and reorders nothing. */
  lemma {:induction false} CollapseKeepsText(s: string)
    ensures WithoutSpaces(CollapseSpaces(s)) == WithoutSpaces(s)
    decreases |s|
  {
    if |s| > 0 {
      var rest := if s[0] == ' ' then DropSpaces(s) else s[1..];
      var t := CollapseSpaces(rest);
      var r := [s[0]] + t;
      CollapseKeepsText(rest);
      assert CollapseSpaces(s) == r;
      assert r[1..] == t;
      if s[0] == ' ' {
        WithoutSpacesOfDropped(s);
      }
    }
  }

  /** `CollapseSpaces` leaves a string unchanged exactly when it already has no
      double space; in particular collapsing twice is collapsing once. */
  lemma CollapseFixpoint(s: string)
    ensures CollapseSpaces(s) == s <==> NoDoubleSpace(s)
  {
    CollapseNoDouble(s);
    if NoDoubleSpace(s) {
      CollapseOfNoDouble(s);
    }
  }

  lemma {:induction false} CollapseOfNoDouble(s: string)
    requires NoDoubleSpace(s)
    ensures CollapseSpaces(s) == s
    decreases |s|
  {
    if |s| > 0 {
      NoDoubleTail(s);
      CollapseOfNoDouble(s[1..]);
      CollapseStep(s);
      assert [s[0]] + s[1..] == s;
    }
  }

  /** Without a double space, collapsing keeps the first character and moves on. */
  lemma CollapseStep(s: string)
    requires |s| > 0 && NoDoubleSpace(s)
    ensures CollapseSpaces(s) == [s[0]] + CollapseSpaces(s[1..])
  {
    if s[0] == ' ' {
      var tail := s[1..];
      assert |tail| == 0 || tail[0] != ' ' by {
        if |tail| > 0 { assert s[1] == tail[0]; }
      }
      assert DropSpaces(s) == DropSpaces(tail);
      assert DropSpaces(tail) == tail;
    }
  }

  lemma NoDoubleTail(s: string)
    requires |s| > 0 && NoDoubleSpace(s)
    ensures NoDoubleSpace(s[1..])
  {
    var tail := s[1..];
    forall i, j | 0 <= i < |tail| && 0 <= j < |tail| && j == i + 1
      ensures !(tail[i] == ' ' && tail[j] == ' ')
    {
      assert tail[i] == s[i + 1] && tail[j] == s[j + 1];
    }
  }

  lemma CollapseIdempotent(s: string)
    ensures CollapseSpaces(CollapseSpaces(s)) == CollapseSpaces(s)
  {
    CollapseNoDouble(s);
    CollapseFixpoint(CollapseSpaces(s));
  }

  /** A non-empty run of U+0020 spaces. */
  predicate Blanks(g: string) {
    |g| > 0 && forall i :: 0 <= i < |g| ==> g[i] == ' '
  }

  lemma {:induction false} DropSpacesRun(g: string, b: string)
    requires forall i :: 0 <= i < |g| ==> g[i] == ' '
    requires b == "" || b[0] != ' '
    ensures DropSpaces(g + b) == b
    decreases |g|
  {
    if |g| > 0 {
      assert (g + b)[0] == ' ';
      assert (g + b)[1..] == g[1..] + b;
      DropSpacesRun(g[1..], b);
    } else {
      assert g + b == b;
    }
  }

  /** A whole run of spaces, however long, becomes exactly one space. */
  lemma CollapseRun(g: string, b: string)
    requires Blanks(g)
    requires b == "" || b[0] != ' '
    ensures CollapseSpaces(g + b) == " " + CollapseSpaces(b)
  {
    assert (g + b)[0] == ' ';
    DropSpacesRun(g, b);
  }

  /** Text without spaces in front of a line passes through the collapse unchanged. */
  lemma {:induction false} CollapseUnspacedPrefix(w: string, x: string)
    requires forall i :: 0 <= i < |w| ==> w[i] != ' '
    ensures CollapseSpaces(w + x) == w + CollapseSpaces(x)
    decreases |w|
  {
    if |w| > 0 {
      var s, t := w + x, w[1..];
      assert CollapseSpaces(s) == [w[0]] + CollapseSpaces(t + x) by {
        assert s[0] == w[0] && w[0] != ' ';
        assert s[1..] == t + x;
      }
      assert CollapseSpaces(t + x) == t + CollapseSpaces(x) by {
        forall i | 0 <= i < |t| ensures t[i] != ' ' {
          assert t[i] == w[i + 1];
        }
        CollapseUnspacedPrefix(t, x);
      }
      assert [w[0]] + (t + CollapseSpaces(x)) == w + CollapseSpaces(x) by {
        ConsAssoc(w[0], t, CollapseSpaces(x));
        assert [w[0]] + t == w;
      }
    } else {
      assert w + x == x;
    }
  }

  /** `s.lstrip()`. */
  function LStrip(s: string): (r: string)
    ensures |r| <= |s| && r == s[|s| - |r|..]
    ensures |r| == 0 || !IsSpace(r[0])
    ensures AllSpace(s[..|s| - |r|])
    decreases |s|
  {
    if |s| > 0 && IsSpace(s[0]) then
      var r := LStrip(s[1..]);
      assert s[..|s| - |r|] == [s[0]] + s[1..][..|s[1..]| - |r|];
      r
    else s
  }

  /** `s.rstrip()`. */
  function RStrip(s: string): (r: string)
    ensures |r| <= |s| && r == s[..|r|]
    ensures |r| == 0 || !IsSpace(r[|r| - 1])
    ensures AllSpace(s[|r|..])
    decreases |s|
  {
    if |s| > 0 && IsSpace(s[|s| - 1]) then
      var r := RStrip(s[..|s| - 1]);
      assert s[|r|..] == s[..|s| - 1][|r|..] + [s[|s| - 1]];
      r
    else s
  }

  /** `s.strip()`: `s` without leading and trailing whitespace. */
  function Strip(s: string): (r: string)
    ensures |r| <= |s|
    ensures |r| == 0 || (!IsSpace(r[0]) && !IsSpace(r[|r| - 1]))
  {
    RStrip(LStrip(s))
  }

  /** A single whitespace character is all whitespace. */
  lemma SpaceChar(c: char)
    requires IsSpace(c)
    ensures AllSpace([c])
  {
  }

  /** `r` sits in `s` at offset `i` with only whitespace around it. */
  predicate SpacedSlice(s: string, i: int, r: string) {
    0 <= i <= |s| - |r| && r == s[i..i + |r|] && AllSpace(s[..i]) && AllSpace(s[i + |r|..])
  }

  /** What `Strip` removes is whitespace on either side of a slice of `s`. */
  lemma StripIsSlice(s: string)
    ensures exists i :: SpacedSlice(s, i, Strip(s))
  {
    var l := LStrip(s);
    var r := RStrip(l);
    var i := |s| - |l|;
    assert Strip(s) == r;
    assert AllSpace(s[..i]);
    assert r == s[i..i + |r|] && AllSpace(s[i + |r|..]) by {
      assert l == s[i..];
      SliceOfSuffix(s, i, |r|);
      assert AllSpace(l[|r|..]);
    }
    assert SpacedSlice(s, i, r);
  }

  lemma SliceOfSuffix<T>(s: seq<T>, i: nat, n: nat)
    requires i + n <= |s|
    ensures s[i..][..n] == s[i..i + n] && s[i..][n..] == s[i + n..]
  {
  }

  /** The longest prefix of `s` without whitespace. */
  function Word(s: string): (w: string)
    ensures w <= s && NoSpace(w)
    ensures |w| == |s| || IsSpace(s[|w|])
    decreases |s|
  {
    if |s| == 0 || IsSpace(s[0]) then "" else [s[0]] + Word(s[1..])
  }

  /** `s` with all whitespace removed. */
  function Squash(s: string): string
    decreases |s|
  {
    if |s| == 0 then "" else (if IsSpace(s[0]) then "" else [s[0]]) + Squash(s[1..])
  }

  lemma {:induction false} SquashAppend(a: string, b: string)
    ensures Squash(a + b) == Squash(a) + Squash(b)
    decreases |a|
  {
    if |a| > 0 {
      var h := if IsSpace(a[0]) then "" else [a[0]];
      var x, y := Squash(a[1..]), Squash(b);
      assert Squash(a + b) == h + Squash(a[1..] + b) by {
        assert (a + b)[0] == a[0] && (a + b)[1..] == a[1..] + b;
      }
      SquashAppend(a[1..], b);
      assert Squash(a) == h + x;
      assert h + (x + y) == (h + x) + y;
    } else {
      assert a + b == b;
    }
  }

  lemma {:induction false} SquashAllSpace(s: string)
    requires AllSpace(s)
    ensures Squash(s) == ""
    decreases |s|
  {
    if |s| > 0 {
      SquashAllSpace(s[1..]);
    }
  }

  lemma {:induction false} SquashNoSpace(s: string)
    requires NoSpace(s)
    ensures Squash(s) == s
    decreases |s|
  {
    if |s| > 0 {
      SquashNoSpace(s[1..]);
    }
  }

  function Concat(parts: seq<string>): string
    decreases |parts|
  {
    if |parts| == 0 then "" else parts[0] + Concat(parts[1..])
  }

  lemma ConcatCons(w: string, words: seq<string>)
    ensures Concat([w] + words) == w + Concat(words)
  {
    assert ([w] + words)[1..] == words;
  }

  lemma {:induction false} ConcatAppend(a: seq<string>, b: seq<string>)
    ensures Concat(a + b) == Concat(a) + Concat(b)
    decreases |a|
  {
    if |a| > 0 {
      assert (a + b)[1..] == a[1..] + b;
      ConcatAppend(a[1..], b);
    } else {
      assert a + b == b;
    }
  }

  /** `s.split()`: the maximal runs of non-whitespace characters, in order. */
  function SplitWhitespace(s: string): (words: seq<string>)
    decreases |s|
  {
    var t := LStrip(s);
    if |t| == 0 then []
    else
      var w := Word(t);
      assert |w| > 0;
      [w] + SplitWhitespace(t[|w|..])
  }

  /** Every word of `s.split()` is non-empty and holds no whitespace. */
  lemma {:induction false} SplitWhitespaceWords(s: string)
    ensures forall k :: 0 <= k < |SplitWhitespace(s)| ==>
              |SplitWhitespace(s)[k]| > 0 && NoSpace(SplitWhitespace(s)[k])
    decreases |s|
  {
    var t := LStrip(s);
    if |t| > 0 {
      var w := Word(t);
      var rest := t[|w|..];
      SplitWhitespaceWords(rest);
      var words := SplitWhitespace(s);
      assert words == [w] + SplitWhitespace(rest);
      forall k | 0 <= k < |words| ensures |words[k]| > 0 && NoSpace(words[k]) {
        if k > 0 { assert words[k] == SplitWhitespace(rest)[k - 1]; }
      }
    }
  }

  /** The words of `s.split()` are exactly the non-whitespace characters of
      `s`, none dropped, none added, in order. */
  lemma {:induction false} SplitWhitespaceSquash(s: string)
    ensures Concat(SplitWhitespace(s)) == Squash(s)
    decreases |s|
  {
    var t := LStrip(s);
    SquashOfLStrip(s);
    if |t| > 0 {
      var w := Word(t);
      var rest := t[|w|..];
      SquashOfWord(t);
      var words := SplitWhitespace(rest);
      assert SplitWhitespace(s) == [w] + words;
      SplitWhitespaceSquash(rest);
      ConcatCons(w, words);
    }
  }

  lemma SquashOfLStrip(s: string)
    ensures Squash(s) == Squash(LStrip(s))
  {
    var t := LStrip(s);
    var gap := s[..|s| - |t|];
    assert s == gap + t;
    SquashAppend(gap, t);
    SquashAllSpace(gap);
  }

  lemma SquashOfWord(t: string)
    ensures Squash(t) == Word(t) + Squash(t[|Word(t)|..])
  {
    var w := Word(t);
    var rest := t[|w|..];
    assert t == w + rest;
    SquashAppend(w, rest);
    SquashNoSpace(w);
  }

  /** Splitting on whitespace peels off one word that is preceded by
      whitespace and followed by whitespace or nothing. */
  lemma SplitWhitespaceCons(gap: string, w: string, rest: string)
    requires AllSpace(gap) && |w| > 0 && NoSpace(w)
    requires |rest| == 0 || IsSpace(rest[0])
    ensures SplitWhitespace(gap + w + rest) == [w] + SplitWhitespace(rest)
  {
    var s := gap + w + rest;
    var t := w + rest;
    assert s == gap + t;
    LStripOfSpaces(gap, t);
    WordOfWord(w, rest);
    assert t[|w|..] == rest;
    assert LStrip(s) == t && |t| > 0 && Word(t) == w;
  }

  lemma {:induction false} LStripOfSpaces(gap: string, t: string)
    requires AllSpace(gap) && (|t| == 0 || !IsSpace(t[0]))
    ensures LStrip(gap + t) == t
    decreases |gap|
  {
    if |gap| > 0 {
      assert (gap + t)[1..] == gap[1..] + t;
      LStripOfSpaces(gap[1..], t);
    } else {
      assert gap + t == t;
    }
  }

  lemma {:induction false} WordOfWord(w: string, rest: string)
    requires NoSpace(w) && (|rest| == 0 || IsSpace(rest[0]))
    ensures Word(w + rest) == w
    decreases |w|
  {
    if |w| > 0 {
      assert (w + rest)[1..] == w[1..] + rest;
      WordOfWord(w[1..], rest);
    } else {
      assert w + rest == rest;
    }
  }

  /** One word between whitespace splits into that word alone. */
  lemma SplitWhitespaceSingle(gap: string, w: string, rest: string)
    requires AllSpace(gap) && |w| > 0 && NoSpace(w) && AllSpace(rest)
    ensures SplitWhitespace(gap + w + rest) == [w]
  {
    assert SplitWhitespace(rest) == [] by { SplitWhitespaceOfSpaces(rest); }
    assert SplitWhitespace(gap + w + rest) == [w] + SplitWhitespace(rest) by {
      assert |rest| == 0 || IsSpace(rest[0]);
      SplitWhitespaceCons(gap, w, rest);
    }
  }

  /** A leading word followed by whitespace or nothing is the first word. */
  lemma SplitWhitespaceHead(w: string, rest: string)
    requires |w| > 0 && NoSpace(w)
    requires |rest| == 0 || IsSpace(rest[0])
    ensures SplitWhitespace(w + rest) == [w] + SplitWhitespace(rest)
  {
    var t := w + rest;
    assert LStrip(t) == t by { assert !IsSpace(t[0]) by { assert t[0] == w[0]; } }
    WordOfWord(w, rest);
    assert t[|w|..] == rest;
  }

  /** Two words, whitespace between and after them, split into those two. */
  lemma SplitWhitespacePair(a: string, gap: string, e: string, rest: string)
    requires |a| > 0 && NoSpace(a) && |gap| > 0 && AllSpace(gap)
    requires |e| > 0 && NoSpace(e) && AllSpace(rest)
    ensures SplitWhitespace(a + gap + e + rest) == [a, e]
  {
    var tail := gap + e + rest;
    SplitWhitespaceSingle(gap, e, rest);
    assert IsSpace(tail[0]) by { assert tail[0] == gap[0]; }
    SplitWhitespaceHead(a, tail);
    PairDisplay(a, e);
    AppendAssoc(a, gap, e, rest);
  }

  lemma PairDisplay<T>(a: T, e: T)
    ensures [a] + [e] == [a, e]
  {
  }

  lemma ConsAssoc(c: char, a: string, b: string)
    ensures [c] + (a + b) == [c] + a + b
  {
  }

  lemma AppendAssoc(a: string, b: string, c: string, d: string)
    ensures a + b + c + d == a + (b + c + d)
  {
  }

  lemma SplitWhitespaceOfSpaces(s: string)
    requires AllSpace(s)
    ensures SplitWhitespace(s) == []
  {
    LStripOfSpaces(s, "");
    assert s + "" == s;
  }
}
