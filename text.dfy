/** The string operations the package manager relies on (Python's str.lower restricted to
    ASCII, endswith, `in`, strip, split, readlines and writelines), each with a contract that
    characterises its result. */
module Text {

  // ---------------------------------------------------------------- lower()

  function LowerChar(c: char): (r: char)
  {
    if 'A' <= c <= 'Z' then (c as int + 32) as char else c
  }

  predicate IsUpper(c: char) { 'A' <= c <= 'Z' }

  /** ASCII lower-casing of every character. */
  function Lower(s: string): (r: string)
    ensures |r| == |s|
    ensures forall i :: 0 <= i < |s| ==> r[i] == LowerChar(s[i])
  {
    if s == [] then [] else [LowerChar(s[0])] + Lower(s[1..])
  }

  lemma {:induction false} LowerConcat(a: string, b: string)
    ensures Lower(a + b) == Lower(a) + Lower(b)
    decreases |a|
  {
    if a == [] {
      assert a + b == b;
    } else {
      assert (a + b)[0] == a[0];
      assert (a + b)[1..] == a[1..] + b;
      LowerConcat(a[1..], b);
    }
  }

  lemma {:induction false} LowerHasNoUpper(s: string)
    ensures forall i :: 0 <= i < |Lower(s)| ==> !IsUpper(Lower(s)[i])
  {
  }

  lemma {:induction false} LowerIdempotent(s: string)
    ensures Lower(Lower(s)) == Lower(s)
  {
    assert |Lower(Lower(s))| == |Lower(s)|;
    forall i | 0 <= i < |s| ensures Lower(Lower(s))[i] == Lower(s)[i] { }
  }

  /** A string with no upper-case ASCII letter is its own lower-casing. */
  lemma {:induction false} LowerOfLower(s: string)
    requires forall i :: 0 <= i < |s| ==> !IsUpper(s[i])
    ensures Lower(s) == s
  {
  }

  // ------------------------------------------------------ endswith() and `in`

  predicate EndsWith(s: string, suffix: string)
  {
    |suffix| <= |s| && s[|s| - |suffix|..] == suffix
  }

  /** Whether a suffix test on `a + b` can be answered by `b` alone. */
  lemma {:induction false} EndsWithConcat(a: string, b: string, suffix: string)
    requires |suffix| <= |b|
    ensures EndsWith(a + b, suffix) <==> EndsWith(b, suffix)
  {
    assert (a + b)[|a + b| - |suffix|..] == b[|b| - |suffix|..];
  }

  /** Two suffixes of one string: the shorter is a suffix of the longer. */
  lemma {:induction false} EndsWithBoth(s: string, x: string, y: string)
    ensures EndsWith(s, x) && EndsWith(s, y) && |x| <= |y| ==> EndsWith(y, x)
  {
    if EndsWith(s, x) && EndsWith(s, y) && |x| <= |y| {
      assert y[|y| - |x|..] == s[|s| - |y|..][|y| - |x|..];
    }
  }

  /** Python's `sub in s`: `sub` occurs somewhere in `s` as a contiguous substring. */
  predicate Contains(s: string, sub: string)
    decreases |s|
  {
    sub <= s || (s != [] && Contains(s[1..], sub))
  }

  lemma {:induction false} ContainsAt(s: string, sub: string, i: nat)
    requires i + |sub| <= |s| && s[i..i + |sub|] == sub
    ensures Contains(s, sub)
  {
    if i > 0 {
      assert s[1..][i - 1..i - 1 + |sub|] == s[i..i + |sub|];
      ContainsAt(s[1..], sub, i - 1);
    } else {
      assert sub <= s;
    }
  }

  /** An occurrence found by Contains sits at some index of `s`. */
  lemma {:induction false} ContainsWitness(s: string, sub: string) returns (i: nat)
    requires Contains(s, sub)
    ensures i + |sub| <= |s| && s[i..i + |sub|] == sub
    decreases |s|
  {
    if sub <= s {
      i := 0;
    } else {
      var j := ContainsWitness(s[1..], sub);
      i := j + 1;
      assert s[i..i + |sub|] == s[1..][j..j + |sub|];
    }
  }

  lemma {:induction false} ContainsLeft(a: string, b: string, sub: string)
    requires Contains(a, sub)
    ensures Contains(a + b, sub)
  {
    var i := ContainsWitness(a, sub);
    assert (a + b)[i..i + |sub|] == a[i..i + |sub|];
    ContainsAt(a + b, sub, i);
  }

  lemma {:induction false} ContainsRight(a: string, b: string, sub: string)
    requires Contains(b, sub)
    ensures Contains(a + b, sub)
  {
    var i := ContainsWitness(b, sub);
    assert (a + b)[|a| + i..|a| + i + |sub|] == b[i..i + |sub|];
    ContainsAt(a + b, sub, |a| + i);
  }

  lemma {:induction false} ContainsSelf(s: string)
    ensures Contains(s, s)
  {
    assert s <= s;
  }

  /** A character absent from `s` is absent from every substring of `s`. */
  lemma {:induction false} ContainsChar(s: string, sub: string, c: char)
    requires Contains(s, sub) && c in sub
    ensures c in s
  {
    var i := ContainsWitness(s, sub);
    var j :| 0 <= j < |sub| && sub[j] == c;
    assert s[i + j] == c;
  }

  // ---------------------------------------------------------------- strip()

  /** Python's `s.lstrip(c)`: drop every leading `c`. */
  function TrimStart(s: string, c: char): (r: string)
    ensures |r| <= |s| && r == s[|s| - |r|..]
    ensures forall k :: 0 <= k < |s| - |r| ==> s[k] == c
    ensures r == [] || r[0] != c
  {
    if s != [] && s[0] == c then TrimStart(s[1..], c) else s
  }

  /** Python's `s.rstrip(c)`: drop every trailing `c`. */
  function TrimEnd(s: string, c: char): (r: string)
    ensures |r| <= |s| && r == s[..|r|]
    ensures forall k :: |r| <= k < |s| ==> s[k] == c
    ensures r == [] || r[|r| - 1] != c
  {
    if s != [] && s[|s| - 1] == c then TrimEnd(s[..|s| - 1], c) else s
  }

  /** Python's `s.strip(c)` for a one-character argument. */
  function Strip(s: string, c: char): string
  {
    TrimEnd(TrimStart(s, c), c)
  }

  /** Neither the first nor the last character is `c`. */
  predicate NoEdge(s: string, c: char)
  {
    s == [] || (s[0] != c && s[|s| - 1] != c)
  }

  /** strip(c) leaves no `c` at either end, and removes nothing but `c`s: the result is a
      slice of the input with only `c`s outside it. */
  lemma {:induction false} StripSpec(s: string, c: char)
    ensures NoEdge(Strip(s, c), c)
    ensures |Strip(s, c)| <= |TrimStart(s, c)| <= |s|
    ensures Strip(s, c) == s[|s| - |TrimStart(s, c)|..|s| - |TrimStart(s, c)| + |Strip(s, c)|]
    ensures forall k :: 0 <= k < |s| - |TrimStart(s, c)| ==> s[k] == c
    ensures forall k :: |s| - |TrimStart(s, c)| + |Strip(s, c)| <= k < |s| ==> s[k] == c
  {
    StripSlice(s, c);
    StripEdges(s, c);
  }

  /** strip(c) leaves no `c` at either end. */
  lemma {:induction false} StripEdges(s: string, c: char)
    ensures NoEdge(Strip(s, c), c)
  {
    var a := TrimStart(s, c);
    var r := TrimEnd(a, c);
    assert Strip(s, c) == r;
    assert r == [] || r[0] == a[0];
  }

  /** strip(c) is a slice of the input with only `c`s after it. */
  lemma {:induction false} StripSlice(s: string, c: char)
    ensures |TrimStart(s, c)| <= |s| && |Strip(s, c)| <= |TrimStart(s, c)|
    ensures Strip(s, c) == s[|s| - |TrimStart(s, c)|..|s| - |TrimStart(s, c)| + |Strip(s, c)|]
    ensures forall k :: |s| - |TrimStart(s, c)| + |Strip(s, c)| <= k < |s| ==> s[k] == c
  {
    var a := TrimStart(s, c);
    var r := TrimEnd(a, c);
    assert Strip(s, c) == r;
    SliceOfSuffix(s, a, r, c);
  }

  /** A prefix `r` of a suffix `a` of `s`, with only `c`s after it in `a`, is a slice of `s`
      with only `c`s after it. */
  lemma {:induction false} SliceOfSuffix(s: string, a: string, r: string, c: char)
    requires |a| <= |s| && a == s[|s| - |a|..] && |r| <= |a| && r == a[..|r|]
    requires forall k :: |r| <= k < |a| ==> a[k] == c
    ensures var i := |s| - |a|; r == s[i..i + |r|] && (forall k :: i + |r| <= k < |s| ==> s[k] == c)
  {
    var i := |s| - |a|;
    forall k | i + |r| <= k < |s| ensures s[k] == c {
      assert a[k - i] == c;
    }
  }

  /** A string without `c` at its ends is unchanged by strip(c). */
  lemma {:induction false} StripNoEdge(s: string, c: char)
    requires NoEdge(s, c)
    ensures Strip(s, c) == s
  {
  }

  lemma {:induction false} StripIdempotent(s: string, c: char)
    ensures Strip(Strip(s, c), c) == Strip(s, c)
  {
    StripSpec(s, c);
    StripNoEdge(Strip(s, c), c);
  }

  /** Strip undoes putting one `c` in front of a string that has no `c` at its ends. */
  lemma {:induction false} StripAddedEdge(s: string, c: char)
    requires NoEdge(s, c)
    ensures Strip([c] + s, c) == s
  {
    assert ([c] + s)[1..] == s;
    assert TrimStart([c] + s, c) == TrimStart(s, c);
    StripNoEdge(s, c);
  }

  /** Stripping keeps a string free of upper-case letters. */
  lemma {:induction false} StripKeepsLower(s: string, c: char)
    requires forall i :: 0 <= i < |s| ==> !IsUpper(s[i])
    ensures forall i :: 0 <= i < |Strip(s, c)| ==> !IsUpper(Strip(s, c)[i])
  {
    StripSpec(s, c);
  }

  // ---------------------------------------------------------------- split()

  /** Python's `s.split(c)[0]`: the text before the first `c`, or all of `s`. */
  function BeforeFirst(s: string, c: char): (r: string)
    ensures r <= s && c !in r
    ensures |r| < |s| ==> s[|r|] == c
  {
    if s == [] then []
    else if s[0] == c then []
    else [s[0]] + BeforeFirst(s[1..], c)
  }

  /** The text before the first `c` is everything up to a `c` that has none before it. */
  lemma {:induction false} BeforeFirstAt(s: string, c: char, i: nat)
    requires i < |s| && s[i] == c && c !in s[..i]
    ensures BeforeFirst(s, c) == s[..i]
    decreases i
  {
    if i > 0 {
      assert s[0] == s[..i][0];
      assert s[1..][..i - 1] == s[..i][1..];
      BeforeFirstAt(s[1..], c, i - 1);
      assert s[..i] == [s[0]] + s[1..][..i - 1];
    }
  }

  /** The text before the first `c` of `a`, `c`, `b` is `a` when `a` has no `c`. */
  lemma {:induction false} BeforeFirstSplit(a: string, c: char, b: string)
    requires c !in a
    ensures BeforeFirst(a + [c] + b, c) == a
  {
    var s := a + [c] + b;
    assert s[..|a|] == a;
    BeforeFirstAt(s, c, |a|);
  }

  /** Without a `c`, the text before the first `c` is all of `s`. */
  lemma {:induction false} BeforeFirstNone(s: string, c: char)
    requires c !in s
    ensures BeforeFirst(s, c) == s
    decreases |s|
  {
    if s != [] {
      assert s[0] in s;
      BeforeFirstNone(s[1..], c);
      assert [s[0]] + s[1..] == s;
    }
  }

  /** Python's `s.split(c)`: at least one part, and no part holds a `c`. */
  function Split(s: string, c: char): (r: seq<string>)
    ensures |r| >= 1
    ensures forall i :: 0 <= i < |r| ==> c !in r[i]
    decreases |s|
  {
    var head := BeforeFirst(s, c);
    if |head| == |s| then [s] else [head] + Split(s[|head| + 1..], c)
  }

  /** Joining the parts of `s.split(c)` with `c` gives `s` back. */
  lemma {:induction false} JoinSplit(s: string, c: char)
    ensures JoinWith(Split(s, c), [c]) == s
    decreases |s|
  {
    var head := BeforeFirst(s, c);
    if |head| < |s| {
      var tail := s[|head| + 1..];
      var rest := Split(tail, c);
      JoinSplit(tail, c);
      JoinWithCons(head, rest, [c]);
      CutAt(s, |head|);
    }
  }

  /** Joining a part in front of at least one more part puts the separator after it. */
  lemma {:induction false} JoinWithCons(x: string, parts: seq<string>, sep: string)
    requires |parts| >= 1
    ensures JoinWith([x] + parts, sep) == x + sep + JoinWith(parts, sep)
  {
    assert ([x] + parts)[1..] == parts;
  }

  /** A text is its part before `i`, the character at `i`, and the rest. */
  lemma {:induction false} CutAt(s: string, i: nat)
    requires i < |s|
    ensures s == s[..i] + [s[i]] + s[i + 1..]
  {
  }

  /** `parts` joined with `sep` between neighbours (Python's `sep.join(parts)`). */
  function JoinWith(parts: seq<string>, sep: string): string
  {
    if parts == [] then []
    else if |parts| == 1 then parts[0]
    else parts[0] + sep + JoinWith(parts[1..], sep)
  }

  /** Splitting undoes joining: parts that hold no `c`, joined with `c`, split back into
      themselves. */
  lemma {:induction false} SplitJoin(parts: seq<string>, c: char)
    requires |parts| >= 1 && forall i :: 0 <= i < |parts| ==> c !in parts[i]
    ensures Split(JoinWith(parts, [c]), c) == parts
    decreases |parts|
  {
    if |parts| == 1 {
      BeforeFirstNone(parts[0], c);
      assert [parts[0]] == parts;
    } else {
      var tail := JoinWith(parts[1..], [c]);
      var s := parts[0] + [c] + tail;
      assert JoinWith(parts, [c]) == s;
      BeforeFirstSplit(parts[0], c, tail);
      assert s[|parts[0]| + 1..] == tail;
      SplitJoin(parts[1..], c);
      assert [parts[0]] + parts[1..] == parts;
    }
  }

  /** Joining with one more part puts one more separator and the part at the end. */
  lemma {:induction false} JoinWithSnoc(parts: seq<string>, x: string, sep: string)
    ensures JoinWith(parts + [x], sep) == if parts == [] then x else JoinWith(parts, sep) + sep + x
  {
    if parts == [] {
      assert parts + [x] == [x];
    } else if |parts| == 1 {
      assert parts + [x] == [parts[0], x];
      assert (parts + [x])[1..] == [x];
    } else {
      assert (parts + [x])[1..] == parts[1..] + [x];
      JoinWithSnoc(parts[1..], x, sep);
    }
  }

  // ------------------------------------------------- readlines() and writelines()

  /** The length of the first line of `s`, its newline included. */
  function LineLength(s: string): (n: nat)
    ensures s != [] ==> 1 <= n <= |s|
    ensures s == [] ==> n == 0
    ensures forall k :: 0 <= k < n - 1 ==> s[k] != '\n'
    ensures n < |s| ==> s[n - 1] == '\n'
  {
    if s == [] then 0 else if s[0] == '\n' then 1 else 1 + LineLength(s[1..])
  }

  /** Python's `f.readlines()` on a file holding `s`: the text cut after every newline, each
      piece keeping its newline; a last piece without one is kept as it is. */
  function ReadLines(s: string): seq<string>
    decreases |s|
  {
    if s == [] then [] else [s[..LineLength(s)]] + ReadLines(s[LineLength(s)..])
  }

  /** Python's `f.writelines(lines)`: the lines written one after another, nothing added. */
  function JoinLines(lines: seq<string>): string
  {
    if lines == [] then [] else lines[0] + JoinLines(lines[1..])
  }

  /** A piece readlines can return before the last one: one newline, at its end. */
  predicate IsFullLine(l: string)
  {
    l != [] && l[|l| - 1] == '\n' && '\n' !in l[..|l| - 1]
  }

  /** The last piece readlines can return: no newline but possibly the last character. */
  predicate IsLastLine(l: string)
  {
    l != [] && '\n' !in l[..|l| - 1]
  }

  lemma {:induction false} JoinLinesConcat(a: seq<string>, b: seq<string>)
    ensures JoinLines(a + b) == JoinLines(a) + JoinLines(b)
  {
    if a != [] {
      assert (a + b)[0] == a[0];
      assert (a + b)[1..] == a[1..] + b;
      JoinLinesConcat(a[1..], b);
      calc {
        JoinLines(a + b);
        a[0] + JoinLines(a[1..] + b);
        a[0] + (JoinLines(a[1..]) + JoinLines(b));
        (a[0] + JoinLines(a[1..])) + JoinLines(b);
      }
    } else {
      assert a + b == b;
    }
  }

  /** writelines(readlines(s)) gives back `s`. */
  lemma {:induction false} JoinReadLines(s: string)
    ensures JoinLines(ReadLines(s)) == s
    decreases |s|
  {
    if s != [] {
      var n := LineLength(s);
      JoinReadLines(s[n..]);
      assert s[..n] + s[n..] == s;
    }
  }

  /** readlines returns pieces that all end in a newline, except possibly the last, which has
      none before its final character. */
  lemma {:induction false} ReadLinesShape(s: string)
    ensures var ls := ReadLines(s);
      (forall i :: 0 <= i < |ls| - 1 ==> IsFullLine(ls[i])) && (ls != [] ==> IsLastLine(ls[|ls| - 1]))
    decreases |s|
  {
    if s != [] {
      var n := LineLength(s);
      ReadLinesShape(s[n..]);
      var ls := ReadLines(s);
      assert ls == [s[..n]] + ReadLines(s[n..]);
      assert s[..n][..n - 1] == s[..n - 1];
      assert '\n' !in s[..n - 1];
      if n < |s| {
        assert ReadLines(s[n..]) != [];
        assert IsFullLine(s[..n]);
      }
    }
  }

  /** The inverse direction: lines that all end in a newline, followed by one last line with
      no newline at all, are read back exactly as written. */
  lemma {:induction false} ReadJoinLines(lines: seq<string>, last: string)
    requires forall i :: 0 <= i < |lines| ==> IsFullLine(lines[i])
    requires last == [] || (IsLastLine(last) && last[|last| - 1] != '\n')
    ensures ReadLines(JoinLines(lines + [last])) == lines + (if last == [] then [] else [last])
    decreases |lines|
  {
    if lines == [] {
      ReadLastLine(last);
    } else {
      var l := lines[0];
      var rest := JoinLines(lines[1..] + [last]);
      assert (lines + [last])[1..] == lines[1..] + [last];
      assert JoinLines(lines + [last]) == l + rest;
      ReadFullLineFirst(l, rest);
      forall i | 0 <= i < |lines[1..]| ensures IsFullLine(lines[1..][i]) {
        assert lines[1..][i] == lines[i + 1];
      }
      ReadJoinLines(lines[1..], last);
      var tail := if last == [] then [] else [last];
      assert lines + tail == [l] + (lines[1..] + tail);
    }
  }

  /** A last line with no newline at all reads back as itself. */
  lemma {:induction false} ReadLastLine(last: string)
    requires last == [] || (IsLastLine(last) && last[|last| - 1] != '\n')
    ensures ReadLines(JoinLines([last])) == if last == [] then [] else [last]
  {
    assert JoinLines([last]) == last + JoinLines([]);
    assert JoinLines([last]) == last;
    if last != [] {
      assert '\n' !in last by {
        assert last == last[..|last| - 1] + [last[|last| - 1]];
      }
      NoNewlineIsOneLine(last);
    }
  }

  /** A text that starts with a full line reads as that line followed by the lines of the rest. */
  lemma {:induction false} ReadFullLineFirst(l: string, rest: string)
    requires IsFullLine(l)
    ensures ReadLines(l + rest) == [l] + ReadLines(rest)
  {
    FullLineLength(l, rest);
    var s := l + rest;
    assert s[..|l|] == l && s[|l|..] == rest;
  }

  lemma {:induction false} FullLineLength(l: string, rest: string)
    requires IsFullLine(l)
    ensures LineLength(l + rest) == |l|
    decreases |l|
  {
    if |l| > 1 {
      assert (l + rest)[1..] == l[1..] + rest;
      assert l[0] != '\n' by { assert l[0] == l[..|l| - 1][0]; }
      assert '\n' !in l[1..][..|l[1..]| - 1] by {
        forall k | 0 <= k < |l| - 2 ensures l[1..][k] != '\n' { assert l[1..][k] == l[..|l| - 1][k + 1]; }
      }
      FullLineLength(l[1..], rest);
    }
  }

  /** A non-empty text with no newline reads back as a single line. */
  lemma {:induction false} NoNewlineIsOneLine(s: string)
    requires s != [] && '\n' !in s
    ensures ReadLines(s) == [s]
  {
    NoNewlineLength(s);
    assert s[..|s|] == s && s[|s|..] == [];
  }

  lemma {:induction false} NoNewlineLength(s: string)
    requires '\n' !in s
    ensures LineLength(s) == |s|
    decreases |s|
  {
    if s != [] {
      NoNewlineLength(s[1..]);
    }
  }
}
