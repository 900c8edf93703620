/** The env file's lines as `_add_path` edits them: the first line mentioning the package's tag
    goes, the package's export line is appended, and the list is written back as it is. */
module EnvLines {
  import opened Wrappers
  import opened Text

  /** The index of the first line containing `tag`. */
  function FirstTagged(lines: seq<string>, tag: string): (r: Option<nat>)
    ensures r.Some? ==> r.value < |lines| && Contains(lines[r.value], tag)
    ensures r.Some? ==> forall j :: 0 <= j < r.value ==> !Contains(lines[j], tag)
    ensures r.None? ==> forall j :: 0 <= j < |lines| ==> !Contains(lines[j], tag)
  {
    if lines == [] then None
    else if Contains(lines[0], tag) then Some(0)
    else match FirstTagged(lines[1..], tag)
      case None => None
      case Some(i) => Some(i + 1)
  }

  /** The lines with the first one containing `tag` left out. */
  function WithoutFirstTagged(lines: seq<string>, tag: string): seq<string>
  {
    if lines == [] then []
    else if Contains(lines[0], tag) then lines[1..]
    else [lines[0]] + WithoutFirstTagged(lines[1..], tag)
  }

  /** `list.remove(x)`: the first element equal to `x` goes. */
  function RemoveFirst(lines: seq<string>, x: string): (r: seq<string>)
    requires x in lines
    ensures |r| == |lines| - 1
  {
    if lines[0] == x then lines[1..] else [lines[0]] + RemoveFirst(lines[1..], x)
  }

  /** The number of lines containing `tag`. */
  function CountTagged(lines: seq<string>, tag: string): nat
  {
    if lines == [] then 0
    else (if Contains(lines[0], tag) then 1 else 0) + CountTagged(lines[1..], tag)
  }

  /** The list `_add_path` writes back for a package, given the lines it read. */
  function Register(lines: seq<string>, tag: string, line: string): seq<string>
  {
    WithoutFirstTagged(lines, tag) + [line]
  }

  /** The env file's text after the registration, given its text before. */
  function EnvAfter(content: string, tag: string, line: string): string
  {
    JoinLines(Register(ReadLines(content), tag, line))
  }

  // --------------------------------------------------------- the search loop

  lemma {:induction false} RemoveFirstAt(lines: seq<string>, x: string, i: nat)
    requires i < |lines| && lines[i] == x
    requires forall j :: 0 <= j < i ==> lines[j] != x
    ensures RemoveFirst(lines, x) == lines[..i] + lines[i + 1..]
  {
    if i > 0 {
      RemoveFirstAt(lines[1..], x, i - 1);
      assert lines[1..][..i - 1] == lines[1..i];
      assert lines[1..][i..] == lines[i + 1..];
      assert [lines[0]] + lines[1..i] == lines[..i];
    }
  }

  /** Removing the first tagged line keeps every other line, in order. */
  lemma {:induction false} WithoutFirstTaggedShape(lines: seq<string>, tag: string)
    ensures WithoutFirstTagged(lines, tag) ==
      match FirstTagged(lines, tag)
      case None => lines
      case Some(i) => lines[..i] + lines[i + 1..]
  {
    if lines != [] && !Contains(lines[0], tag) {
      WithoutFirstTaggedShape(lines[1..], tag);
      match FirstTagged(lines[1..], tag)
      case None =>
        assert [lines[0]] + lines[1..] == lines;
      case Some(i) =>
        assert lines[1..][..i] == lines[1..i + 1];
        assert lines[1..][i + 1..] == lines[i + 2..];
        assert [lines[0]] + lines[1..i + 1] == lines[..i + 1];
    }
  }

  /** The loop of `_add_path`: walk the lines, remove the first tagged one and stop. */
  method RemoveFirstTagged(env: seq<string>, tag: string) returns (r: seq<string>)
    ensures r == WithoutFirstTagged(env, tag)
  {
    r := env;
    var i := 0;
    while i < |env|
      invariant 0 <= i <= |env|
      invariant r == env
      invariant forall j :: 0 <= j < i ==> !Contains(env[j], tag)
    {
      if Contains(env[i], tag) {
        forall j | 0 <= j < i ensures env[j] != env[i] { }
        RemoveFirstAt(env, env[i], i);
        r := RemoveFirst(r, env[i]);
        WithoutFirstTaggedShape(env, tag);
        assert FirstTagged(env, tag) == Some(i) by {
          var f := FirstTagged(env, tag);
          assert f.Some? && f.value <= i;
        }
        break;
      }
      i := i + 1;
    }
    if i == |env| {
      WithoutFirstTaggedShape(env, tag);
    }
  }

  // ------------------------------------------------------- list-level facts

  /** At most one tagged line goes: the count drops by exactly one when there was any. */
  lemma {:induction false} CountAfterRemoval(lines: seq<string>, tag: string)
    ensures CountTagged(WithoutFirstTagged(lines, tag), tag) ==
      if CountTagged(lines, tag) > 0 then CountTagged(lines, tag) - 1 else 0
  {
    if lines != [] {
      CountAfterRemoval(lines[1..], tag);
      if !Contains(lines[0], tag) {
        var w := WithoutFirstTagged(lines[1..], tag);
        assert ([lines[0]] + w)[1..] == w;
      }
    }
  }

  lemma {:induction false} CountConcat(a: seq<string>, b: seq<string>, tag: string)
    ensures CountTagged(a + b, tag) == CountTagged(a, tag) + CountTagged(b, tag)
  {
    if a == [] {
      assert a + b == b;
    } else {
      assert (a + b)[0] == a[0] && (a + b)[1..] == a[1..] + b;
      CountConcat(a[1..], b, tag);
    }
  }

  lemma {:induction false} NoTaggedCountZero(lines: seq<string>, tag: string)
    ensures (forall j :: 0 <= j < |lines| ==> !Contains(lines[j], tag)) <==> CountTagged(lines, tag) == 0
  {
    if lines != [] {
      NoTaggedCountZero(lines[1..], tag);
      assert forall j :: 1 <= j < |lines| ==> lines[j] == lines[1..][j - 1];
    }
  }

  /** Starting from at most one tagged line, registration leaves exactly one, and it is last. */
  lemma {:induction false} RegisterKeepsOneEntry(lines: seq<string>, tag: string, line: string)
    requires Contains(line, tag) && CountTagged(lines, tag) <= 1
    ensures CountTagged(Register(lines, tag, line), tag) == 1
    ensures Register(lines, tag, line)[|Register(lines, tag, line)| - 1] == line
  {
    CountAfterRemoval(lines, tag);
    CountConcat(WithoutFirstTagged(lines, tag), [line], tag);
  }

  /** Lines without the tag are passed over by the removal. */
  lemma {:induction false} WithoutFirstTaggedSkips(a: seq<string>, b: seq<string>, tag: string)
    requires CountTagged(a, tag) == 0
    ensures WithoutFirstTagged(a + b, tag) == a + WithoutFirstTagged(b, tag)
  {
    if a == [] {
      assert a + b == b;
    } else {
      assert (a + b)[0] == a[0] && (a + b)[1..] == a[1..] + b;
      WithoutFirstTaggedSkips(a[1..], b, tag);
    }
  }

  /** Registering twice in a row gives the list of registering once, when at most one tagged line
      was there to begin with. */
  lemma {:induction false} RegisterIdempotent(lines: seq<string>, tag: string, line: string)
    requires Contains(line, tag) && CountTagged(lines, tag) <= 1
    ensures Register(Register(lines, tag, line), tag, line) == Register(lines, tag, line)
  {
    var w := WithoutFirstTagged(lines, tag);
    CountAfterRemoval(lines, tag);
    WithoutFirstTaggedSkips(w, [line], tag);
  }

  // ------------------------------------------------------- file-level facts

  /** The appended line has no newline after it, so the next registration of another package
      continues the same physical line: two packages registered one after the other into an empty
      env file leave one line holding both entries; registering either again then removes the
      other one's entry too, so re-registering the second is not idempotent. */
  lemma {:induction false} EntriesJoinOnOneLine(tagA: string, lineA: string, tagB: string, lineB: string)
    requires lineA != [] && '\n' !in lineA && '\n' !in lineB
    requires Contains(lineA, tagA) && Contains(lineB, tagB) && !Contains(lineA, tagB)
    ensures EnvAfter([], tagA, lineA) == lineA
    ensures EnvAfter(lineA, tagB, lineB) == lineA + lineB
    ensures ReadLines(lineA + lineB) == [lineA + lineB]
    ensures EnvAfter(lineA + lineB, tagA, lineA) == lineA
    ensures EnvAfter(lineA + lineB, tagB, lineB) == lineB != lineA + lineB
  {
    assert EnvAfter([], tagA, lineA) == lineA by {
      assert ReadLines([]) == [];
      assert Register([], tagA, lineA) == [lineA];
      assert JoinLines([lineA]) == lineA + JoinLines([]);
    }
    NoNewlineIsOneLine(lineA);
    assert Register([lineA], tagB, lineB) == [lineA, lineB] by {
      assert WithoutFirstTagged([lineA], tagB) == [lineA] + WithoutFirstTagged([], tagB);
    }
    assert JoinLines([lineA, lineB]) == lineA + lineB by {
      assert [lineA, lineB][1..] == [lineB];
      assert JoinLines([lineB]) == lineB + JoinLines([]);
    }
    assert '\n' !in lineA + lineB;
    NoNewlineIsOneLine(lineA + lineB);
    ContainsLeft(lineA, lineB, tagA);
    assert Register([lineA + lineB], tagA, lineA) == [lineA];
    ContainsRight(lineA, lineB, tagB);
    assert Register([lineA + lineB], tagB, lineB) == [lineB];
    assert JoinLines([lineB]) == lineB + JoinLines([]);
    assert |lineA + lineB| > |lineB|;
  }

  /** Re-registering the same package leaves the file as the first registration left it, when
      the file was empty or ended with a newline and held at most one tagged line. */
  lemma {:induction false} EnvAfterIdempotent(content: string, tag: string, line: string)
    requires content == [] || content[|content| - 1] == '\n'
    requires CountTagged(ReadLines(content), tag) <= 1
    requires line != [] && '\n' !in line && Contains(line, tag)
    ensures EnvAfter(EnvAfter(content, tag, line), tag, line) == EnvAfter(content, tag, line)
  {
    var ls := ReadLines(content);
    var w := WithoutFirstTagged(ls, tag);
    AllFullLines(content);
    WithoutFirstTaggedShape(ls, tag);
    assert forall i :: 0 <= i < |w| ==> IsFullLine(w[i]);
    assert IsLastLine(line) && line[|line| - 1] != '\n' by {
      assert line[..|line| - 1] + [line[|line| - 1]] == line;
    }
    ReadJoinLines(w, line);
    RegisterIdempotent(ls, tag, line);
  }

  /** A text that is empty or ends with a newline reads as full lines only. */
  lemma {:induction false} AllFullLines(content: string)
    requires content == [] || content[|content| - 1] == '\n'
    ensures forall i :: 0 <= i < |ReadLines(content)| ==> IsFullLine(ReadLines(content)[i])
  {
    ReadLinesShape(content);
    JoinReadLines(content);
    LastLineFull(ReadLines(content), content);
  }

  /** Lines that join to a text ending with a newline end with a full line. */
  lemma {:induction false} LastLineFull(ls: seq<string>, content: string)
    requires JoinLines(ls) == content && (content == [] || content[|content| - 1] == '\n')
    requires forall i :: 0 <= i < |ls| - 1 ==> IsFullLine(ls[i])
    requires ls != [] ==> IsLastLine(ls[|ls| - 1])
    ensures forall i :: 0 <= i < |ls| ==> IsFullLine(ls[i])
  {
    if ls != [] {
      var last := ls[|ls| - 1];
      LastIsFull(ls, content);
      forall i | 0 <= i < |ls| ensures IsFullLine(ls[i]) {
        if i == |ls| - 1 {
          assert ls[i] == last;
        }
      }
    }
  }

  lemma {:induction false} LastIsFull(ls: seq<string>, content: string)
    requires JoinLines(ls) == content && (content == [] || content[|content| - 1] == '\n')
    requires ls != [] && IsLastLine(ls[|ls| - 1])
    ensures IsFullLine(ls[|ls| - 1])
  {
    JoinSplitLast(ls);
    EndsFull(JoinLines(ls[..|ls| - 1]), ls[|ls| - 1], content);
  }

  lemma {:induction false} JoinSplitLast(ls: seq<string>)
    requires ls != []
    ensures JoinLines(ls) == JoinLines(ls[..|ls| - 1]) + ls[|ls| - 1]
  {
    var last := ls[|ls| - 1];
    assert ls == ls[..|ls| - 1] + [last];
    JoinLinesConcat(ls[..|ls| - 1], [last]);
    assert JoinLines([last]) == last;
  }

  /** A last line at the end of a text that ends with a newline is a full line. */
  lemma {:induction false} EndsFull(front: string, last: string, content: string)
    requires content == front + last && IsLastLine(last)
    requires content == [] || content[|content| - 1] == '\n'
    ensures IsFullLine(last)
  {
    assert content[|content| - 1] == last[|last| - 1];
  }
}
