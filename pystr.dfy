/** The Python `str` operations the change tracker is built from: `split` on a
    one-character separator, `join`, iteration over the lines of a text file,
    `split()` on whitespace and the `in` substring test. */
module PyStr {

  /** Number of occurrences of `c` in `s`. */
  function Count(s: string, c: char): nat
  {
    if s == [] then 0 else (if s[0] == c then 1 else 0) + Count(s[1..], c)
  }

  /** Index of the first `c` in `s`, or `|s|` when `s` holds none. */
  function Find(s: string, c: char): (i: nat)
    ensures i <= |s|
    ensures c !in s[..i]
    ensures i < |s| <==> c in s
    ensures i < |s| ==> s[i] == c
  {
    if s == [] then 0
    else if s[0] == c then 0
    else
      var j := Find(s[1..], c);
      assert s[..j + 1] == [s[0]] + s[1..][..j];
      j + 1
  }

  lemma {:induction false} FindPast(a: string, c: char, b: string)
    requires c !in a
    ensures Find(a + [c] + b, c) == |a|
  {
    if a != [] {
      assert (a + [c] + b)[1..] == a[1..] + [c] + b;
      FindPast(a[1..], c, b);
    }
  }

  /** `s.split(sep)`: the pieces between separators, always at least one
      (`"".split("|")` is `[""]`). */
  function Split(s: string, sep: char): (parts: seq<string>)
    ensures |parts| == Count(s, sep) + 1
    ensures forall i :: 0 <= i < |parts| ==> sep !in parts[i]
  {
    if s == [] then [""]
    else
      var rest := Split(s[1..], sep);
      if s[0] == sep then [""] + rest
      else [[s[0]] + rest[0]] + rest[1..]
  }

  /** `sep.join(parts)`. */
  function Join(parts: seq<string>, sep: char): string
  {
    if parts == [] then ""
    else if |parts| == 1 then parts[0]
    else parts[0] + [sep] + Join(parts[1..], sep)
  }

  lemma {:induction false} SplitWithout(s: string, sep: char)
    requires sep !in s
    ensures Split(s, sep) == [s]
  {
    if s != [] {
      SplitWithout(s[1..], sep);
      assert [s[0]] + s[1..] == s;
    }
  }

  /** Splitting at the first separator: the text before it is the first field. */
  lemma {:induction false} SplitAround(a: string, sep: char, b: string)
    requires sep !in a
    ensures Split(a + [sep] + b, sep) == [a] + Split(b, sep)
  {
    if a == [] {
      assert (a + [sep] + b)[1..] == b;
    } else {
      assert (a + [sep] + b)[1..] == a[1..] + [sep] + b;
      SplitAround(a[1..], sep, b);
      assert [a[0]] + a[1..] == a;
    }
  }

  /** The first field of a split is the text before the first separator. */
  lemma {:induction false} SplitFirst(s: string, sep: char)
    ensures Split(s, sep)[0] == s[..Find(s, sep)]
    ensures sep in s ==> Split(s, sep) == [s[..Find(s, sep)]] + Split(s[Find(s, sep) + 1..], sep)
  {
    var i := Find(s, sep);
    if sep in s {
      assert s == s[..i] + [sep] + s[i + 1..];
      SplitAround(s[..i], sep, s[i + 1..]);
    } else {
      assert s[..i] == s;
      SplitWithout(s, sep);
    }
  }

  /** The second field of a split is the text between the first separator and
      the next one (or the end). */
  lemma {:induction false} SplitSecond(s: string, sep: char)
    requires sep in s
    ensures |Split(s, sep)| >= 2
    ensures var i := Find(s, sep); var rest := s[i + 1..];
      Split(s, sep)[1] == rest[..Find(rest, sep)]
  {
    var i := Find(s, sep);
    SplitFirst(s, sep);
    SplitFirst(s[i + 1..], sep);
  }

  /** Joining the pieces of a split gives back the text. */
  lemma {:induction false} JoinSplit(s: string, sep: char)
    ensures Join(Split(s, sep), sep) == s
  {
    if s != [] {
      var rest := Split(s[1..], sep);
      JoinSplit(s[1..], sep);
      if s[0] == sep {
        assert ([""] + rest)[1..] == rest;
      } else {
        var parts := [[s[0]] + rest[0]] + rest[1..];
        if |rest| > 1 {
          assert parts[1..] == rest[1..];
        }
      }
    }
  }

  /** Splitting a join of separator-free pieces gives back the pieces. */
  lemma {:induction false} SplitJoin(parts: seq<string>, sep: char)
    requires |parts| > 0
    requires forall i :: 0 <= i < |parts| ==> sep !in parts[i]
    ensures Split(Join(parts, sep), sep) == parts
  {
    if |parts| == 1 {
      SplitWithout(parts[0], sep);
    } else {
      SplitJoin(parts[1..], sep);
      SplitAround(parts[0], sep, Join(parts[1..], sep));
      assert [parts[0]] + parts[1..] == parts;
    }
  }

  /** The strings of `ls` one after another. */
  function Concat(ls: seq<string>): string
  {
    if ls == [] then "" else ls[0] + Concat(ls[1..])
  }

  lemma {:induction false} ConcatAppend(a: seq<string>, b: seq<string>)
    ensures Concat(a + b) == Concat(a) + Concat(b)
  {
    if a == [] {
      assert a + b == b;
    } else {
      assert (a + b)[1..] == a[1..] + b;
      ConcatAppend(a[1..], b);
    }
  }

  /** A piece of text that file iteration yields as one whole line: non-empty,
      ending in its only newline. */
  predicate IsFullLine(line: string)
  {
    |line| > 0 && line[|line| - 1] == '\n' && '\n' !in line[..|line| - 1]
  }

  /** A piece of text that file iteration yields as a line: non-empty, with no
      newline before its last character. */
  predicate IsLinePiece(line: string)
  {
    |line| > 0 && '\n' !in line[..|line| - 1]
  }

  /** Iterating over a text file (or `readlines()`): the text cut after every
      newline, the newline kept, plus a last piece without one when the text
      does not end in a newline; no piece for empty text. */
  function Lines(text: string): (lines: seq<string>)
    ensures Concat(lines) == text
    ensures forall i :: 0 <= i < |lines| ==> IsLinePiece(lines[i])
    ensures forall i :: 0 <= i < |lines| - 1 ==> IsFullLine(lines[i])
    decreases |text|
  {
    if text == [] then []
    else
      var i := Find(text, '\n');
      if i == |text| then
        LastPiece(text);
        [text]
      else
        var line, rest := text[..i + 1], text[i + 1..];
        FirstLine(text, i);
        var tail := Lines(rest);
        LinesCons(line, tail);
        [line] + tail
  }

  /** Text without a newline is one line piece. */
  lemma LastPiece(text: string)
    requires text != [] && '\n' !in text
    ensures IsLinePiece(text)
  {
    assert text[..|text| - 1] <= text;
  }

  /** The text up to and including its first newline is a whole line. */
  lemma FirstLine(text: string, i: nat)
    requires i < |text| && text[i] == '\n' && '\n' !in text[..i]
    ensures IsFullLine(text[..i + 1])
    ensures text[..i + 1] + text[i + 1..] == text
  {
    assert text[..i + 1][..i] == text[..i];
  }

  /** A whole line in front of lines keeps them lines. */
  lemma LinesCons(line: string, tail: seq<string>)
    requires IsFullLine(line)
    requires forall k :: 0 <= k < |tail| ==> IsLinePiece(tail[k])
    requires forall k :: 0 <= k < |tail| - 1 ==> IsFullLine(tail[k])
    ensures Concat([line] + tail) == line + Concat(tail)
    ensures forall k :: 0 <= k < |[line] + tail| ==> IsLinePiece(([line] + tail)[k])
    ensures forall k :: 0 <= k < |[line] + tail| - 1 ==> IsFullLine(([line] + tail)[k])
  {
    var lines := [line] + tail;
    assert lines[1..] == tail;
    assert forall k :: 1 <= k < |lines| ==> lines[k] == tail[k - 1];
  }

  /** There is one line per newline, plus one for an unterminated last line. */
  lemma {:induction false} LinesCount(text: string)
    ensures |Lines(text)| == Count(text, '\n') + (if Unterminated(text) then 1 else 0)
    decreases |text|
  {
    if text != [] {
      if '\n' !in text {
        LinesWithoutNewline(text);
        CountAbsent(text, '\n');
      } else {
        var rest := text[Find(text, '\n') + 1..];
        LinesAfterFirst(text);
        CountAfterFirst(text, '\n');
        UnterminatedAfter(text, Find(text, '\n'));
        LinesCount(rest);
      }
    }
  }

  /** The text does not end in a newline (and is not empty): its last line
      is a partial one. */
  predicate Unterminated(text: string)
  {
    text != [] && text[|text| - 1] != '\n'
  }

  /** Past a newline, a text ends as it did. */
  lemma UnterminatedAfter(text: string, i: nat)
    requires i < |text| && text[i] == '\n'
    ensures Unterminated(text) == Unterminated(text[i + 1..])
  {
    var rest := text[i + 1..];
    if rest != [] {
      assert text[|text| - 1] == rest[|rest| - 1];
    }
  }

  /** Non-empty text without a newline is one line. */
  lemma LinesWithoutNewline(text: string)
    requires text != [] && '\n' !in text
    ensures Lines(text) == [text]
  {
    assert Find(text, '\n') == |text|;
  }

  /** The first line of a text with a newline runs through that newline. */
  lemma LinesAfterFirst(text: string)
    requires '\n' in text
    ensures |Lines(text)| == 1 + |Lines(text[Find(text, '\n') + 1..])|
  {
    var i := Find(text, '\n');
    assert Lines(text) == [text[..i + 1]] + Lines(text[i + 1..]);
  }

  /** Past the first `c`, one fewer `c` remains. */
  lemma CountAfterFirst(text: string, c: char)
    requires c in text
    ensures Count(text, c) == 1 + Count(text[Find(text, c) + 1..], c)
  {
    var i := Find(text, c);
    assert text == text[..i] + [c] + text[i + 1..];
    CountSplit(text[..i], c, text[i + 1..]);
    CountAbsent(text[..i], c);
  }

  lemma {:induction false} CountAbsent(s: string, c: char)
    requires c !in s
    ensures Count(s, c) == 0
  {
    if s != [] {
      CountAbsent(s[1..], c);
    }
  }

  /** `c` occurs in `s` exactly when its count is positive. */
  lemma {:induction false} CountPositive(s: string, c: char)
    ensures Count(s, c) > 0 <==> c in s
  {
    if s != [] {
      CountPositive(s[1..], c);
      assert s == [s[0]] + s[1..];
    }
  }

  lemma {:induction false} CountSplit(a: string, c: char, b: string)
    ensures Count(a + [c] + b, c) == Count(a, c) + 1 + Count(b, c)
  {
    if a == [] {
      assert (a + [c] + b)[1..] == b;
    } else {
      assert (a + [c] + b)[1..] == a[1..] + [c] + b;
      CountSplit(a[1..], c, b);
    }
  }

  /** Lines written one after another are read back as the same lines. */
  lemma {:induction false} LinesOfConcat(ls: seq<string>)
    requires forall i :: 0 <= i < |ls| ==> IsFullLine(ls[i])
    ensures Lines(Concat(ls)) == ls
  {
    if ls != [] {
      var line := ls[0];
      var n := |line| - 1;
      var rest := Concat(ls[1..]);
      assert line == line[..n] + ['\n'];
      assert Concat(ls) == line[..n] + ['\n'] + rest;
      FindPast(line[..n], '\n', rest);
      assert Concat(ls)[..n + 1] == line;
      assert Concat(ls)[n + 1..] == rest;
      LinesOfConcat(ls[1..]);
    }
  }

  /** The line with one trailing newline removed (`line.rstrip("\n")` on a line
      from file iteration, which holds at most one). */
  function StripNewline(line: string): (r: string)
    ensures r + (if |r| < |line| then "\n" else "") == line
    ensures |line| > 0 && line[|line| - 1] == '\n' ==> |r| == |line| - 1
  {
    if |line| > 0 && line[|line| - 1] == '\n' then line[..|line| - 1] else line
  }

  /** Python's whitespace (`str.isspace`): the characters `split()` with no
      argument cuts at. */
  predicate IsSpace(c: char)
  {
    var n := c as int;
    (9 <= n <= 13) || (28 <= n <= 32) || n == 0x85 || n == 0xA0 || n == 0x1680
    || (0x2000 <= n <= 0x200A) || n == 0x2028 || n == 0x2029 || n == 0x202F
    || n == 0x205F || n == 0x3000
  }

  predicate NoSpace(s: string)
  {
    forall i :: 0 <= i < |s| ==> !IsSpace(s[i])
  }

  /** The longest whitespace-free prefix of `s`. */
  function WordPrefix(s: string): (w: string)
    ensures w <= s && NoSpace(w)
    ensures |w| < |s| ==> IsSpace(s[|w|])
  {
    if s == [] || IsSpace(s[0]) then []
    else [s[0]] + WordPrefix(s[1..])
  }

  /** `s.split()`: the maximal whitespace-free runs of `s`, in order. */
  function Words(s: string): (ws: seq<string>)
    ensures forall i :: 0 <= i < |ws| ==> |ws[i]| > 0 && NoSpace(ws[i])
    decreases |s|
  {
    if s == [] then []
    else if IsSpace(s[0]) then Words(s[1..])
    else
      var w := WordPrefix(s);
      [w] + Words(s[|w|..])
  }

  /** Number of positions where a whitespace-free run starts; `afterSpace` says
      whether the position before `s` counts as whitespace (or the start). */
  function Runs(s: string, afterSpace: bool): nat
  {
    if s == [] then 0
    else (if afterSpace && !IsSpace(s[0]) then 1 else 0) + Runs(s[1..], IsSpace(s[0]))
  }

  /** Number of non-whitespace characters of `s`. */
  function NonSpaceCount(s: string): nat
  {
    if s == [] then 0 else (if IsSpace(s[0]) then 0 else 1) + NonSpaceCount(s[1..])
  }

  /** Sum of the lengths of the strings of `ws`. */
  function TotalLength(ws: seq<string>): nat
  {
    if ws == [] then 0 else |ws[0]| + TotalLength(ws[1..])
  }

  lemma {:induction false} WordPrefixBeforeSpace(a: string, c: char, b: string)
    requires IsSpace(c)
    ensures WordPrefix(a + [c] + b) == WordPrefix(a)
  {
    if a == [] {
    } else if !IsSpace(a[0]) {
      assert (a + [c] + b)[1..] == a[1..] + [c] + b;
      WordPrefixBeforeSpace(a[1..], c, b);
    }
  }

  /** Text that ends in whitespace keeps its words apart from what follows. */
  lemma EndsInSpaceWords(a: string, b: string)
    requires |a| > 0 && IsSpace(a[|a| - 1])
    ensures Words(a + b) == Words(a) + Words(b)
  {
    var x, c := a[..|a| - 1], a[|a| - 1];
    assert Words(a + b) == Words(x) + Words(b) by {
      assert a + b == x + [c] + b;
      WordsAcrossSpace(x, c, b);
    }
    assert Words(a) == Words(x) + Words("") by {
      assert a == x + [c] + "";
      WordsAcrossSpace(x, c, "");
    }
    assert Words("") == [];
  }

  /** A whitespace character separates words: the words of `a`, then those of `b`. */
  lemma {:induction false} WordsAcrossSpace(a: string, c: char, b: string)
    requires IsSpace(c)
    ensures Words(a + [c] + b) == Words(a) + Words(b)
    decreases |a|
  {
    var s := a + [c] + b;
    if a == [] {
      assert s[1..] == b;
    } else if IsSpace(a[0]) {
      assert s[1..] == a[1..] + [c] + b;
      WordsAcrossSpace(a[1..], c, b);
    } else {
      var w := WordPrefix(a);
      WordPrefixBeforeSpace(a, c, b);
      assert s[|w|..] == a[|w|..] + [c] + b;
      WordsAcrossSpace(a[|w|..], c, b);
    }
  }

  lemma {:induction false} RunsInsideWord(t: string, u: string)
    requires NoSpace(t)
    requires u == [] || IsSpace(u[0])
    ensures Runs(t + u, false) == Runs(u, true)
  {
    if t == [] {
      assert t + u == u;
    } else {
      assert (t + u)[1..] == t[1..] + u;
      RunsInsideWord(t[1..], u);
    }
  }

  /** `split()` yields one word per maximal whitespace-free run. */
  lemma {:induction false} WordsCountRuns(s: string)
    ensures |Words(s)| == Runs(s, true)
    decreases |s|
  {
    if s != [] {
      if IsSpace(s[0]) {
        WordsCountRuns(s[1..]);
      } else {
        var w := WordPrefix(s);
        assert s[1..] == w[1..] + s[|w|..];
        RunsInsideWord(w[1..], s[|w|..]);
        WordsCountRuns(s[|w|..]);
      }
    }
  }

  lemma {:induction false} NonSpaceCountAfterWord(t: string, u: string)
    requires NoSpace(t)
    ensures NonSpaceCount(t + u) == |t| + NonSpaceCount(u)
  {
    if t == [] {
      assert t + u == u;
    } else {
      assert (t + u)[1..] == t[1..] + u;
      NonSpaceCountAfterWord(t[1..], u);
    }
  }

  /** The words hold every non-whitespace character and nothing else. */
  lemma {:induction false} WordsKeepNonSpace(s: string)
    ensures TotalLength(Words(s)) == NonSpaceCount(s)
    decreases |s|
  {
    if s != [] {
      if IsSpace(s[0]) {
        WordsKeepNonSpace(s[1..]);
      } else {
        var w := WordPrefix(s);
        assert s == w + s[|w|..];
        NonSpaceCountAfterWord(w, s[|w|..]);
        WordsKeepNonSpace(s[|w|..]);
        assert ([w] + Words(s[|w|..]))[1..] == Words(s[|w|..]);
      }
    }
  }

  /** `sub in s`: `sub` starts at some position of `s`. */
  predicate Contains(s: string, sub: string)
  {
    sub <= s || (s != [] && Contains(s[1..], sub))
  }

  /** `sub` occurs in `s` starting at position `i`. */
  predicate OccursAt(s: string, sub: string, i: nat)
  {
    i + |sub| <= |s| && s[i..i + |sub|] == sub
  }

  /** `sub in s` holds exactly when `sub` occurs at some position of `s`. */
  lemma {:induction false} ContainsAt(s: string, sub: string)
    ensures Contains(s, sub) <==> exists i: nat :: OccursAt(s, sub, i)
  {
    if sub <= s {
      assert OccursAt(s, sub, 0);
    } else if s != [] {
      var t := s[1..];
      ContainsAt(t, sub);
      if exists i: nat :: OccursAt(t, sub, i) {
        var i: nat :| OccursAt(t, sub, i);
        assert s[i + 1..i + 1 + |sub|] == t[i..i + |sub|];
        assert OccursAt(s, sub, i + 1);
      }
      if exists i: nat :: OccursAt(s, sub, i) {
        var i: nat :| OccursAt(s, sub, i);
        assert i != 0;
        assert t[i - 1..i - 1 + |sub|] == s[i..i + |sub|];
        assert OccursAt(t, sub, i - 1);
      }
    }
  }
}
