/**
 String helpers mirroring the Python `str` operations the converter relies on:
 whitespace and line-boundary classification, `rstrip`, `splitlines`, `join`
 and repetition. Characters stand for both Unicode code points and bytes
 (character-set transcoding is not part of this model).
 */
module Text {

  /** `c.isspace()`: the characters Python treats as whitespace. */
  predicate IsSpace(c: char) {
    || ('\t' <= c <= '\r')
    || ('\U{1C}' <= c <= '\U{1F}')
    || c == ' ' || c == '\U{85}' || c == '\U{A0}' || c == '\U{1680}'
    || ('\U{2000}' <= c <= '\U{200A}')
    || c == '\U{2028}' || c == '\U{2029}' || c == '\U{202F}' || c == '\U{205F}' || c == '\U{3000}'
  }

  /** The line boundaries `str.splitlines()` splits on ("\r\n" counts as one). */
  predicate IsLineBreak(c: char) {
    || c == '\n' || c == '\r' || c == '\U{0B}' || c == '\U{0C}'
    || ('\U{1C}' <= c <= '\U{1E}')
    || c == '\U{85}' || c == '\U{2028}' || c == '\U{2029}'
  }

  predicate AllSpace(s: string) {
    forall i :: 0 <= i < |s| ==> IsSpace(s[i])
  }

  predicate NoSpace(s: string) {
    forall i :: 0 <= i < |s| ==> !IsSpace(s[i])
  }

  predicate NoBreaks(s: string) {
    forall i :: 0 <= i < |s| ==> !IsLineBreak(s[i])
  }

  lemma NoBreaksAppend(a: string, b: string)
    requires NoBreaks(a) && NoBreaks(b)
    ensures NoBreaks(a + b)
  {
    assert forall i :: 0 <= i < |a + b| ==> (a + b)[i] == if i < |a| then a[i] else b[i - |a|];
  }

  /** `s.startswith(p)` */
  predicate StartsWith(s: string, p: string) {
    |p| <= |s| && s[..|p|] == p
  }

  /** `c * n` for a single character. */
  function Repeat(c: char, n: nat): (r: string)
    ensures |r| == n
    ensures forall i :: 0 <= i < n ==> r[i] == c
  {
    seq(n, _ => c)
  }

  /** `s * n` for a string. */
  function RepeatString(s: string, n: nat): string {
    if n == 0 then [] else s + RepeatString(s, n - 1)
  }

  /** `s * n` is `n` copies of `s`: it starts and ends like `s` unless empty. */
  lemma {:induction false} RepeatStringShape(s: string, n: nat)
    ensures |RepeatString(s, n)| == n * |s|
    ensures n > 0 && |s| > 0 ==> StartsWith(RepeatString(s, n), s)
    ensures n > 0 && |s| > 0 ==> RepeatString(s, n)[n * |s| - 1] == s[|s| - 1]
  {
    if n > 0 {
      RepeatStringShape(s, n - 1);
      assert RepeatString(s, n) == s + RepeatString(s, n - 1);
      assert n * |s| == |s| + (n - 1) * |s|;
      if n > 1 && |s| > 0 {
        assert RepeatString(s, n)[n * |s| - 1] == RepeatString(s, n - 1)[(n - 1) * |s| - 1];
      }
    }
  }

  lemma MulAtLeast(a: int, k: int)
    requires a >= 1 && k > 0
    ensures a * k >= k
  {
  }

  lemma MulDistributes(a: int, b: int, k: int)
    ensures (a - b) * k == a * k - b * k
  {
  }

  /** The remainder is the only one in range: `i == q * k + r` with `0 <= r < k` makes `r` the remainder. */
  lemma ModUnique(i: int, k: int, q: int, r: int)
    requires 0 < k && 0 <= r < k && i == q * k + r
    ensures i % k == r
  {
    var q2, r2 := i / k, i % k;
    assert i == q2 * k + r2;
    MulDistributes(q2, q, k);
    if q2 > q {
      MulAtLeast(q2 - q, k);
    } else if q2 < q {
      MulAtLeast(q - q2, k);
      MulDistributes(q, q2, k);
    }
  }

  /** Taking one `k` off a number at least `k` keeps its remainder modulo `k`. */
  lemma ModShift(i: int, k: int)
    requires 0 < k <= i
    ensures (i - k) % k == i % k
  {
    var q, r := (i - k) / k, (i - k) % k;
    assert i - k == q * k + r;
    assert i == (q + 1) * k + r;
    ModUnique(i, k, q + 1, r);
  }

  /** Position `i` of `s * n` is position `i % len(s)` of `s`. */
  lemma {:induction false} RepeatStringAt(s: string, n: nat, i: nat)
    requires 0 < |s| && i < n * |s|
    ensures i < |RepeatString(s, n)| && RepeatString(s, n)[i] == s[i % |s|]
  {
    RepeatStringShape(s, n);
    RepeatStringShape(s, n - 1);
    assert RepeatString(s, n) == s + RepeatString(s, n - 1);
    if i < |s| {
      ModUnique(i, |s|, 0, i);
    } else {
      assert n * |s| == |s| + (n - 1) * |s|;
      RepeatStringAt(s, n - 1, i - |s|);
      ModShift(i, |s|);
    }
  }

  lemma RepeatStringIndex(s: string, n: nat)
    ensures |s| > 0 ==> |RepeatString(s, n)| == n * |s| && forall i :: 0 <= i < n * |s| ==> RepeatString(s, n)[i] == s[i % |s|]
  {
    RepeatStringShape(s, n);
    if |s| > 0 {
      forall i | 0 <= i < n * |s|
        ensures RepeatString(s, n)[i] == s[i % |s|]
      {
        RepeatStringAt(s, n, i);
      }
    }
  }

  /** Repeating a one-character string is repeating the character. */
  lemma {:induction false} RepeatStringOfChar(c: char, n: nat)
    ensures RepeatString([c], n) == Repeat(c, n)
  {
    if n > 0 {
      RepeatStringOfChar(c, n - 1);
      assert Repeat(c, n) == [c] + Repeat(c, n - 1);
    }
  }

  /** `s[n:]` with Python's clamping: an index past the end gives "". */
  function Drop(s: string, n: nat): (r: string)
    ensures n <= |s| ==> s == s[..n] + r
    ensures n > |s| ==> r == []
  {
    if n <= |s| then s[n..] else []
  }

  lemma AppendAssoc<T>(a: seq<T>, b: seq<T>, c: seq<T>)
    ensures (a + b) + c == a + (b + c)
  {
  }

  /** Concatenation of a sequence of sequences (`''.join(ss)` for strings). */
  function Flatten<T>(ss: seq<seq<T>>): seq<T> {
    if |ss| == 0 then [] else ss[0] + Flatten(ss[1..])
  }

  lemma {:induction false} FlattenAppend<T>(a: seq<seq<T>>, b: seq<seq<T>>)
    ensures Flatten(a + b) == Flatten(a) + Flatten(b)
  {
    if |a| == 0 {
      assert a + b == b;
    } else {
      assert (a + b)[1..] == a[1..] + b;
      FlattenAppend(a[1..], b);
    }
  }

  /** `sep.join(ss)` */
  function JoinWith(sep: string, ss: seq<string>): string {
    if |ss| == 0 then []
    else if |ss| == 1 then ss[0]
    else ss[0] + sep + JoinWith(sep, ss[1..])
  }

  /** A character put in front of the first string joins it: the rest of the join is unchanged. */
  lemma JoinCons(sep: string, c: char, rest: seq<string>)
    requires |rest| > 0
    ensures JoinWith(sep, [[c] + rest[0]] + rest[1..]) == [c] + JoinWith(sep, rest)
  {
    var xs := [[c] + rest[0]] + rest[1..];
    assert xs[0] == [c] + rest[0];
    if |rest| > 1 {
      assert xs[1..] == rest[1..];
      var t := JoinWith(sep, rest[1..]);
      assert JoinWith(sep, xs) == ([c] + rest[0]) + sep + t;
      assert JoinWith(sep, rest) == rest[0] + sep + t;
      AppendAssoc([c] + rest[0], sep, t);
      AppendAssoc([c], rest[0], sep + t);
      AppendAssoc(rest[0], sep, t);
    } else {
      assert |xs| == 1;
    }
  }

  /** `s.rstrip()`: the longest prefix of `s` not ending in whitespace. */
  function RStrip(s: string): (r: string)
    ensures r <= s
    ensures AllSpace(s[|r|..])
    ensures r == [] || !IsSpace(r[|r| - 1])
  {
    if |s| > 0 && IsSpace(s[|s| - 1]) then RStrip(s[..|s| - 1]) else s
  }

  /** The non-whitespace characters of `s`, in order. */
  function NonSpace(s: string): string {
    if |s| == 0 then [] else (if IsSpace(s[0]) then [] else [s[0]]) + NonSpace(s[1..])
  }

  lemma {:induction false} NonSpaceAppend(a: string, b: string)
    ensures NonSpace(a + b) == NonSpace(a) + NonSpace(b)
  {
    if |a| == 0 {
      assert a + b == b;
    } else {
      assert (a + b)[1..] == a[1..] + b;
      NonSpaceAppend(a[1..], b);
    }
  }

  lemma {:induction false} NonSpaceOfSpaces(s: string)
    requires AllSpace(s)
    ensures NonSpace(s) == []
  {
    if |s| > 0 {
      NonSpaceOfSpaces(s[1..]);
    }
  }

  lemma {:induction false} NonSpaceOfWord(s: string)
    requires NoSpace(s)
    ensures NonSpace(s) == s
  {
    if |s| > 0 {
      NonSpaceOfWord(s[1..]);
    }
  }

  /** `s` with every line-boundary character removed. */
  function DropBreaks(s: string): string {
    if |s| == 0 then [] else (if IsLineBreak(s[0]) then [] else [s[0]]) + DropBreaks(s[1..])
  }

  /**
   `s.splitlines()`: the lines of `s` without their terminators. A final
   terminator does not open an extra empty line, and "" has no lines.
   */
  function SplitLines(s: string): seq<string>
    decreases |s|
  {
    if |s| == 0 then []
    else if IsLineBreak(s[0]) then
      [[]] + SplitLines(AfterBreak(s))
    else
      var tail := SplitLines(s[1..]);
      if |tail| == 0 then [[s[0]]] else [[s[0]] + tail[0]] + tail[1..]
  }

  /**
   `s` with every line boundary replaced by one space, where "\r\n" is a
   single boundary and every other line-boundary character is one.
   */
  function BreaksToSpaces(s: string): string
    decreases |s|
  {
    if |s| == 0 then []
    else if IsLineBreak(s[0]) then " " + BreaksToSpaces(AfterBreak(s))
    else [s[0]] + BreaksToSpaces(s[1..])
  }

  /**
   Joining the lines of a text that does not end in a line boundary with
   single spaces replaces each boundary by a space.
   */
  lemma {:induction false} JoinSplitLines(s: string)
    requires s == [] || !IsLineBreak(s[|s| - 1])
    decreases |s|
    ensures JoinWith(" ", SplitLines(s)) == BreaksToSpaces(s)
  {
    if |s| == 0 {
    } else if IsLineBreak(s[0]) {
      var a := AfterBreak(s);
      assert a != [];
      assert a[|a| - 1] == s[|s| - 1];
      JoinSplitLines(a);
      SplitLinesShape(a);
      assert SplitLines(s) == [[]] + SplitLines(a);
      assert JoinWith(" ", SplitLines(s)) == [] + " " + JoinWith(" ", SplitLines(a));
    } else {
      var tail := SplitLines(s[1..]);
      if |tail| == 0 {
        SplitLinesShape(s[1..]);
        assert s == [s[0]];
      } else {
        SplitLinesShape(s[1..]);
        JoinSplitLines(s[1..]);
        JoinCons(" ", s[0], tail);
      }
    }
  }

  /** What follows the line boundary at the head of `s`; "\r\n" is one boundary. */
  function AfterBreak(s: string): (r: string)
    requires |s| > 0
    ensures |r| < |s| && r == s[|s| - |r|..]
  {
    if s[0] == '\r' && |s| > 1 && s[1] == '\n' then s[2..] else s[1..]
  }

  /** No line holds a boundary, and only the empty text has no lines. */
  lemma {:induction false} SplitLinesShape(s: string)
    decreases |s|
    ensures forall i :: 0 <= i < |SplitLines(s)| ==> NoBreaks(SplitLines(s)[i])
    ensures |SplitLines(s)| == 0 <==> |s| == 0
  {
    if |s| > 0 {
      if IsLineBreak(s[0]) {
        SplitLinesShape(AfterBreak(s));
        var r := SplitLines(s);
        assert forall i :: 1 <= i < |r| ==> r[i] == SplitLines(AfterBreak(s))[i - 1];
      } else {
        SplitLinesShape(s[1..]);
      }
    }
  }

  /** `splitlines` removes exactly the line-boundary characters, nothing else. */
  lemma {:induction false} SplitLinesDropsOnlyBreaks(s: string)
    decreases |s|
    ensures Flatten(SplitLines(s)) == DropBreaks(s)
  {
    if |s| == 0 {
    } else if IsLineBreak(s[0]) {
      SplitLinesDropsOnlyBreaks(AfterBreak(s));
      DropBreaksAfterBreak(s);
      assert Flatten(SplitLines(s)) == [] + Flatten(SplitLines(AfterBreak(s)));
    } else {
      SplitLinesDropsOnlyBreaks(s[1..]);
      SplitLinesOfWordChar(s);
    }
  }

  lemma DropBreaksAfterBreak(s: string)
    requires |s| > 0 && IsLineBreak(s[0])
    ensures DropBreaks(s) == DropBreaks(AfterBreak(s))
  {
    if |AfterBreak(s)| + 2 == |s| {
      assert DropBreaks(s[1..]) == DropBreaks(s[2..]);
    }
  }

  lemma SplitLinesOfWordChar(s: string)
    requires |s| > 0 && !IsLineBreak(s[0])
    ensures Flatten(SplitLines(s)) == [s[0]] + Flatten(SplitLines(s[1..]))
  {
    var tail := SplitLines(s[1..]);
    if |tail| > 0 {
      var r := [[s[0]] + tail[0]] + tail[1..];
      assert r[1..] == tail[1..];
      AppendAssoc([s[0]], tail[0], Flatten(tail[1..]));
    } else {
      assert SplitLines(s) == [[s[0]]];
      assert Flatten([[s[0]]]) == [s[0]] + Flatten([[s[0]]][1..]);
    }
  }

  /** A text not ending in a line boundary keeps its last character on its last line. */
  lemma {:induction false} SplitLinesKeepsLastChar(s: string)
    decreases |s|
    requires |s| > 0 && !IsLineBreak(s[|s| - 1])
    ensures var r := SplitLines(s); |r| > 0 && |r[|r| - 1]| > 0 && r[|r| - 1][|r[|r| - 1]| - 1] == s[|s| - 1]
  {
    if IsLineBreak(s[0]) {
      SplitLinesKeepsLastChar(AfterBreak(s));
    } else if |s| > 1 {
      SplitLinesKeepsLastChar(s[1..]);
    }
  }

  /** A text without line boundaries is a single line. */
  lemma {:induction false} SplitLinesSingle(s: string)
    decreases |s|
    requires NoBreaks(s) && |s| > 0
    ensures SplitLines(s) == [s]
  {
    if |s| > 1 {
      SplitLinesSingle(s[1..]);
      assert [s[0]] + s[1..] == s;
    } else {
      assert SplitLines(s[1..]) == [];
      assert [s[0]] == s;
    }
  }

  lemma {:induction false} NonSpaceDropBreaks(s: string)
    ensures NonSpace(DropBreaks(s)) == NonSpace(s)
  {
    if |s| > 0 {
      NonSpaceDropBreaks(s[1..]);
      NonSpaceAppend(if IsLineBreak(s[0]) then [] else [s[0]], DropBreaks(s[1..]));
    }
  }

  lemma {:induction false} NonSpaceJoinSpaces(ss: seq<string>)
    ensures NonSpace(JoinWith(" ", ss)) == NonSpace(Flatten(ss))
  {
    if |ss| == 1 {
      assert Flatten(ss[1..]) == [];
      assert Flatten(ss) == ss[0] + [] == ss[0];
    } else if |ss| > 1 {
      NonSpaceJoinSpaces(ss[1..]);
      NonSpaceAppend(ss[0] + " ", JoinWith(" ", ss[1..]));
      NonSpaceAppend(ss[0], " ");
      NonSpaceAppend(ss[0], Flatten(ss[1..]));
    }
  }

  lemma {:induction false} NonSpaceRStrip(s: string)
    ensures NonSpace(RStrip(s)) == NonSpace(s)
  {
    var r := RStrip(s);
    assert s == r + s[|r|..];
    NonSpaceAppend(r, s[|r|..]);
    NonSpaceOfSpaces(s[|r|..]);
  }
}
