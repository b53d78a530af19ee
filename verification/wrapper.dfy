/**
 The paragraph wrapper the encoder uses: `wrapper.wrap(chunk)` on a
 `_FlowedTextWrapper` without extra spaces, which is textwrap's `wrap` with
 the word separator `(\s+)` and long words left whole. The text is cut into
 tokens, the maximal runs of whitespace and of non-whitespace, and textwrap's
 `_wrap_chunks` packs them greedily into lines no longer than the width. A
 whitespace token at the start of a continuation line and one at the end of
 any line are dropped, and empty lines are never emitted. The module's own
 `_wrap` override packs the same way, but `wrap` does not call it.
 */
module Wrapper {
  import opened Text

  predicate IsSpaceToken(t: string) {
    |t| > 0 && AllSpace(t)
  }

  predicate IsWordToken(t: string) {
    |t| > 0 && NoSpace(t)
  }

  /** Every token is a whitespace run or a word, and the two kinds alternate. */
  predicate ValidTokens(ts: seq<string>) {
    && (forall i :: 0 <= i < |ts| ==> IsSpaceToken(ts[i]) || IsWordToken(ts[i]))
    && (forall i, j :: 0 <= i < |ts| && 0 <= j < |ts| && j == i + 1 ==> IsSpaceToken(ts[i]) != IsSpaceToken(ts[j]))
  }

  /** The length of the leading run of `s` whose characters are whitespace exactly when `space` is. */
  function RunLength(s: string, space: bool): (n: nat)
    ensures n <= |s|
    ensures forall i :: 0 <= i < n ==> IsSpace(s[i]) == space
    ensures n == |s| || IsSpace(s[n]) != space
  {
    if |s| == 0 || IsSpace(s[0]) != space then 0 else 1 + RunLength(s[1..], space)
  }

  /** `re.split('(\s+)', text)` with the empty pieces filtered out. */
  function Tokenize(s: string): seq<string>
    decreases |s|
  {
    if |s| == 0 then []
    else
      var n := RunLength(s, IsSpace(s[0]));
      [s[..n]] + Tokenize(s[n..])
  }

  /**
   Tokenizing loses nothing and yields alternating runs; the first token has
   the kind of the text's first character.
   */
  lemma {:induction false} TokenizeShape(s: string)
    decreases |s|
    ensures Flatten(Tokenize(s)) == s
    ensures ValidTokens(Tokenize(s))
    ensures |s| > 0 ==> |Tokenize(s)| > 0 && (IsSpaceToken(Tokenize(s)[0]) <==> IsSpace(s[0]))
  {
    if |s| > 0 {
      var n := RunLength(s, IsSpace(s[0]));
      var t := s[..n];
      var rest := Tokenize(s[n..]);
      TokenizeShape(s[n..]);
      assert s == t + s[n..];
      assert Tokenize(s) == [t] + rest;
      assert Tokenize(s)[1..] == rest;
      if IsSpace(s[0]) {
        assert IsSpaceToken(t);
      } else {
        assert IsWordToken(t);
        assert !IsSpaceToken(t) by { assert !IsSpace(t[0]); }
      }
      forall i, j | 0 <= i < j < |Tokenize(s)| && j == i + 1
        ensures IsSpaceToken(Tokenize(s)[i]) != IsSpaceToken(Tokenize(s)[j])
      {
        if i == 0 {
          assert Tokenize(s)[1] == rest[0];
        } else {
          assert Tokenize(s)[i] == rest[i - 1];
        }
      }
    }
  }

  /** A suffix of valid tokens is valid. */
  lemma ValidSuffix(ts: seq<string>, k: nat)
    requires ValidTokens(ts) && k <= |ts|
    ensures ValidTokens(ts[k..])
  {
    assert forall i :: 0 <= i < |ts| - k ==> ts[k..][i] == ts[k + i];
  }

  /** A prefix of valid tokens is valid. */
  lemma ValidPrefix(ts: seq<string>, k: nat)
    requires ValidTokens(ts) && k <= |ts|
    ensures ValidTokens(ts[..k])
  {
  }

  /**
   The greedy packing count: the longest prefix of `ts` whose total length is
   at most `room`. Adding the next token would overflow.
   */
  function Fit(ts: seq<string>, room: nat): (n: nat)
    ensures n <= |ts|
    ensures |Flatten(ts[..n])| <= room
    ensures n < |ts| ==> |Flatten(ts[..n + 1])| > room
  {
    if |ts| == 0 || |ts[0]| > room then
      FitStops(ts, room);
      0
    else
      var k := Fit(ts[1..], room - |ts[0]|);
      FlattenPrefix(ts, k);
      FlattenPrefix(ts, if k + 1 < |ts| then k + 1 else k);
      k + 1
  }

  lemma FitStops(ts: seq<string>, room: nat)
    requires |ts| == 0 || |ts[0]| > room
    ensures |Flatten(ts[..0])| <= room
    ensures 0 < |ts| ==> |Flatten(ts[..1])| > room
  {
    assert Flatten(ts[..0]) == [];
    if |ts| > 0 {
      FlattenOne(ts[0]);
      assert ts[..1] == [ts[0]];
    }
  }

  lemma FlattenOne<T>(t: seq<T>)
    ensures Flatten([t]) == t
  {
    assert Flatten([t]) == t + Flatten([t][1..]);
  }

  lemma FlattenPrefix(ts: seq<string>, k: nat)
    requires k < |ts|
    ensures Flatten(ts[..k + 1]) == ts[0] + Flatten(ts[1..][..k])
  {
    assert ts[..k + 1][1..] == ts[1..][..k];
  }

  /**
   The tokens the current line takes: as many as fit, and when not even the
   first one fits, that over-long token on its own (`_handle_long_word`
   without breaking long words, on an empty line).
   */
  function Take(ts: seq<string>, width: nat): (n: nat)
    requires |ts| > 0
    ensures 0 < n <= |ts|
    ensures |Flatten(ts[..n])| <= width || n == 1
    ensures n < |ts| ==> |Flatten(ts[..n + 1])| > width
  {
    var k := Fit(ts, width);
    if k == 0 then 1 else k
  }

  /** Drop one whitespace token at the end of the line. */
  function Trim(line: seq<string>): seq<string> {
    if |line| > 0 && IsSpaceToken(line[|line| - 1]) then line[..|line| - 1] else line
  }

  /**
   The packing loop of `_wrap_chunks` over the remaining tokens; `emitted` tells
   whether a line has been emitted already. Each result is the token list
   of one output line.
   */
  function WrapTokens(ts: seq<string>, width: nat, emitted: bool): seq<seq<string>>
    decreases |ts|
  {
    var ts1 := Lead(ts, emitted);
    if |ts1| == 0 then []
    else
      var n := Take(ts1, width);
      var line := Trim(ts1[..n]);
      var more := WrapTokens(ts1[n..], width, emitted || |line| > 0);
      if |line| > 0 then [line] + more else more
  }

  /** `us` is `ts` with some of its whitespace tokens removed, nothing else. */
  predicate DropsSpace(ts: seq<string>, us: seq<string>)
    decreases |ts|
  {
    if |ts| == 0 then |us| == 0
    else
      || (|us| > 0 && us[0] == ts[0] && DropsSpace(ts[1..], us[1..]))
      || (IsSpaceToken(ts[0]) && DropsSpace(ts[1..], us))
  }

  lemma {:induction false} DropsNothing(ts: seq<string>)
    decreases |ts|
    ensures DropsSpace(ts, ts)
  {
    if |ts| > 0 {
      DropsNothing(ts[1..]);
    }
  }

  lemma {:induction false} DropsSpaceAppend(a: seq<string>, a': seq<string>, b: seq<string>, b': seq<string>)
    decreases |a|
    requires DropsSpace(a, a') && DropsSpace(b, b')
    ensures DropsSpace(a + b, a' + b')
  {
    if |a| == 0 {
      assert a + b == b && a' + b' == b';
    } else {
      assert (a + b)[1..] == a[1..] + b;
      if |a'| > 0 && a'[0] == a[0] && DropsSpace(a[1..], a'[1..]) {
        DropsSpaceAppend(a[1..], a'[1..], b, b');
        assert (a' + b')[1..] == a'[1..] + b';
      } else {
        DropsSpaceAppend(a[1..], a', b, b');
      }
    }
  }

  /** Trimming a line drops at most one whitespace token. */
  lemma TrimDropsSpace(line: seq<string>)
    ensures DropsSpace(line, Trim(line))
  {
    var t := Trim(line);
    DropsNothing(t);
    if t != line {
      var last := line[|line| - 1];
      assert DropsSpace([last], []) by {
        assert [last][1..] == [];
      }
      DropsSpaceAppend(t, t, [last], []);
      assert t + [last] == line;
      assert t + [] == t;
    }
  }

  /** The non-whitespace characters survive the removal of whitespace tokens. */
  lemma {:induction false} DropsSpaceKeepsNonSpace(ts: seq<string>, us: seq<string>)
    decreases |ts|
    requires DropsSpace(ts, us)
    ensures NonSpace(Flatten(us)) == NonSpace(Flatten(ts))
  {
    if |ts| > 0 {
      NonSpaceAppend(ts[0], Flatten(ts[1..]));
      if |us| > 0 && us[0] == ts[0] && DropsSpace(ts[1..], us[1..]) {
        DropsSpaceKeepsNonSpace(ts[1..], us[1..]);
        NonSpaceAppend(us[0], Flatten(us[1..]));
      } else {
        DropsSpaceKeepsNonSpace(ts[1..], us);
        NonSpaceOfSpaces(ts[0]);
      }
    }
  }

  /** Removing tokens never adds characters. */
  lemma {:induction false} DropsSpaceSubMultiset(ts: seq<string>, us: seq<string>)
    decreases |ts|
    requires DropsSpace(ts, us)
    ensures multiset(Flatten(us)) <= multiset(Flatten(ts))
  {
    if |ts| > 0 {
      if |us| > 0 && us[0] == ts[0] && DropsSpace(ts[1..], us[1..]) {
        DropsSpaceSubMultiset(ts[1..], us[1..]);
      } else {
        DropsSpaceSubMultiset(ts[1..], us);
      }
    }
  }

  /** Every word token of `ts` is kept: a dropped token is always whitespace. */
  lemma {:induction false} DropsSpaceKeepsWords(ts: seq<string>, us: seq<string>)
    decreases |ts|
    requires DropsSpace(ts, us)
    ensures Words(us) == Words(ts)
  {
    if |ts| > 0 {
      if |us| > 0 && us[0] == ts[0] && DropsSpace(ts[1..], us[1..]) {
        DropsSpaceKeepsWords(ts[1..], us[1..]);
      } else {
        DropsSpaceKeepsWords(ts[1..], us);
        assert !IsWordToken(ts[0]) by {
          assert IsSpace(ts[0][0]);
        }
      }
    }
  }

  /** The word tokens of a token list, in order. */
  function Words(ts: seq<string>): seq<string> {
    if |ts| == 0 then [] else (if IsWordToken(ts[0]) then [ts[0]] else []) + Words(ts[1..])
  }

  /** Each line is a non-empty run of valid tokens ending in a word. */
  predicate GoodLine(line: seq<string>, width: nat, first: bool) {
    && |line| > 0
    && ValidTokens(line)
    && IsWordToken(line[|line| - 1])
    && (!first ==> IsWordToken(line[0]))
    && (|Flatten(line)| <= width || |line| == 1)
  }

  /** The tokens left once a continuation line's leading whitespace token is dropped. */
  function Lead(ts: seq<string>, emitted: bool): seq<string> {
    if emitted && |ts| > 0 && IsSpaceToken(ts[0]) then ts[1..] else ts
  }

  /** One round of the packing loop, spelled out. */
  lemma WrapTokensUnfold(ts: seq<string>, width: nat, emitted: bool)
    requires |Lead(ts, emitted)| > 0
    ensures var ts1 := Lead(ts, emitted);
      var n := Take(ts1, width);
      var line := Trim(ts1[..n]);
      WrapTokens(ts, width, emitted)
      == (if |line| > 0 then [line] else []) + WrapTokens(ts1[n..], width, emitted || |line| > 0)
  {
    var ts1 := Lead(ts, emitted);
    var n := Take(ts1, width);
    var line := Trim(ts1[..n]);
    if |line| == 0 {
      assert [] + WrapTokens(ts1[n..], width, emitted) == WrapTokens(ts1[n..], width, emitted);
    }
  }

  /**
   The shape of the wrapped lines: none is empty or ends in whitespace, only
   the very first line of the text may start with whitespace, and a line
   longer than the width is one token.
   */
  lemma {:induction false} WrapTokensShape(ts: seq<string>, width: nat, emitted: bool)
    decreases |ts|
    requires ValidTokens(ts)
    ensures forall i :: 0 <= i < |WrapTokens(ts, width, emitted)| ==>
      GoodLine(WrapTokens(ts, width, emitted)[i], width, i == 0 && !emitted)
  {
    var ts1 := Lead(ts, emitted);
    ValidSuffix(ts, |ts| - |ts1|);
    assert ts[|ts| - |ts1|..] == ts1;
    if |ts1| > 0 {
      var n := Take(ts1, width);
      var line := Trim(ts1[..n]);
      var nextEmitted := emitted || |line| > 0;
      var more := WrapTokens(ts1[n..], width, nextEmitted);
      ValidSuffix(ts1, n);
      WrapTokensShape(ts1[n..], width, nextEmitted);
      WrapTokensUnfold(ts, width, emitted);
      if |line| > 0 {
        LineIsGood(ts1, n, width, emitted);
        GoodLinesCons(line, more, width, emitted);
      } else {
        assert [] + more == more;
      }
    }
  }

  lemma GoodLinesCons(line: seq<string>, more: seq<seq<string>>, width: nat, emitted: bool)
    requires GoodLine(line, width, !emitted)
    requires forall i :: 0 <= i < |more| ==> GoodLine(more[i], width, false)
    ensures forall i :: 0 <= i < |[line] + more| ==> GoodLine(([line] + more)[i], width, i == 0 && !emitted)
  {
    var r := [line] + more;
    assert forall i :: 1 <= i < |r| ==> r[i] == more[i - 1];
  }

  /** Together the lines are the input tokens with some whitespace tokens dropped. */
  lemma {:induction false} WrapTokensDropsSpace(ts: seq<string>, width: nat, emitted: bool)
    decreases |ts|
    ensures DropsSpace(ts, Flatten(WrapTokens(ts, width, emitted)))
  {
    var ts1 := Lead(ts, emitted);
    if |ts1| == 0 {
      if ts1 != ts {
        assert DropsSpace(ts[1..], []);
      }
    } else {
      var n := Take(ts1, width);
      var line := Trim(ts1[..n]);
      var nextEmitted := emitted || |line| > 0;
      var more := WrapTokens(ts1[n..], width, nextEmitted);
      WrapTokensDropsSpace(ts1[n..], width, nextEmitted);
      TrimDropsSpace(ts1[..n]);
      DropsSpaceAppend(ts1[..n], line, ts1[n..], Flatten(more));
      assert ts1[..n] + ts1[n..] == ts1;
      WrapTokensUnfold(ts, width, emitted);
      var emit := if |line| > 0 then [line] else [];
      FlattenAppend(emit, more);
      FlattenOne(line);
      assert Flatten(emit) == line by {
        if |line| == 0 {
          assert emit == [];
        }
      }
      if ts1 != ts {
        assert ts1 == ts[1..];
      }
    }
  }

  /** The line taken from the front of the remaining tokens is a good one when non-empty. */
  lemma LineIsGood(ts1: seq<string>, n: nat, width: nat, emitted: bool)
    requires ValidTokens(ts1) && |ts1| > 0 && n == Take(ts1, width)
    requires emitted ==> !IsSpaceToken(ts1[0])
    requires |Trim(ts1[..n])| > 0
    ensures GoodLine(Trim(ts1[..n]), width, !emitted)
  {
    var taken := ts1[..n];
    var line := Trim(taken);
    ValidPrefix(ts1, n);
    ValidPrefix(taken, |line|);
    assert line == taken[..|line|];
    if line != taken {
      assert IsSpaceToken(taken[|taken| - 1]);
      assert !IsSpaceToken(taken[|taken| - 2]);
    }
    assert |Flatten(line)| <= |Flatten(taken)| by {
      FlattenAppend(line, taken[|line|..]);
      assert line + taken[|line|..] == taken;
    }
  }

  /** The lines of a wrapped text. */
  function Lines(groups: seq<seq<string>>): (r: seq<string>)
    ensures |r| == |groups|
    ensures forall i :: 0 <= i < |r| ==> r[i] == Flatten(groups[i])
  {
    if |groups| == 0 then [] else [Flatten(groups[0])] + Lines(groups[1..])
  }

  lemma {:induction false} FlattenLines(groups: seq<seq<string>>)
    ensures Flatten(Lines(groups)) == Flatten(Flatten(groups))
  {
    if |groups| > 0 {
      FlattenLines(groups[1..]);
      FlattenAppend(groups[0], Flatten(groups[1..]));
      assert Lines(groups)[1..] == Lines(groups[1..]);
    }
  }

  /**
   `_FlowedTextWrapper(width).wrap(text)`, for a positive width (the
   standard wrapper rejects any other).
   */
  function Wrap(text: string, width: nat): seq<string>
    requires width > 0
  {
    Lines(WrapTokens(Tokenize(text), width, false))
  }

  /** A good line, as text: non-empty, ending in a word character, and over the width only as one word. */
  lemma GoodLineText(g: seq<string>, width: nat, first: bool)
    requires GoodLine(g, width, first)
    ensures var l := Flatten(g);
      && |l| > 0 && !IsSpace(l[|l| - 1])
      && (!first ==> !IsSpace(l[0]))
      && (|l| <= width || NoSpace(l))
  {
    var k := |g| - 1;
    FlattenAppend(g[..k], [g[k]]);
    FlattenOne(g[k]);
    assert g[..k] + [g[k]] == g;
    assert g[k][|g[k]| - 1] == Flatten(g)[|Flatten(g)| - 1];
    if |g| == 1 {
      FlattenOne(g[0]);
      assert g == [g[0]];
    }
    assert Flatten(g) == g[0] + Flatten(g[1..]);
  }

  /** The line-level facts, read off the token groups. */
  lemma LinesText(groups: seq<seq<string>>, width: nat, emitted: bool)
    requires forall i :: 0 <= i < |groups| ==> GoodLine(groups[i], width, i == 0 && !emitted)
    ensures forall i :: 0 <= i < |groups| ==> |Lines(groups)[i]| > 0 && !IsSpace(Lines(groups)[i][|Lines(groups)[i]| - 1])
    ensures forall i :: 0 < i < |groups| ==> !IsSpace(Lines(groups)[i][0])
    ensures forall i :: 0 <= i < |groups| ==> |Lines(groups)[i]| <= width || NoSpace(Lines(groups)[i])
  {
    var r := Lines(groups);
    forall i | 0 <= i < |r|
      ensures |r[i]| > 0 && !IsSpace(r[i][|r[i]| - 1])
      ensures i > 0 ==> !IsSpace(r[i][0])
      ensures |r[i]| <= width || NoSpace(r[i])
    {
      GoodLineText(groups[i], width, i == 0 && !emitted);
    }
  }

  /**
   The wrapped lines: none is empty, none ends in whitespace, none but the
   first starts with whitespace, and a line over the width holds no
   whitespace (it is one over-long word).
   */
  lemma WrapShape(text: string, width: nat)
    requires width > 0
    ensures forall i :: 0 <= i < |Wrap(text, width)| ==>
      |Wrap(text, width)[i]| > 0 && !IsSpace(Wrap(text, width)[i][|Wrap(text, width)[i]| - 1])
    ensures forall i :: 0 < i < |Wrap(text, width)| ==> !IsSpace(Wrap(text, width)[i][0])
    ensures forall i :: 0 <= i < |Wrap(text, width)| ==> |Wrap(text, width)[i]| <= width || NoSpace(Wrap(text, width)[i])
  {
    var ts := Tokenize(text);
    TokenizeShape(text);
    WrapTokensShape(ts, width, false);
    LinesText(WrapTokens(ts, width, false), width, false);
  }

  /** Wrapping gives no lines exactly when the text is all whitespace. */
  lemma WrapEmpty(text: string, width: nat)
    requires width > 0
    ensures |Wrap(text, width)| == 0 <==> NonSpace(text) == []
  {
    var r := Wrap(text, width);
    WrapKeepsText(text, width);
    if |r| > 0 {
      WrapShape(text, width);
      NonSpaceAppend(r[0], Flatten(r[1..]));
      NonSpaceLastChar(r[0]);
    }
  }

  /** Wrapping drops only whitespace: the non-whitespace text is kept in order and nothing is added. */
  lemma WrapKeepsText(text: string, width: nat)
    requires width > 0
    ensures NonSpace(Flatten(Wrap(text, width))) == NonSpace(text)
    ensures multiset(Flatten(Wrap(text, width))) <= multiset(text)
  {
    var ts := Tokenize(text);
    var groups := WrapTokens(ts, width, false);
    TokenizeShape(text);
    WrapTokensDropsSpace(ts, width, false);
    FlattenLines(groups);
    DropsSpaceKeepsNonSpace(ts, Flatten(groups));
    DropsSpaceSubMultiset(ts, Flatten(groups));
  }

  /** A text ending in a non-whitespace character has some non-whitespace character. */
  lemma {:induction false} NonSpaceLastChar(s: string)
    requires |s| > 0 && !IsSpace(s[|s| - 1])
    ensures NonSpace(s) != []
  {
    var k := |s| - 1;
    assert s == s[..k] + [s[k]];
    NonSpaceAppend(s[..k], [s[k]]);
    assert NonSpace([s[k]]) == [s[k]] + NonSpace([]);
  }
}
