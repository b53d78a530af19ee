/**
 The format=flowed decoder (FormatFlowedDecoder): a single pass over the
 physical lines of a body that strips quote marks and space-stuffing, sorts
 each line into signature separator, flowed or fixed, and gathers flowed
 lines into paragraphs (RFC 3676, sections 4.1 to 4.5).
 */
module Decoder {
  import opened Text
  import opened Chunks
  import Crlf

  /** `line.endswith(' ')`: the flow indicator is a literal space, not any whitespace. */
  predicate EndsWithSpace(s: string) {
    |s| > 0 && s[|s| - 1] == ' '
  }

  /** `_stripquotes`: the length of the leading run of '>' and what follows it. */
  function StripQuotes(line: string): (nat, string)
    decreases |line|
  {
    if |line| > 0 && line[0] == '>' then
      var (n, rest) := StripQuotes(line[1..]);
      (n + 1, rest)
    else
      (0, line)
  }

  /** The quote marks removed are a run of '>' and the rest does not start with another. */
  lemma {:induction false} StripQuotesSplits(line: string)
    decreases |line|
    ensures var (n, rest) := StripQuotes(line);
      line == Repeat('>', n) + rest && (rest == [] || rest[0] != '>')
  {
    if |line| > 0 && line[0] == '>' {
      StripQuotesSplits(line[1..]);
      var (n, rest) := StripQuotes(line[1..]);
      assert Repeat('>', n + 1) == ['>'] + Repeat('>', n);
    }
  }

  /** `_stripstuffing`: drop one leading space, if there is one. */
  function StripStuffing(line: string): (r: string)
    ensures |line| > 0 && line[0] == ' ' ==> [' '] + r == line
    ensures !(|line| > 0 && line[0] == ' ') ==> r == line
  {
    if |line| > 0 && line[0] == ' ' then line[1..] else line
  }

  /** `_stripflow`: with DelSp, drop the one trailing space that marks a flowed line. */
  function StripFlow(deleteSpace: bool, line: string): (r: string)
    ensures deleteSpace && EndsWithSpace(line) ==> r + " " == line
    ensures !(deleteSpace && EndsWithSpace(line)) ==> r == line
  {
    if deleteSpace && EndsWithSpace(line) then line[..|line| - 1] else line
  }

  /** The quote depth and the unstuffed text of one physical line (steps 2 and 3 of decoding). */
  function Content(line: string): (nat, string) {
    var (depth, rest) := StripQuotes(line);
    (depth, StripStuffing(rest))
  }

  /** A flowed line ends in the flow space, but "-- " never counts as flowed. */
  predicate IsFlowed(text: string) {
    text != SignatureLine && EndsWithSpace(text)
  }

  /**
   The decoder's accumulator. `Fresh` is the paragraph information without a
   quote depth (no flowed line seen since the last reset); `Open(para, depth)`
   holds the text gathered so far and the depth of the last flowed line. The
   text of an `Open` state can be empty: with DelSp a line that is just the
   flow space adds nothing but still sets the depth.
   */
  datatype State = Fresh | Open(para: string, depth: nat)

  function ParaOf(st: State): string {
    if st.Open? then st.para else []
  }

  /** The paragraph a reset would emit: only a non-empty one is ever yielded by a reset at a separator, a fixed line or the end. */
  function Pending(st: State): seq<Chunk> {
    if st.Open? && st.para != [] then [Chunk(Paragraph, st.depth, st.para)] else []
  }

  /** What one physical line contributes to the decoded text, wherever it ends up. */
  function LineText(deleteSpace: bool, line: string): string {
    var (_, text) := Content(line);
    if IsFlowed(text) then StripFlow(deleteSpace, text) else text
  }

  function LineTexts(deleteSpace: bool, lines: seq<string>): seq<string> {
    if |lines| == 0 then [] else [LineText(deleteSpace, lines[0])] + LineTexts(deleteSpace, lines[1..])
  }

  /** Fixed chunks never end in a space and separator chunks are exactly "-- ". */
  predicate WellFormed(cs: seq<Chunk>) {
    forall i :: 0 <= i < |cs| ==>
      && (cs[i].kind == Fixed ==> !EndsWithSpace(cs[i].text))
      && (cs[i].kind == SignatureSeparator ==> cs[i].text == SignatureLine)
  }

  lemma WellFormedAppend(a: seq<Chunk>, b: seq<Chunk>)
    requires WellFormed(a) && WellFormed(b)
    ensures WellFormed(a + b)
  {
    forall i | 0 <= i < |a + b|
      ensures (a + b)[i] == (if i < |a| then a[i] else b[i - |a|])
    {
    }
  }

  lemma AllTextTwo(a: Chunk, b: Chunk)
    ensures AllText([a, b]) == a.text + b.text
  {
    assert [a, b][1..] == [b];
    AllTextOne(b);
  }

  /** One turn of the decoding loop: the new accumulator and the chunks yielded for this line. */
  function Step(deleteSpace: bool, st: State, line: string): (State, seq<Chunk>) {
    var (depth, text) := Content(line);
    if text == SignatureLine then
      (if Pending(st) == [] then st else Fresh, Pending(st) + [Chunk(SignatureSeparator, depth, text)])
    else if EndsWithSpace(text) then
      if st.Open? && st.depth != depth then
        (Open(StripFlow(deleteSpace, text), depth), [Chunk(Paragraph, st.depth, st.para)])
      else
        (Open(ParaOf(st) + StripFlow(deleteSpace, text), depth), [])
    else if st.Open? && st.para != [] then
      if st.depth != depth then
        (Fresh, [Chunk(Paragraph, st.depth, st.para), Chunk(Fixed, depth, text)])
      else
        (Fresh, [Chunk(Paragraph, depth, st.para + text)])
    else
      (st, [Chunk(Fixed, depth, text)])
  }

  /**
   No text is lost or invented by one step: what is yielded, followed by what
   is still pending, is what was pending followed by the line's text.
   */
  lemma StepKeepsText(deleteSpace: bool, st: State, line: string)
    ensures var r := Step(deleteSpace, st, line);
      AllText(r.1) + ParaOf(r.0) == ParaOf(st) + LineText(deleteSpace, line)
  {
    var (depth, text) := Content(line);
    if text == SignatureLine {
      var sep := Chunk(SignatureSeparator, depth, text);
      AllTextOne(sep);
      if Pending(st) != [] {
        AllTextTwo(Pending(st)[0], sep);
      }
    } else if EndsWithSpace(text) {
      if st.Open? && st.depth != depth {
        AllTextOne(Chunk(Paragraph, st.depth, st.para));
      }
    } else if st.Open? && st.para != [] {
      if st.depth != depth {
        AllTextTwo(Chunk(Paragraph, st.depth, st.para), Chunk(Fixed, depth, text));
      } else {
        AllTextOne(Chunk(Paragraph, depth, st.para + text));
      }
    } else {
      AllTextOne(Chunk(Fixed, depth, text));
    }
  }

  /** A step yields fixed chunks only for lines without the flow space, and separators only as "-- ". */
  lemma StepWellFormed(deleteSpace: bool, st: State, line: string)
    ensures WellFormed(Step(deleteSpace, st, line).1)
  {
  }

  /**
   The decoding loop from accumulator `st` over `lines`, including the final
   flush of a paragraph left open by a trailing flowed line.
   */
  function DecodeLines(deleteSpace: bool, st: State, lines: seq<string>): seq<Chunk>
    decreases |lines|
  {
    if |lines| == 0 then
      Pending(st)
    else
      var step := Step(deleteSpace, st, lines[0]);
      step.1 + DecodeLines(deleteSpace, step.0, lines[1..])
  }

  lemma {:induction false} DecodeWellFormed(deleteSpace: bool, st: State, lines: seq<string>)
    decreases |lines|
    ensures WellFormed(DecodeLines(deleteSpace, st, lines))
  {
    if |lines| > 0 {
      var step := Step(deleteSpace, st, lines[0]);
      StepWellFormed(deleteSpace, st, lines[0]);
      DecodeWellFormed(deleteSpace, step.0, lines[1..]);
      DecodeLinesCons(deleteSpace, st, lines);
      WellFormedAppend(step.1, DecodeLines(deleteSpace, step.0, lines[1..]));
    }
  }

  /**
   Decoding neither loses nor invents text: the chunk texts, concatenated, are
   the pending text followed by every line's own text.
   */
  lemma {:induction false} DecodeKeepsText(deleteSpace: bool, st: State, lines: seq<string>)
    decreases |lines|
    ensures AllText(DecodeLines(deleteSpace, st, lines)) == ParaOf(st) + Flatten(LineTexts(deleteSpace, lines))
  {
    if |lines| == 0 {
      PendingText(st);
    } else {
      var step := Step(deleteSpace, st, lines[0]);
      DecodeKeepsText(deleteSpace, step.0, lines[1..]);
      StepThenRest(deleteSpace, st, lines);
    }
  }

  lemma PendingText(st: State)
    ensures AllText(Pending(st)) == ParaOf(st)
  {
    if Pending(st) != [] {
      AllTextOne(Pending(st)[0]);
    }
  }

  lemma StepThenRest(deleteSpace: bool, st: State, lines: seq<string>)
    requires |lines| > 0
    requires AllText(DecodeLines(deleteSpace, Step(deleteSpace, st, lines[0]).0, lines[1..]))
          == ParaOf(Step(deleteSpace, st, lines[0]).0) + Flatten(LineTexts(deleteSpace, lines[1..]))
    ensures AllText(DecodeLines(deleteSpace, st, lines)) == ParaOf(st) + Flatten(LineTexts(deleteSpace, lines))
  {
    var step := Step(deleteSpace, st, lines[0]);
    var more := DecodeLines(deleteSpace, step.0, lines[1..]);
    DecodeLinesCons(deleteSpace, st, lines);
    LineTextsCons(deleteSpace, lines);
    StepKeepsText(deleteSpace, st, lines[0]);
    AllTextAppend(step.1, more);
    Regroup(AllText(step.1), ParaOf(step.0), ParaOf(st), LineText(deleteSpace, lines[0]), Flatten(LineTexts(deleteSpace, lines[1..])));
  }

  lemma Regroup(a: string, b: string, c: string, d: string, e: string)
    requires a + b == c + d
    ensures a + (b + e) == c + (d + e)
  {
    assert a + (b + e) == (a + b) + e;
    assert c + (d + e) == (c + d) + e;
  }

  lemma DecodeLinesCons(deleteSpace: bool, st: State, lines: seq<string>)
    requires |lines| > 0
    ensures DecodeLines(deleteSpace, st, lines)
         == Step(deleteSpace, st, lines[0]).1 + DecodeLines(deleteSpace, Step(deleteSpace, st, lines[0]).0, lines[1..])
  {
  }

  lemma LineTextsCons(deleteSpace: bool, lines: seq<string>)
    requires |lines| > 0
    ensures Flatten(LineTexts(deleteSpace, lines)) == LineText(deleteSpace, lines[0]) + Flatten(LineTexts(deleteSpace, lines[1..]))
  {
  }

  /**
   `FormatFlowedDecoder.decode`: split the body on CRLF and decode the lines.
   The decoded texts are exactly the lines' texts after quote, stuffing and
   (with DelSp) flow-space removal.
   */
  function Decode(deleteSpace: bool, flowed: string): (r: seq<Chunk>)
    ensures AllText(r) == Flatten(LineTexts(deleteSpace, Crlf.Split(flowed)))
    ensures WellFormed(r)
  {
    DecodeKeepsText(deleteSpace, Fresh, Crlf.Split(flowed));
    DecodeWellFormed(deleteSpace, Fresh, Crlf.Split(flowed));
    DecodeLines(deleteSpace, Fresh, Crlf.Split(flowed))
  }

  /** A known number of quote marks in front of text that does not start with '>' is read back exactly. */
  lemma {:induction false} QuoteDepthRecovered(depth: nat, rest: string)
    requires rest == [] || rest[0] != '>'
    ensures StripQuotes(Repeat('>', depth) + rest) == (depth, rest)
  {
    if depth > 0 {
      var line := Repeat('>', depth) + rest;
      assert line[1..] == Repeat('>', depth - 1) + rest;
      QuoteDepthRecovered(depth - 1, rest);
    } else {
      assert Repeat('>', 0) + rest == rest;
    }
  }

  /**
   A "-- " line is a separator even though it ends in a space: any non-empty
   pending paragraph is yielded first and the accumulator reset.
   */
  lemma SignatureSeparatorLine(deleteSpace: bool, st: State, line: string, rest: seq<string>)
    requires Content(line).1 == SignatureLine
    ensures EndsWithSpace(SignatureLine)
    ensures DecodeLines(deleteSpace, st, [line] + rest)
         == Pending(st) + [Chunk(SignatureSeparator, Content(line).0, SignatureLine)]
            + DecodeLines(deleteSpace, if Pending(st) == [] then st else Fresh, rest)
  {
    assert ([line] + rest)[1..] == rest;
  }

  /** A line at quote depth `depth` that is flowed. */
  predicate FlowedAt(depth: nat, line: string) {
    Content(line).0 == depth && IsFlowed(Content(line).1)
  }

  /** A flowed line at the open paragraph's depth only extends it. */
  lemma FlowedLineExtends(deleteSpace: bool, para: string, depth: nat, line: string)
    requires FlowedAt(depth, line)
    ensures Step(deleteSpace, Open(para, depth), line) == (Open(para + LineText(deleteSpace, line), depth), [])
  {
  }

  /** Flowed lines at the paragraph's depth are appended to it without a separator. */
  lemma {:induction false} FlowedLinesJoin(deleteSpace: bool, para: string, depth: nat, run: seq<string>, rest: seq<string>)
    decreases |run|
    requires forall i :: 0 <= i < |run| ==> FlowedAt(depth, run[i])
    ensures DecodeLines(deleteSpace, Open(para, depth), run + rest)
         == DecodeLines(deleteSpace, Open(para + Flatten(LineTexts(deleteSpace, run)), depth), rest)
  {
    if |run| == 0 {
      assert run + rest == rest;
      assert para + Flatten(LineTexts(deleteSpace, run)) == para;
    } else {
      var para' := para + LineText(deleteSpace, run[0]);
      FlowedLinesJoin(deleteSpace, para', depth, run[1..], rest);
      FlowedLineThenRun(deleteSpace, para, depth, run, rest);
    }
  }

  lemma FlowedLineThenRun(deleteSpace: bool, para: string, depth: nat, run: seq<string>, rest: seq<string>)
    requires |run| > 0 && FlowedAt(depth, run[0])
    ensures DecodeLines(deleteSpace, Open(para, depth), run + rest)
         == DecodeLines(deleteSpace, Open(para + LineText(deleteSpace, run[0]), depth), run[1..] + rest)
    ensures para + LineText(deleteSpace, run[0]) + Flatten(LineTexts(deleteSpace, run[1..]))
         == para + Flatten(LineTexts(deleteSpace, run))
  {
    var lines := run + rest;
    assert lines[0] == run[0] && lines[1..] == run[1..] + rest;
    FlowedLineExtends(deleteSpace, para, depth, run[0]);
    DecodeLinesCons(deleteSpace, Open(para, depth), lines);
    LineTextsCons(deleteSpace, run);
  }

  /**
   A paragraph whose last line is flowed is still yielded at the end of the
   input, holding every line's text.
   */
  lemma FlowedParagraphAtEnd(deleteSpace: bool, depth: nat, run: seq<string>)
    requires |run| > 0
    requires forall i :: 0 <= i < |run| ==> FlowedAt(depth, run[i])
    requires Flatten(LineTexts(deleteSpace, run)) != []
    ensures DecodeLines(deleteSpace, Fresh, run) == [Chunk(Paragraph, depth, Flatten(LineTexts(deleteSpace, run)))]
  {
    var first := LineText(deleteSpace, run[0]);
    assert [] + first == first;
    assert Step(deleteSpace, Fresh, run[0]) == (Open(first, depth), []);
    FlowedLinesJoin(deleteSpace, first, depth, run[1..], []);
    assert run[1..] + [] == run[1..];
  }

  /**
   A line at another quote depth than the pending paragraph (other than a
   separator) first yields that paragraph unterminated, then is decoded as if
   nothing were pending. For a flowed line this happens even when the pending
   text is empty.
   */
  lemma DepthChangeFlushes(deleteSpace: bool, para: string, depth: nat, line: string, rest: seq<string>)
    requires Content(line).0 != depth && Content(line).1 != SignatureLine
    requires EndsWithSpace(Content(line).1) || para != []
    ensures DecodeLines(deleteSpace, Open(para, depth), [line] + rest)
         == [Chunk(Paragraph, depth, para)] + DecodeLines(deleteSpace, Fresh, [line] + rest)
  {
    StepAtNewDepth(deleteSpace, para, depth, line);
    DecodeLinesCons(deleteSpace, Open(para, depth), [line] + rest);
    DecodeLinesCons(deleteSpace, Fresh, [line] + rest);
    assert ([line] + rest)[1..] == rest;
  }

  lemma StepAtNewDepth(deleteSpace: bool, para: string, depth: nat, line: string)
    requires Content(line).0 != depth && Content(line).1 != SignatureLine
    requires EndsWithSpace(Content(line).1) || para != []
    ensures Step(deleteSpace, Open(para, depth), line)
         == (Step(deleteSpace, Fresh, line).0, [Chunk(Paragraph, depth, para)] + Step(deleteSpace, Fresh, line).1)
  {
    var (q, text) := Content(line);
    var par := Chunk(Paragraph, depth, para);
    if EndsWithSpace(text) {
      assert [] + StripFlow(deleteSpace, text) == StripFlow(deleteSpace, text);
      assert [par] + [] == [par];
    } else {
      assert [par] + [Chunk(Fixed, q, text)] == [par, Chunk(Fixed, q, text)];
    }
  }

  /** A fixed line at the pending paragraph's depth ends it and becomes its last piece of text. */
  lemma FixedLineClosesParagraph(deleteSpace: bool, para: string, line: string, rest: seq<string>)
    requires para != []
    requires !EndsWithSpace(Content(line).1)
    ensures DecodeLines(deleteSpace, Open(para, Content(line).0), [line] + rest)
         == [Chunk(Paragraph, Content(line).0, para + Content(line).1)] + DecodeLines(deleteSpace, Fresh, rest)
  {
    assert ([line] + rest)[1..] == rest;
  }
}
