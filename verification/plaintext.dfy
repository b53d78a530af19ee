/**
 The plain-text paragraph detector (`_parseFlowableChunks`): every line is
 split into a quote prefix and a body; a change of quote prefix, a signature
 separator or a blank or indented line ends the pending paragraph, and any
 other line is appended to it.
 */
module PlainText {
  import opened Text
  import opened Chunks

  /**
   The greedy `([Q]\s?)+` loop from position `p`: a quote character followed
   by at most one whitespace character, as often as possible.
   */
  function MarkRun(quotechars: string, s: string, p: nat): (r: nat)
    requires p <= |s|
    decreases |s| - p
    ensures p <= r <= |s|
    ensures r > p <==> p < |s| && s[p] in quotechars
    ensures r < |s| ==> s[r] !in quotechars
    ensures p < r < |s| && IsSpace(s[r]) ==> p + 2 <= r && s[r - 2] in quotechars && IsSpace(s[r - 1])
  {
    if p < |s| && s[p] in quotechars then
      MarkRun(quotechars, s, if p + 1 < |s| && IsSpace(s[p + 1]) then p + 2 else p + 1)
    else
      p
  }

  /**
   Every character of the run is a quote character or a single whitespace
   character directly after one.
   */
  lemma {:induction false} MarkRunShape(quotechars: string, s: string, p: nat, i: nat)
    requires p <= |s| && p <= i < MarkRun(quotechars, s, p)
    decreases |s| - p
    ensures s[i] in quotechars || (i > p && IsSpace(s[i]) && s[i - 1] in quotechars)
  {
    var q := if p + 1 < |s| && IsSpace(s[p + 1]) then p + 2 else p + 1;
    if i >= q {
      MarkRunShape(quotechars, s, q, i);
    }
  }

  /**
   `s[k..e]` has the form `([Q]\s?)+` allows: every character is a quote
   character or a single whitespace character right after one.
   */
  predicate RunFrom(quotechars: string, s: string, k: nat, e: nat)
    requires k <= e <= |s|
  {
    forall i :: k <= i < e ==> s[i] in quotechars || (i > k && IsSpace(s[i]) && s[i - 1] in quotechars)
  }

  lemma MarkRunFrom(quotechars: string, s: string, p: nat)
    requires p <= |s|
    ensures RunFrom(quotechars, s, p, MarkRun(quotechars, s, p))
  {
    forall i | p <= i < MarkRun(quotechars, s, p)
      ensures s[i] in quotechars || (i > p && IsSpace(s[i]) && s[i - 1] in quotechars)
    {
      MarkRunShape(quotechars, s, p, i);
    }
  }

  /** At most two whitespace characters, then a quote character at position `k`. */
  predicate QuoteStartsAt(quotechars: string, s: string, k: nat) {
    k <= 2 && k < |s| && AllSpace(s[..k]) && s[k] in quotechars
  }

  /** No later start than `k` is possible: `\s{0,2}` takes as much whitespace as it can. */
  predicate LatestStart(quotechars: string, s: string, k: nat) {
    forall j :: k < j <= 2 ==> !QuoteStartsAt(quotechars, s, j)
  }

  /**
   `s[..e]` is a match of `^\s{0,2}([Q]\s?)+` whose run starts at `k`, the
   latest start the leading whitespace allows.
   */
  predicate MatchFrom(quotechars: string, s: string, k: nat, e: nat) {
    && k < e <= |s|
    && QuoteStartsAt(quotechars, s, k)
    && LatestStart(quotechars, s, k)
    && RunFrom(quotechars, s, k, e)
  }

  /**
   `qm_match(line)`: the length of the quote prefix `^\s{0,2}([Q]\s?)+`, with
   the regular expression's backtracking order (two leading whitespace
   characters tried first). There is a match exactly when a quote character
   follows at most two whitespace characters; the prefix then holds a quote
   character and is not followed by another, and whitespace after it is
   taken into the prefix unless a whitespace character was taken already.
   */
  function QuoteMatch(quotechars: string, s: string): (r: Option<nat>)
    ensures r.None? <==> !QuoteStartsAt(quotechars, s, 0) && !QuoteStartsAt(quotechars, s, 1) && !QuoteStartsAt(quotechars, s, 2)
    ensures r.Some? ==> 0 < r.value <= |s|
    ensures r.Some? ==> exists k :: 0 <= k < r.value && s[k] in quotechars
    ensures r.Some? && r.value < |s| ==> s[r.value] !in quotechars
    ensures r.Some? && r.value < |s| && IsSpace(s[r.value]) ==>
      r.value >= 2 && s[r.value - 2] in quotechars && IsSpace(s[r.value - 1])
    ensures r.Some? ==> exists k: nat :: MatchFrom(quotechars, s, k, r.value)
  {
    var k := if QuoteStartsAt(quotechars, s, 2) then 2 else if QuoteStartsAt(quotechars, s, 1) then 1 else 0;
    if QuoteStartsAt(quotechars, s, k) then
      MarkRunFrom(quotechars, s, k);
      assert MatchFrom(quotechars, s, k, MarkRun(quotechars, s, k));
      Some(MarkRun(quotechars, s, k))
    else
      None
  }

  /**
   The pattern's `\s?` takes one whitespace character after a quote
   character: in ">  >x" the prefix is "> ", and no match can reach the
   second '>'.
   */
  lemma QuoteMatchStopsAtSecondSpace()
    ensures QuoteMatch(">", ">  >x") == Some(2)
    ensures forall k: nat :: !MatchFrom(">", ">  >x", k, 4)
  {
    var s := ">  >x";
    assert QuoteStartsAt(">", s, 0) && !QuoteStartsAt(">", s, 1) && !QuoteStartsAt(">", s, 2);
    assert MarkRun(">", s, 0) == 2;
    forall k: nat
      ensures !MatchFrom(">", s, k, 4)
    {
      if k == 0 {
        assert !(s[2] in ">" || (IsSpace(s[2]) && s[1] in ">"));
      }
    }
  }

  /** The matched prefix holds nothing but quote characters and whitespace. */
  lemma QuoteMatchShape(quotechars: string, s: string)
    requires QuoteMatch(quotechars, s).Some?
    ensures forall i :: 0 <= i < QuoteMatch(quotechars, s).value ==> s[i] in quotechars || IsSpace(s[i])
  {
    var k := if QuoteStartsAt(quotechars, s, 2) then 2 else if QuoteStartsAt(quotechars, s, 1) then 1 else 0;
    assert QuoteMatch(quotechars, s).value == MarkRun(quotechars, s, k);
    forall i | 0 <= i < QuoteMatch(quotechars, s).value
      ensures s[i] in quotechars || IsSpace(s[i])
    {
      if i < k {
        assert s[..k][i] == s[i];
      } else {
        MarkRunShape(quotechars, s, k, i);
      }
    }
  }

  /** `len(qm_findall(marks))`: how many quote characters `marks` holds. */
  function CountIn(quotechars: string, s: string): nat {
    if |s| == 0 then 0 else (if s[0] in quotechars then 1 else 0) + CountIn(quotechars, s[1..])
  }

  /** Text holding a quote character counts at least one. */
  lemma {:induction false} CountInPositive(quotechars: string, s: string, k: nat)
    requires k < |s| && s[k] in quotechars
    ensures CountIn(quotechars, s) > 0
  {
    if k > 0 {
      CountInPositive(quotechars, s[1..], k - 1);
    }
  }

  lemma {:induction false} CountInNone(quotechars: string, s: string)
    requires forall i :: 0 <= i < |s| ==> s[i] !in quotechars
    ensures CountIn(quotechars, s) == 0
  {
    if |s| > 0 {
      CountInNone(quotechars, s[1..]);
    }
  }

  /** The parser's variables `quotedepth`, `quotemarks` and `para`. */
  datatype ParseState = ParseState(depth: nat, marks: string, para: string)

  const Start: ParseState := ParseState(0, [], [])

  /** A prefix made of quote characters and whitespace only. */
  predicate QuotePrefix(quotechars: string, m: string) {
    forall i :: 0 <= i < |m| ==> m[i] in quotechars || IsSpace(m[i])
  }

  /**
   What the loop keeps between lines: the depth counts the quote characters
   of the marks, no marks means depth 0, and the marks are a quote prefix.
   */
  predicate Consistent(quotechars: string, st: ParseState) {
    && st.depth == CountIn(quotechars, st.marks)
    && (st.marks == [] <==> st.depth == 0)
    && QuotePrefix(quotechars, st.marks)
  }

  /** A change in quoting: a quote prefix other than the current marks, or none while quoted. */
  predicate QuotingChanges(quotechars: string, st: ParseState, line: string) {
    var m := QuoteMatch(quotechars, line);
    var same := st.marks != [] && StartsWith(line, st.marks);
    (m.Some? && !same) || (m.None? && st.depth != 0)
  }

  /** The depth and marks in force for `line`: recomputed from the line when quoting changes. */
  function Quoting(quotechars: string, st: ParseState, line: string): (nat, string) {
    if QuotingChanges(quotechars, st, line) then
      var m := QuoteMatch(quotechars, line);
      var marks := if m.Some? then line[..m.value] else [];
      (CountIn(quotechars, marks), marks)
    else
      (st.depth, st.marks)
  }

  /** `line[len(quotemarks):]`: the line without its quote marks. */
  function Body(quotechars: string, st: ParseState, line: string): string {
    Drop(line, |Quoting(quotechars, st, line).1|)
  }

  /** The paragraph a flush yields: none when nothing is pending. */
  function Flush(depth: nat, para: string): seq<Chunk> {
    if para != [] then [Chunk(Paragraph, depth, para)] else []
  }

  /** A line whose rstrip is "--" is a signature separator. */
  predicate IsSeparator(body: string) {
    RStrip(body) == "--"
  }

  /** A blank or indented line is fixed. */
  predicate IsFixedLine(body: string) {
    body == [] || IsSpace(body[0])
  }

  /**
   The classification half of a turn, once the quoting for the line is known:
   `change` says whether quoting changed, (`depth`, `marks`) is the quoting in
   force and `body` the line without its marks.
   */
  function Classify(st: ParseState, change: bool, depth: nat, marks: string, body: string): (ParseState, seq<Chunk>) {
    var flushed := if change then Flush(st.depth, st.para) else [];
    var para := if change then [] else st.para;
    if IsSeparator(body) then
      (ParseState(depth, marks, []), flushed + Flush(depth, para) + [Chunk(SignatureSeparator, depth, body)])
    else if IsFixedLine(body) then
      (ParseState(depth, marks, []), flushed + Flush(depth, para) + [Chunk(Fixed, depth, body)])
    else
      (ParseState(depth, marks, para + body), flushed)
  }

  /** One turn of the parsing loop: the new state and the chunks yielded for this line. */
  function ParseStep(quotechars: string, st: ParseState, line: string): (ParseState, seq<Chunk>) {
    var (depth, marks) := Quoting(quotechars, st, line);
    Classify(st, QuotingChanges(quotechars, st, line), depth, marks, Body(quotechars, st, line))
  }

  /** The loop over `lines`, with the final flush. */
  function ParseLines(quotechars: string, st: ParseState, lines: seq<string>): seq<Chunk>
    decreases |lines|
  {
    if |lines| == 0 then Flush(st.depth, st.para)
    else
      var step := ParseStep(quotechars, st, lines[0]);
      step.1 + ParseLines(quotechars, step.0, lines[1..])
  }

  /**
   `_parseFlowableChunks(text, quotechars)`. The quote characters must not be
   empty: the source builds the character class `[]` from them, which the
   regular-expression compiler rejects.
   */
  function ParseChunks(quotechars: string, text: string): seq<Chunk>
    requires quotechars != []
  {
    ParseLines(quotechars, Start, SplitLines(text))
  }

  /**
   The quoting in force for a line is consistent again: its depth counts the
   quote characters of its marks, and the marks are a prefix of the line made
   of quote characters and whitespace.
   */
  lemma QuotingSplitsLine(quotechars: string, st: ParseState, line: string)
    requires Consistent(quotechars, st)
    ensures Consistent(quotechars, ParseState(Quoting(quotechars, st, line).0, Quoting(quotechars, st, line).1, []))
    ensures line == Quoting(quotechars, st, line).1 + Body(quotechars, st, line)
  {
    var m := QuoteMatch(quotechars, line);
    if QuotingChanges(quotechars, st, line) {
      if m.Some? {
        var marks := line[..m.value];
        QuoteMatchShape(quotechars, line);
        var k :| 0 <= k < m.value && line[k] in quotechars;
        CountInPositive(quotechars, marks, k);
        assert forall i :: 0 <= i < |marks| ==> marks[i] == line[i];
      }
    } else if m.None? {
      assert st.marks == [];
    }
  }

  /** A parsed paragraph is non-empty and starts with a non-whitespace character. */
  predicate ParaOk(para: string) {
    para == [] || !IsSpace(para[0])
  }

  /**
   The classification the parser promises: paragraphs are non-empty and do
   not start with whitespace, fixed chunks are blank or indented, separators
   are "--" up to trailing whitespace.
   */
  predicate WellParsed(cs: seq<Chunk>) {
    forall i :: 0 <= i < |cs| ==>
      && (cs[i].kind == Paragraph ==> cs[i].text != [] && !IsSpace(cs[i].text[0]))
      && (cs[i].kind == Fixed ==> IsFixedLine(cs[i].text))
      && (cs[i].kind == SignatureSeparator ==> IsSeparator(cs[i].text))
  }

  lemma WellParsedAppend(a: seq<Chunk>, b: seq<Chunk>)
    requires WellParsed(a) && WellParsed(b)
    ensures WellParsed(a + b)
  {
    assert forall i :: 0 <= i < |a + b| ==> (a + b)[i] == if i < |a| then a[i] else b[i - |a|];
  }

  lemma FlushWellParsed(depth: nat, para: string)
    requires ParaOk(para)
    ensures WellParsed(Flush(depth, para))
  {
  }

  /** The chunks yielded when a line closes the paragraph: the flushes, then the line's own chunk. */
  lemma ClosingWellParsed(flushed: seq<Chunk>, depth: nat, para: string, c: Chunk)
    requires WellParsed(flushed) && ParaOk(para) && WellParsed([c])
    ensures WellParsed(flushed + Flush(depth, para) + [c])
  {
    FlushWellParsed(depth, para);
    WellParsedAppend(flushed, Flush(depth, para));
    WellParsedAppend(flushed + Flush(depth, para), [c]);
  }

  lemma ClassifyWellParsed(st: ParseState, change: bool, depth: nat, marks: string, body: string)
    requires ParaOk(st.para)
    ensures WellParsed(Classify(st, change, depth, marks, body).1)
    ensures ParaOk(Classify(st, change, depth, marks, body).0.para)
  {
    var flushed := if change then Flush(st.depth, st.para) else [];
    var para := if change then [] else st.para;
    FlushWellParsed(st.depth, st.para);
    assert WellParsed(flushed);
    if IsSeparator(body) {
      ClosingWellParsed(flushed, depth, para, Chunk(SignatureSeparator, depth, body));
    } else if IsFixedLine(body) {
      ClosingWellParsed(flushed, depth, para, Chunk(Fixed, depth, body));
    } else if para != [] {
      assert (para + body)[0] == para[0];
    } else {
      assert para + body == body;
    }
  }

  lemma StepWellParsed(quotechars: string, st: ParseState, line: string)
    requires ParaOk(st.para)
    ensures WellParsed(ParseStep(quotechars, st, line).1)
    ensures ParaOk(ParseStep(quotechars, st, line).0.para)
  {
    var (depth, marks) := Quoting(quotechars, st, line);
    ClassifyWellParsed(st, QuotingChanges(quotechars, st, line), depth, marks, Body(quotechars, st, line));
  }

  lemma {:induction false} ParseLinesWellParsed(quotechars: string, st: ParseState, lines: seq<string>)
    requires ParaOk(st.para)
    decreases |lines|
    ensures WellParsed(ParseLines(quotechars, st, lines))
  {
    if |lines| > 0 {
      var step := ParseStep(quotechars, st, lines[0]);
      StepWellParsed(quotechars, st, lines[0]);
      ParseLinesWellParsed(quotechars, step.0, lines[1..]);
      WellParsedAppend(step.1, ParseLines(quotechars, step.0, lines[1..]));
    }
  }

  /** Every chunk of the parse is classified as promised. */
  lemma ParseChunksWellParsed(quotechars: string, text: string)
    requires quotechars != []
    ensures WellParsed(ParseChunks(quotechars, text))
  {
    ParseLinesWellParsed(quotechars, Start, SplitLines(text));
  }

  /** The bodies of `lines`, each without the quote marks in force for it. */
  function Bodies(quotechars: string, st: ParseState, lines: seq<string>): seq<string>
    decreases |lines|
  {
    if |lines| == 0 then []
    else [Body(quotechars, st, lines[0])] + Bodies(quotechars, ParseStep(quotechars, st, lines[0]).0, lines[1..])
  }

  lemma FlushText(depth: nat, para: string)
    ensures AllText(Flush(depth, para)) == para
  {
    if para != [] {
      AllTextOne(Chunk(Paragraph, depth, para));
    }
  }

  lemma ClosingText(flushed: seq<Chunk>, depth: nat, para: string, c: Chunk)
    ensures AllText(flushed + Flush(depth, para) + [c]) == AllText(flushed) + para + c.text
  {
    AllTextAppend(flushed + Flush(depth, para), [c]);
    AllTextAppend(flushed, Flush(depth, para));
    FlushText(depth, para);
    AllTextOne(c);
  }

  lemma ClassifyKeepsText(st: ParseState, change: bool, depth: nat, marks: string, body: string)
    ensures AllText(Classify(st, change, depth, marks, body).1) + Classify(st, change, depth, marks, body).0.para
         == st.para + body
  {
    var flushed := if change then Flush(st.depth, st.para) else [];
    var para := if change then [] else st.para;
    FlushText(st.depth, st.para);
    assert AllText(flushed) + para == st.para;
    if IsSeparator(body) {
      ClosingText(flushed, depth, para, Chunk(SignatureSeparator, depth, body));
    } else if IsFixedLine(body) {
      ClosingText(flushed, depth, para, Chunk(Fixed, depth, body));
    } else {
      AppendAssoc(AllText(flushed), para, body);
    }
  }

  /**
   No text is lost or invented by one step: what is yielded, followed by the
   new pending paragraph, is the old pending paragraph followed by the body.
   */
  lemma StepKeepsText(quotechars: string, st: ParseState, line: string)
    ensures AllText(ParseStep(quotechars, st, line).1) + ParseStep(quotechars, st, line).0.para
         == st.para + Body(quotechars, st, line)
  {
    var (depth, marks) := Quoting(quotechars, st, line);
    ClassifyKeepsText(st, QuotingChanges(quotechars, st, line), depth, marks, Body(quotechars, st, line));
  }

  /** The parse keeps every body: the chunk texts, concatenated, are the pending text and then the bodies. */
  lemma {:induction false} ParseLinesKeepsText(quotechars: string, st: ParseState, lines: seq<string>)
    decreases |lines|
    ensures AllText(ParseLines(quotechars, st, lines)) == st.para + Flatten(Bodies(quotechars, st, lines))
  {
    if |lines| == 0 {
      FlushText(st.depth, st.para);
    } else {
      var step := ParseStep(quotechars, st, lines[0]);
      var rest := ParseLines(quotechars, step.0, lines[1..]);
      ParseLinesKeepsText(quotechars, step.0, lines[1..]);
      StepKeepsText(quotechars, st, lines[0]);
      AllTextAppend(step.1, rest);
      var body := Body(quotechars, st, lines[0]);
      var more := Flatten(Bodies(quotechars, step.0, lines[1..]));
      assert Flatten(Bodies(quotechars, st, lines)) == body + more;
      AppendAssoc(AllText(step.1), step.0.para, more);
      AppendAssoc(st.para, body, more);
    }
  }

  /**
   Each body is its line with a quote prefix (quote characters and
   whitespace) removed from the front. The prefix is empty exactly when the
   line has no quote prefix of its own.
   */
  predicate Unquoted(quotechars: string, line: string, body: string) {
    && |body| <= |line|
    && line == line[..|line| - |body|] + body
    && QuotePrefix(quotechars, line[..|line| - |body|])
    && (QuoteMatch(quotechars, line).None? ==> body == line)
    && (QuoteMatch(quotechars, line).Some? ==> |body| < |line|)
  }

  lemma StepConsistent(quotechars: string, st: ParseState, line: string)
    requires Consistent(quotechars, st)
    ensures Consistent(quotechars, ParseStep(quotechars, st, line).0)
    ensures Unquoted(quotechars, line, Body(quotechars, st, line))
  {
    QuotingSplitsLine(quotechars, st, line);
    var (depth, marks) := Quoting(quotechars, st, line);
    assert ParseStep(quotechars, st, line).0.depth == depth && ParseStep(quotechars, st, line).0.marks == marks;
    assert line[..|line| - |Body(quotechars, st, line)|] == marks;
  }

  lemma {:induction false} BodiesUnquoted(quotechars: string, st: ParseState, lines: seq<string>)
    requires Consistent(quotechars, st)
    decreases |lines|
    ensures |Bodies(quotechars, st, lines)| == |lines|
    ensures forall i :: 0 <= i < |lines| ==> Unquoted(quotechars, lines[i], Bodies(quotechars, st, lines)[i])
  {
    if |lines| > 0 {
      var next := ParseStep(quotechars, st, lines[0]).0;
      StepConsistent(quotechars, st, lines[0]);
      BodiesUnquoted(quotechars, next, lines[1..]);
      var bs := Bodies(quotechars, st, lines);
      var tail := Bodies(quotechars, next, lines[1..]);
      assert bs == [Body(quotechars, st, lines[0])] + tail;
      forall i | 0 <= i < |lines|
        ensures Unquoted(quotechars, lines[i], bs[i])
      {
        if i > 0 {
          assert lines[i] == lines[1..][i - 1] && bs[i] == tail[i - 1];
        }
      }
    }
  }

  /**
   The parser loses no text but quote marks: the chunk texts, concatenated,
   are the lines of the input, each with a prefix of quote characters and
   whitespace removed.
   */
  lemma ParseChunksKeepsText(quotechars: string, text: string)
    requires quotechars != []
    ensures AllText(ParseChunks(quotechars, text)) == Flatten(Bodies(quotechars, Start, SplitLines(text)))
    ensures |Bodies(quotechars, Start, SplitLines(text))| == |SplitLines(text)|
    ensures forall i :: 0 <= i < |SplitLines(text)| ==>
      Unquoted(quotechars, SplitLines(text)[i], Bodies(quotechars, Start, SplitLines(text))[i])
  {
    ParseLinesKeepsText(quotechars, Start, SplitLines(text));
    assert Start.para + Flatten(Bodies(quotechars, Start, SplitLines(text))) == Flatten(Bodies(quotechars, Start, SplitLines(text)));
    BodiesUnquoted(quotechars, Start, SplitLines(text));
  }

  /**
   A change of quoting first yields the pending paragraph, if there is one,
   at the old depth, and yields no paragraph when none was pending; whether or not one was pending, the new marks are the
   matched prefix of the line (none when it has no quote prefix) and the new
   depth counts their quote characters.
   */
  lemma QuoteChangeFlushes(quotechars: string, st: ParseState, line: string)
    requires QuotingChanges(quotechars, st, line)
    ensures var step := ParseStep(quotechars, st, line);
      && (st.para != [] ==> |step.1| > 0 && step.1[0] == Chunk(Paragraph, st.depth, st.para))
      && (st.para == [] ==> forall i :: 0 <= i < |step.1| ==> step.1[i].kind != Paragraph)
      && step.0.marks == (if QuoteMatch(quotechars, line).Some? then line[..QuoteMatch(quotechars, line).value] else [])
      && step.0.depth == CountIn(quotechars, step.0.marks)
  {
    var (depth, marks) := Quoting(quotechars, st, line);
    assert ParseStep(quotechars, st, line) == Classify(st, true, depth, marks, Body(quotechars, st, line));
    ClassifyAfterChange(st, depth, marks, Body(quotechars, st, line));
  }

  /** The classification half after a change of quoting: the pending paragraph, if any, comes first. */
  lemma ClassifyAfterChange(st: ParseState, depth: nat, marks: string, body: string)
    ensures var step := Classify(st, true, depth, marks, body);
      && step.0.depth == depth && step.0.marks == marks
      && (st.para != [] ==> |step.1| > 0 && step.1[0] == Chunk(Paragraph, st.depth, st.para))
      && (st.para == [] ==> forall i :: 0 <= i < |step.1| ==> step.1[i].kind != Paragraph)
  {
    var step := Classify(st, true, depth, marks, body);
    if st.para == [] {
      assert Flush(st.depth, st.para) == [] && Flush(depth, []) == [];
      assert step.1 == [] || step.1 == [Chunk(SignatureSeparator, depth, body)] || step.1 == [Chunk(Fixed, depth, body)];
    }
  }

  /**
   How a line is classified, once its marks are removed: a separator or a
   blank or indented line closes the paragraph and is yielded on its own, at
   the depth in force; any other line only extends the paragraph.
   */
  lemma LineClassified(quotechars: string, st: ParseState, line: string)
    ensures var step := ParseStep(quotechars, st, line);
      var body := Body(quotechars, st, line);
      var pending := if QuotingChanges(quotechars, st, line) then [] else st.para;
      && (IsSeparator(body) ==>
            step.0.para == [] && step.1[|step.1| - 1] == Chunk(SignatureSeparator, step.0.depth, body))
      && (!IsSeparator(body) && IsFixedLine(body) ==>
            step.0.para == [] && step.1[|step.1| - 1] == Chunk(Fixed, step.0.depth, body))
      && (!IsSeparator(body) && !IsFixedLine(body) ==>
            step.0.para == pending + body && |step.1| <= 1)
  {
  }

  /** A line that keeps the quoting `marks` and is neither a separator nor blank nor indented. */
  predicate ParagraphLineAt(quotechars: string, depth: nat, marks: string, line: string) {
    var st := ParseState(depth, marks, []);
    !QuotingChanges(quotechars, st, line) && !IsSeparator(Drop(line, |marks|)) && !IsFixedLine(Drop(line, |marks|))
  }

  /** The lines of a run without the marks, concatenated. */
  function Unmarked(marks: string, run: seq<string>): string {
    if |run| == 0 then [] else Drop(run[0], |marks|) + Unmarked(marks, run[1..])
  }

  lemma ParagraphLineExtends(quotechars: string, depth: nat, marks: string, para: string, line: string)
    requires ParagraphLineAt(quotechars, depth, marks, line)
    ensures ParseStep(quotechars, ParseState(depth, marks, para), line)
         == (ParseState(depth, marks, para + Drop(line, |marks|)), [])
  {
    var st := ParseState(depth, marks, para);
    assert !QuotingChanges(quotechars, st, line);
    assert Body(quotechars, st, line) == Drop(line, |marks|);
  }

  /** Consecutive paragraph lines under the same quoting are concatenated without a separator. */
  lemma {:induction false} ParagraphLinesJoin(quotechars: string, depth: nat, marks: string, para: string, run: seq<string>, rest: seq<string>)
    requires forall i :: 0 <= i < |run| ==> ParagraphLineAt(quotechars, depth, marks, run[i])
    decreases |run|
    ensures ParseLines(quotechars, ParseState(depth, marks, para), run + rest)
         == ParseLines(quotechars, ParseState(depth, marks, para + Unmarked(marks, run)), rest)
  {
    if |run| == 0 {
      assert run + rest == rest;
      assert para + Unmarked(marks, run) == para;
    } else {
      var para' := para + Drop(run[0], |marks|);
      ParagraphLineExtends(quotechars, depth, marks, para, run[0]);
      assert (run + rest)[0] == run[0] && (run + rest)[1..] == run[1..] + rest;
      ParagraphLinesJoin(quotechars, depth, marks, para', run[1..], rest);
      AppendAssoc(para, Drop(run[0], |marks|), Unmarked(marks, run[1..]));
    }
  }

  /** A paragraph still pending at the end of the input is yielded, holding all its lines. */
  lemma ParagraphAtEnd(quotechars: string, depth: nat, marks: string, run: seq<string>)
    requires forall i :: 0 <= i < |run| ==> ParagraphLineAt(quotechars, depth, marks, run[i])
    requires |run| > 0
    ensures ParseLines(quotechars, ParseState(depth, marks, []), run)
         == [Chunk(Paragraph, depth, Unmarked(marks, run))]
  {
    ParagraphLinesJoin(quotechars, depth, marks, [], run, []);
    assert run + [] == run;
    var text := Unmarked(marks, run);
    assert ParagraphLineAt(quotechars, depth, marks, run[0]);
    assert |text| >= |Drop(run[0], |marks|)| > 0;
    assert [] + text == text;
    assert ParseLines(quotechars, ParseState(depth, marks, text), []) == Flush(depth, text);
  }
}
