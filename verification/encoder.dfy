/**
 The format=flowed encoder (FormatFlowedEncoder, without extra spaces): each
 chunk is normalised, paragraphs are wrapped and get the flow space on every
 line but the last, lines are space-stuffed and quoted, and no physical line
 exceeds the 998-character limit of RFC 2822, section 2.1.1.
 */
module Encoder {
  import opened Text
  import opened Chunks
  import opened Crlf
  import opened Wrapper

  /** RFC 2822, section 2.1.1: at most 998 characters before the CRLF. */
  const MaxLineLength: nat := 998

  /** The encoder's settings that the model covers: `spacestuff_quoted` and `width`. */
  datatype Config = Config(spacestuffQuoted: bool, width: int)

  const DefaultConfig: Config := Config(true, 78)

  /** `' '.join(chunk.rstrip().splitlines())`: line breaks become single spaces, trailing whitespace goes. */
  function Normalize(chunk: string): string {
    JoinWith(" ", SplitLines(RStrip(chunk)))
  }

  lemma BreakIsSpace(c: char)
    requires IsLineBreak(c)
    ensures IsSpace(c)
  {
  }

  lemma {:induction false} JoinSpacesNoBreaks(ls: seq<string>)
    requires forall i :: 0 <= i < |ls| ==> NoBreaks(ls[i])
    ensures NoBreaks(JoinWith(" ", ls))
  {
    if |ls| > 1 {
      JoinSpacesNoBreaks(ls[1..]);
      assert JoinWith(" ", ls) == ls[0] + " " + JoinWith(" ", ls[1..]);
    }
  }

  lemma {:induction false} JoinSpacesLastChar(ls: seq<string>)
    requires |ls| > 0 && |ls[|ls| - 1]| > 0
    ensures var j := JoinWith(" ", ls);
      |j| > 0 && j[|j| - 1] == ls[|ls| - 1][|ls[|ls| - 1]| - 1]
  {
    if |ls| > 1 {
      JoinSpacesLastChar(ls[1..]);
      assert JoinWith(" ", ls) == (ls[0] + " ") + JoinWith(" ", ls[1..]);
    }
  }

  /**
   The normalised text has no line breaks and no trailing whitespace, keeps
   every non-whitespace character of the chunk in order, and is empty exactly
   when the chunk is all whitespace.
   */
  lemma NormalizeShape(chunk: string)
    ensures NoBreaks(Normalize(chunk))
    ensures Normalize(chunk) == [] || !IsSpace(Normalize(chunk)[|Normalize(chunk)| - 1])
    ensures NonSpace(Normalize(chunk)) == NonSpace(chunk)
    ensures Normalize(chunk) == [] <==> NonSpace(chunk) == []
  {
    var t := RStrip(chunk);
    var ls := SplitLines(t);
    SplitLinesShape(t);
    JoinSpacesNoBreaks(ls);
    NonSpaceJoinSpaces(ls);
    SplitLinesDropsOnlyBreaks(t);
    NonSpaceDropBreaks(t);
    NonSpaceRStrip(chunk);
    if |t| > 0 {
      if IsLineBreak(t[|t| - 1]) {
        BreakIsSpace(t[|t| - 1]);
      }
      SplitLinesKeepsLastChar(t);
      JoinSpacesLastChar(ls);
      NonSpaceLastChar(Normalize(chunk));
    }
  }

  /**
   Normalising is the same as removing trailing whitespace and then turning
   every line boundary into one space.
   */
  lemma NormalizeBreaksToSpaces(chunk: string)
    ensures Normalize(chunk) == BreaksToSpaces(RStrip(chunk))
  {
    var t := RStrip(chunk);
    if |t| > 0 && IsLineBreak(t[|t| - 1]) {
      BreakIsSpace(t[|t| - 1]);
    }
    JoinSplitLines(t);
  }

  /** Text that is already normal is left alone; in particular normalising twice changes nothing. */
  lemma NormalizeFixpoint(s: string)
    requires NoBreaks(s) && (s == [] || !IsSpace(s[|s| - 1]))
    ensures Normalize(s) == s
  {
    assert RStrip(s) == s;
    if |s| > 0 {
      SplitLinesSingle(s);
    }
  }

  lemma NormalizeIdempotent(chunk: string)
    ensures Normalize(Normalize(chunk)) == Normalize(chunk)
  {
    NormalizeShape(chunk);
    NormalizeFixpoint(Normalize(chunk));
  }

  /**
   `_spacestuff`: prefix a space to a line starting with ' ', '>' or "From",
   or to any non-empty line when forced. A stuffed line starts neither with a
   quote mark nor with "From", so a reader cannot mistake it for quoting.
   */
  function Spacestuff(line: string, force: bool): (r: string)
    ensures r == [] <==> line == []
    ensures r == line || r == [' '] + line
    ensures r == [] || r[0] != '>'
    ensures !StartsWith(r, "From")
    ensures line != [] && force ==> r == [' '] + line
    ensures line != [] && (force || line[0] == ' ' || line[0] == '>' || StartsWith(line, "From")) ==> r == [' '] + line
    ensures line != [] && line[0] != ' ' && line[0] != '>' && !StartsWith(line, "From") && !force ==> r == line
  {
    if line == [] then line
    else if force || line[0] == ' ' || line[0] == '>' || StartsWith(line, "From") then [' '] + line
    else line
  }

  /** The pieces of at most 998 characters a physical line is chopped into. */
  function Segments(line: string): seq<string>
    decreases |line|
  {
    if |line| > MaxLineLength then [line[..MaxLineLength]] + Segments(line[MaxLineLength..]) else [line]
  }

  /**
   The pieces give back the line, none is longer than 998, all but the last
   are exactly 998 long, and the last is empty only when the line is.
   */
  lemma {:induction false} SegmentsShape(line: string)
    decreases |line|
    ensures |Segments(line)| > 0
    ensures Flatten(Segments(line)) == line
    ensures forall i :: 0 <= i < |Segments(line)| ==> |Segments(line)[i]| <= MaxLineLength
    ensures forall i :: 0 <= i < |Segments(line)| - 1 ==> |Segments(line)[i]| == MaxLineLength
    ensures |Segments(line)[|Segments(line)| - 1]| == 0 ==> line == []
    ensures NoBreaks(line) ==> forall i :: 0 <= i < |Segments(line)| ==> NoBreaks(Segments(line)[i])
  {
    if |line| > MaxLineLength {
      var head, rest := line[..MaxLineLength], line[MaxLineLength..];
      SegmentsShape(rest);
      var r := Segments(line);
      assert r == [head] + Segments(rest);
      assert Flatten(r) == line by {
        assert Flatten(r) == head + Flatten(Segments(rest));
        assert line == head + rest;
      }
      assert forall i :: 1 <= i < |r| ==> r[i] == Segments(rest)[i - 1];
      assert NoBreaks(line) ==> NoBreaks(head) && NoBreaks(rest) by {
        assert forall j :: 0 <= j < |head| ==> head[j] == line[j];
        assert forall j :: 0 <= j < |rest| ==> rest[j] == line[MaxLineLength + j];
      }
    } else {
      FlattenOneString(line);
    }
  }

  lemma FlattenOneString(s: string)
    ensures Flatten([s]) == s
  {
    assert Flatten([s]) == s + Flatten([s][1..]);
  }

  /** The chopping loop of `encodeChunk`, as written there; it yields exactly the segments. */
  method ChopLine(line: string) returns (pieces: seq<string>)
    ensures pieces == Segments(line)
    ensures forall i :: 0 <= i < |pieces| ==> |pieces[i]| <= MaxLineLength
  {
    pieces := [];
    var rest := line;
    while |rest| > MaxLineLength
      invariant pieces + Segments(rest) == Segments(line)
      decreases |rest|
    {
      pieces := pieces + [rest[..MaxLineLength]];
      rest := rest[MaxLineLength..];
    }
    pieces := pieces + [rest];
    SegmentsShape(line);
  }

  /** A wrapped line gets the flow space unless it equals the last line; the test compares values, not positions. */
  function FlowLine(line: string, last: string): string {
    if line != last then line + " " else line
  }

  /** Flow space, stuffing and quote marks for each wrapped line, then the 998-character chopping. */
  function QuotedLines(ws: seq<string>, last: string, marker: string, force: bool): seq<string> {
    if |ws| == 0 then []
    else Segments(marker + Spacestuff(FlowLine(ws[0], last), force)) + QuotedLines(ws[1..], last, marker, force)
  }

  function ForceStuffing(cfg: Config, depth: nat): bool {
    cfg.spacestuffQuoted && depth > 0
  }

  /** The width left for paragraph text once quote marks, stuffing and the flow space are set aside. */
  function ParagraphWidth(cfg: Config, depth: nat): int {
    cfg.width - depth - 2
  }

  /** The text a chunk is encoded from: "-- " for a separator, whatever it held. */
  function ChunkText(c: Chunk): string {
    if c.kind == SignatureSeparator then SignatureLine else Normalize(c.text)
  }

  /** The lines before chopping: the wrapped paragraph, or the single line of any other chunk. */
  function LogicalLines(cfg: Config, c: Chunk): Result<seq<string>> {
    if c.kind == Paragraph then
      var w := ParagraphWidth(cfg, c.depth);
      if w <= 0 then Err(NotEnoughWidth) else Ok(Wrap(ChunkText(c), w))
    else
      Ok([ChunkText(c)])
  }

  /** The physical lines of one chunk, without their CRLFs. */
  function EncodeLines(cfg: Config, c: Chunk): Result<seq<string>> {
    match LogicalLines(cfg, c)
    case Err(e) => Err(e)
    case Ok(ws) =>
      if |ws| == 0 then Ok([])
      else Ok(QuotedLines(ws, ws[|ws| - 1], Repeat('>', c.depth), ForceStuffing(cfg, c.depth)))
  }

  /** `encodeChunk`: the physical lines, each followed by CRLF. */
  function EncodeChunk(cfg: Config, c: Chunk): Result<string> {
    match EncodeLines(cfg, c)
    case Err(e) => Err(e)
    case Ok(lines) => Ok(Terminate(lines))
  }

  /** `encode`: the chunks' encodings, concatenated; the first failing chunk fails the whole. */
  function Encode(cfg: Config, cs: seq<Chunk>): Result<string> {
    if |cs| == 0 then Ok([])
    else
      match EncodeChunk(cfg, cs[0])
      case Err(e) => Err(e)
      case Ok(first) =>
        match Encode(cfg, cs[1..])
        case Err(e) => Err(e)
        case Ok(rest) => Ok(first + rest)
  }

  /** Every physical line of the encoded chunks, in order. */
  function EncodeAllLines(cfg: Config, cs: seq<Chunk>): Result<seq<string>> {
    if |cs| == 0 then Ok([])
    else
      match EncodeLines(cfg, cs[0])
      case Err(e) => Err(e)
      case Ok(first) =>
        match EncodeAllLines(cfg, cs[1..])
        case Err(e) => Err(e)
        case Ok(rest) => Ok(first + rest)
  }

  /** Encoding fails exactly when some paragraph is quoted so deeply that no width is left for its text. */
  lemma {:induction false} EncodeFails(cfg: Config, cs: seq<Chunk>)
    ensures Encode(cfg, cs).Err? <==>
      exists i :: 0 <= i < |cs| && cs[i].kind == Paragraph && ParagraphWidth(cfg, cs[i].depth) <= 0
  {
    if |cs| > 0 {
      EncodeFails(cfg, cs[1..]);
      if Encode(cfg, cs[1..]).Err? {
        var i :| 0 <= i < |cs[1..]| && cs[1..][i].kind == Paragraph && ParagraphWidth(cfg, cs[1..][i].depth) <= 0;
        assert cs[i + 1] == cs[1..][i];
      }
      if exists i :: 0 <= i < |cs| && cs[i].kind == Paragraph && ParagraphWidth(cfg, cs[i].depth) <= 0 {
        var i :| 0 <= i < |cs| && cs[i].kind == Paragraph && ParagraphWidth(cfg, cs[i].depth) <= 0;
        if i > 0 {
          assert cs[1..][i - 1] == cs[i];
        }
      }
    }
  }

  /** The encoded text is the physical lines, each followed by its CRLF. */
  lemma {:induction false} EncodeIsTerminated(cfg: Config, cs: seq<Chunk>)
    ensures Encode(cfg, cs).Ok? <==> EncodeAllLines(cfg, cs).Ok?
    ensures Encode(cfg, cs).Ok? ==> Encode(cfg, cs).value == Terminate(EncodeAllLines(cfg, cs).value)
  {
    if |cs| > 0 {
      EncodeIsTerminated(cfg, cs[1..]);
      if EncodeLines(cfg, cs[0]).Ok? && EncodeAllLines(cfg, cs[1..]).Ok? {
        TerminateAppend(EncodeLines(cfg, cs[0]).value, EncodeAllLines(cfg, cs[1..]).value);
      }
    }
  }

  /** Every character of a wrapped line comes from the text, so a text without line breaks wraps into lines without them. */
  lemma WrappedNoBreaks(text: string, width: nat)
    requires width > 0 && NoBreaks(text)
    ensures forall i :: 0 <= i < |Wrap(text, width)| ==> NoBreaks(Wrap(text, width)[i])
  {
    var r := Wrap(text, width);
    WrapKeepsText(text, width);
    forall i, j | 0 <= i < |r| && 0 <= j < |r[i]|
      ensures !IsLineBreak(r[i][j])
    {
      FlattenMultiset(r, i);
      assert r[i][j] in multiset(r[i]);
      assert r[i][j] in multiset(text);
    }
  }

  lemma {:induction false} FlattenMultiset(ls: seq<string>, i: nat)
    requires i < |ls|
    ensures multiset(ls[i]) <= multiset(Flatten(ls))
  {
    if i > 0 {
      FlattenMultiset(ls[1..], i - 1);
    }
  }

  /** Physical lines: no line break inside, at most 998 characters each. */
  predicate LinesFit(ls: seq<string>) {
    forall i :: 0 <= i < |ls| ==> NoBreaks(ls[i]) && |ls[i]| <= MaxLineLength
  }

  lemma LinesFitAppend(a: seq<string>, b: seq<string>)
    requires LinesFit(a) && LinesFit(b)
    ensures LinesFit(a + b)
  {
    forall i | 0 <= i < |a + b|
      ensures NoBreaks((a + b)[i]) && |(a + b)[i]| <= MaxLineLength
    {
      if i >= |a| {
        assert (a + b)[i] == b[i - |a|];
      }
    }
  }

  /** Quote marks, flow spaces and stuffing add no line breaks. */
  lemma {:induction false} QuotedLinesNoBreaks(ws: seq<string>, last: string, depth: nat, force: bool)
    requires forall i :: 0 <= i < |ws| ==> NoBreaks(ws[i])
    ensures LinesFit(QuotedLines(ws, last, Repeat('>', depth), force))
  {
    if |ws| > 0 {
      var flowed := FlowLine(ws[0], last);
      NoBreaksAppend(ws[0], " ");
      NoBreaksAppend(" ", flowed);
      var line := Repeat('>', depth) + Spacestuff(flowed, force);
      NoBreaksAppend(Repeat('>', depth), Spacestuff(flowed, force));
      SegmentsShape(line);
      QuotedLinesNoBreaks(ws[1..], last, depth, force);
      LinesFitAppend(Segments(line), QuotedLines(ws[1..], last, Repeat('>', depth), force));
    }
  }

  /** The physical lines of a chunk hold no line break and respect the 998-character limit. */
  lemma EncodeLinesFit(cfg: Config, c: Chunk)
    requires EncodeLines(cfg, c).Ok?
    ensures LinesFit(EncodeLines(cfg, c).value)
  {
    var ws := LogicalLines(cfg, c).value;
    LogicalLinesNoBreaks(cfg, c);
    if |ws| > 0 {
      assert EncodeLines(cfg, c).value == QuotedLines(ws, ws[|ws| - 1], Repeat('>', c.depth), ForceStuffing(cfg, c.depth));
      QuotedLinesNoBreaks(ws, ws[|ws| - 1], c.depth, ForceStuffing(cfg, c.depth));
    }
  }

  /** The lines of a chunk before chopping hold no line break. */
  lemma LogicalLinesNoBreaks(cfg: Config, c: Chunk)
    requires LogicalLines(cfg, c).Ok?
    ensures forall i :: 0 <= i < |LogicalLines(cfg, c).value| ==> NoBreaks(LogicalLines(cfg, c).value[i])
  {
    NormalizeShape(c.text);
    if c.kind == Paragraph {
      WrappedNoBreaks(ChunkText(c), ParagraphWidth(cfg, c.depth));
    }
  }

  lemma {:induction false} EncodeAllLinesFit(cfg: Config, cs: seq<Chunk>)
    requires EncodeAllLines(cfg, cs).Ok?
    ensures LinesFit(EncodeAllLines(cfg, cs).value)
  {
    if |cs| > 0 {
      var first := EncodeLines(cfg, cs[0]).value;
      var rest := EncodeAllLines(cfg, cs[1..]).value;
      assert EncodeAllLines(cfg, cs).value == first + rest;
      EncodeLinesFit(cfg, cs[0]);
      EncodeAllLinesFit(cfg, cs[1..]);
      LinesFitAppend(first, rest);
    }
  }

  lemma NoBreaksNoCrlf(s: string)
    requires NoBreaks(s)
    ensures NoCrlf(s)
  {
  }

  /**
   The hard limit: splitting the encoded text on CRLF gives its physical
   lines, none longer than 998 characters, and a final empty piece because
   every line, the last included, ends in CRLF.
   */
  lemma HardLineLimit(cfg: Config, cs: seq<Chunk>)
    requires Encode(cfg, cs).Ok?
    ensures var pieces := Split(Encode(cfg, cs).value);
      pieces[|pieces| - 1] == [] && forall i :: 0 <= i < |pieces| ==> |pieces[i]| <= MaxLineLength
  {
    EncodeIsTerminated(cfg, cs);
    var lines := EncodeAllLines(cfg, cs).value;
    EncodeAllLinesFit(cfg, cs);
    forall i | 0 <= i < |lines|
      ensures NoCrlf(lines[i])
    {
      NoBreaksNoCrlf(lines[i]);
    }
    SplitTerminate(lines);
  }

  /** The physical lines of a chunk whose lines all fit: one per wrapped line, never chopped. */
  function PhysicalLines(ws: seq<string>, last: string, marker: string, force: bool): (r: seq<string>)
    ensures |r| == |ws|
    ensures forall i :: 0 <= i < |ws| ==> r[i] == marker + Spacestuff(FlowLine(ws[i], last), force)
  {
    if |ws| == 0 then []
    else [marker + Spacestuff(FlowLine(ws[0], last), force)] + PhysicalLines(ws[1..], last, marker, force)
  }

  /** Lines within the 998-character limit are not chopped. */
  lemma {:induction false} QuotedLinesFit(ws: seq<string>, last: string, marker: string, force: bool)
    requires forall i :: 0 <= i < |ws| ==> |marker + Spacestuff(FlowLine(ws[i], last), force)| <= MaxLineLength
    ensures QuotedLines(ws, last, marker, force) == PhysicalLines(ws, last, marker, force)
  {
    if |ws| > 0 {
      var line := marker + Spacestuff(FlowLine(ws[0], last), force);
      assert Segments(line) == [line];
      QuotedLinesFit(ws[1..], last, marker, force);
    }
  }

  /**
   A paragraph whose wrapped lines fit gives one physical line per wrapped
   line: quote marks, then the line stuffed, with the flow space on every
   line that differs from the last one.
   */
  lemma ParagraphFlowSpace(cfg: Config, depth: nat, text: string)
    requires ParagraphWidth(cfg, depth) > 0
    requires var ws := Wrap(Normalize(text), ParagraphWidth(cfg, depth));
      forall i :: 0 <= i < |ws| ==> depth + |ws[i]| + 2 <= MaxLineLength
    ensures var ws := Wrap(Normalize(text), ParagraphWidth(cfg, depth));
      var lines := EncodeLines(cfg, Chunk(Paragraph, depth, text));
      && lines.Ok? && |lines.value| == |ws|
      && forall i :: 0 <= i < |ws| ==>
        lines.value[i] == Repeat('>', depth)
          + Spacestuff(if ws[i] != ws[|ws| - 1] then ws[i] + " " else ws[i], ForceStuffing(cfg, depth))
  {
    var ws := Wrap(Normalize(text), ParagraphWidth(cfg, depth));
    if |ws| > 0 {
      QuotedLinesFit(ws, ws[|ws| - 1], Repeat('>', depth), ForceStuffing(cfg, depth));
    }
  }

  /** A single line that fits is quoted as one physical line, without the flow space. */
  lemma QuotedOne(line: string, marker: string, force: bool)
    requires |marker| + 1 + |line| <= MaxLineLength
    ensures QuotedLines([line], line, marker, force) == [marker + Spacestuff(line, force)]
  {
    var l := marker + Spacestuff(line, force);
    assert Segments(l) == [l];
    assert [line][1..] == [];
  }

  lemma TerminateOne(line: string)
    ensures Terminate([line]) == line + CRLF
  {
    assert Terminate([line]) == line + CRLF + Terminate([]);
  }

  /** A separator chunk ignores its text: it is written as quote marks, the forced stuffing space if any, and "-- ". */
  lemma SeparatorIgnoresText(cfg: Config, depth: nat, text: string)
    requires depth + 4 <= MaxLineLength
    ensures EncodeChunk(cfg, Chunk(SignatureSeparator, depth, text))
         == Ok(Repeat('>', depth) + (if ForceStuffing(cfg, depth) then " " else "") + SignatureLine + CRLF)
  {
    var force := ForceStuffing(cfg, depth);
    QuotedOne(SignatureLine, Repeat('>', depth), force);
    assert !StartsWith(SignatureLine, "From") by {
      assert SignatureLine[0] != 'F';
    }
    var stuffed := (if force then " " else "") + SignatureLine;
    assert Spacestuff(SignatureLine, force) == stuffed;
    TerminateOne(Repeat('>', depth) + stuffed);
    AppendAssoc(Repeat('>', depth), if force then " " else "", SignatureLine);
  }

  /** A fixed chunk is never wrapped: its encoding does not depend on the configured width. */
  lemma FixedIgnoresWidth(cfg: Config, width: int, depth: nat, text: string)
    ensures EncodeChunk(cfg, Chunk(Fixed, depth, text)) == EncodeChunk(cfg.(width := width), Chunk(Fixed, depth, text))
  {
  }

  /** A fixed chunk that fits is one line: quote marks, then the normalised text, stuffed when needed. */
  lemma FixedIsOneLine(cfg: Config, depth: nat, text: string)
    requires depth + 1 + |Normalize(text)| <= MaxLineLength
    ensures EncodeLines(cfg, Chunk(Fixed, depth, text))
         == Ok([Repeat('>', depth) + Spacestuff(Normalize(text), ForceStuffing(cfg, depth))])
  {
    QuotedOne(Normalize(text), Repeat('>', depth), ForceStuffing(cfg, depth));
  }

  /** A paragraph with no non-whitespace text wraps to no lines and encodes to nothing at all. */
  lemma EmptyParagraph(cfg: Config, depth: nat, text: string)
    requires ParagraphWidth(cfg, depth) > 0
    requires NonSpace(text) == []
    ensures EncodeChunk(cfg, Chunk(Paragraph, depth, text)) == Ok([])
  {
    NormalizeShape(text);
    WrapEmpty(Normalize(text), ParagraphWidth(cfg, depth));
  }

  /**
   The width arithmetic: a paragraph line, with its quote marks, stuffing
   space and flow space, stays within the configured width unless it is a
   single word too long to break.
   */
  lemma ParagraphLinesWithinWidth(cfg: Config, depth: nat, text: string, i: nat)
    requires ParagraphWidth(cfg, depth) > 0
    requires i < |Wrap(Normalize(text), ParagraphWidth(cfg, depth))|
    ensures var ws := Wrap(Normalize(text), ParagraphWidth(cfg, depth));
      var line := Repeat('>', depth) + Spacestuff(FlowLine(ws[i], ws[|ws| - 1]), ForceStuffing(cfg, depth));
      |line| <= cfg.width || NoSpace(ws[i])
  {
    WrapShape(Normalize(text), ParagraphWidth(cfg, depth));
  }

  /** RFC 2822 chopping, on the example of a 1500-character fixed line: pieces of 998 and 502 characters. */
  lemma LongFixedLine()
    ensures var out := EncodeChunk(DefaultConfig, Chunk(Fixed, 0, Repeat('-', 1500)));
      out.Ok? && Split(out.value) == [Repeat('-', 998), Repeat('-', 502), []]
  {
    DashesChunk();
    DashesSplit();
  }

  lemma DashesChunk()
    ensures EncodeChunk(DefaultConfig, Chunk(Fixed, 0, Repeat('-', 1500)))
      == Ok(Terminate([Repeat('-', 998), Repeat('-', 502)]))
  {
    var dashes := Repeat('-', 1500);
    DashesEncodeAsThemselves(dashes);
    DashesSegments(dashes);
    UnquotedFixedLine(DefaultConfig, dashes);
  }

  lemma DashesSplit()
    ensures Split(Terminate([Repeat('-', 998), Repeat('-', 502)])) == [Repeat('-', 998), Repeat('-', 502), []]
  {
    var pieces := [Repeat('-', 998), Repeat('-', 502)];
    assert NoCrlf(pieces[0]) && NoCrlf(pieces[1]);
    SplitTerminate(pieces);
  }

  /** An unquoted fixed line that normalisation and stuffing leave alone is just chopped. */
  lemma UnquotedFixedLine(cfg: Config, line: string)
    requires Normalize(line) == line
    requires Repeat('>', 0) + Spacestuff(FlowLine(line, line), false) == line
    ensures EncodeChunk(cfg, Chunk(Fixed, 0, line)) == Ok(Terminate(Segments(line)))
  {
    assert LogicalLines(cfg, Chunk(Fixed, 0, line)) == Ok([line]);
    assert [line][1..] == [];
    assert QuotedLines([line], line, Repeat('>', 0), false) == Segments(line) + [];
    assert Segments(line) + [] == Segments(line);
    assert EncodeLines(cfg, Chunk(Fixed, 0, line)) == Ok(Segments(line));
  }

  lemma DashesEncodeAsThemselves(dashes: string)
    requires dashes == Repeat('-', 1500)
    ensures Normalize(dashes) == dashes
    ensures Repeat('>', 0) + Spacestuff(FlowLine(dashes, dashes), false) == dashes
  {
    assert dashes[|dashes| - 1] == '-';
    assert NoBreaks(dashes);
    NormalizeFixpoint(dashes);
    assert dashes[0] == '-';
    assert !StartsWith(dashes, "From") by {
      assert dashes[0] != 'F';
    }
  }

  lemma DashesSegments(dashes: string)
    requires dashes == Repeat('-', 1500)
    ensures Segments(dashes) == [Repeat('-', 998), Repeat('-', 502)]
  {
    assert dashes[..998] == Repeat('-', 998);
    assert dashes[998..] == Repeat('-', 502);
    assert Segments(dashes[998..]) == [Repeat('-', 502)];
  }

  /**
   The last-line test compares values: a wrapped line equal to the last one
   is not given the flow space, so it reads back as the end of the paragraph.
   */
  lemma RepeatedLastLine()
    ensures QuotedLines(["ab", "cd", "ab"], "ab", [], false) == ["ab", "cd ", "ab"]
  {
    var ws: seq<string> := ["ab", "cd", "ab"];
    assert !StartsWith("ab", "From") && !StartsWith("cd ", "From");
    assert [] + Spacestuff(FlowLine("ab", "ab"), false) == "ab";
    assert [] + Spacestuff(FlowLine("cd", "ab"), false) == "cd ";
    assert Segments("ab") == ["ab"];
    assert Segments("cd ") == ["cd "];
    assert ws[1..] == ["cd", "ab"] && ws[1..][1..] == ["ab"] && ws[1..][1..][1..] == [];
    assert QuotedLines(ws[1..][1..], "ab", [], false) == ["ab"];
    assert QuotedLines(ws[1..], "ab", [], false) == ["cd "] + ["ab"];
  }
}
