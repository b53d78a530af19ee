/**
 Decoding what the encoder wrote. Without DelSp (the encoder never sets it
 when it does not add extra spaces), the lines of one encoded chunk decode
 back to the chunk, normalised, and leave the decoder fresh, so a sequence of
 chunks comes back chunk by chunk, followed by the empty fixed chunk that the
 final CRLF leaves behind; decoding is not an exact inverse of encoding.
 */
module RoundTrip {
  import opened Text
  import opened Chunks
  import opened Crlf
  import opened Wrapper
  import opened Encoder
  import opened Decoder

  /** Unstuffing undoes stuffing, forced or not. */
  lemma StuffingUndone(line: string, force: bool)
    ensures StripStuffing(Spacestuff(line, force)) == line
  {
  }

  /** The decoder reads back the depth and the text of a line the encoder quoted and stuffed. */
  lemma EncodedLineRead(depth: nat, text: string, force: bool)
    ensures Content(Repeat('>', depth) + Spacestuff(text, force)) == (depth, text)
  {
    QuoteDepthRecovered(depth, Spacestuff(text, force));
  }

  /** The empty piece after the last CRLF decodes to an empty unquoted fixed chunk. */
  lemma TrailingEmptyLine(deleteSpace: bool)
    ensures DecodeLines(deleteSpace, Fresh, [[]]) == [Chunk(Fixed, 0, [])]
  {
    var lines: seq<string> := [[]];
    assert Content(lines[0]) == (0, []);
    assert lines[1..] == [];
  }

  /** Splitting the encoded chunk on CRLF gives its physical lines and the empty piece after the last CRLF. */
  lemma EncodedChunkSplits(cfg: Config, c: Chunk)
    requires EncodeChunk(cfg, c).Ok?
    ensures Split(EncodeChunk(cfg, c).value) == EncodeLines(cfg, c).value + [[]]
  {
    var lines := EncodeLines(cfg, c).value;
    EncodeLinesFit(cfg, c);
    forall i | 0 <= i < |lines|
      ensures NoCrlf(lines[i])
    {
      NoBreaksNoCrlf(lines[i]);
    }
    SplitTerminate(lines);
  }

  /** A fresh decoder reads the first line, then goes on from the state it leaves. */
  lemma DecodeAfterFirst(lines: seq<string>, tail: seq<string>)
    requires |lines| > 0
    ensures DecodeLines(false, Fresh, lines + tail)
         == Step(false, Fresh, lines[0]).1 + DecodeLines(false, Step(false, Fresh, lines[0]).0, lines[1..] + tail)
  {
    assert (lines + tail)[0] == lines[0];
    assert (lines + tail)[1..] == lines[1..] + tail;
    DecodeLinesCons(false, Fresh, lines + tail);
  }

  /**
   A fixed chunk that fits on one line is read back as itself, its text
   normalised, and leaves the decoder fresh for whatever follows.
   */
  lemma FixedReadBack(cfg: Config, depth: nat, text: string, tail: seq<string>)
    requires depth + 1 + |Normalize(text)| <= MaxLineLength
    ensures EncodeLines(cfg, Chunk(Fixed, depth, text)).Ok?
    ensures DecodeLines(false, Fresh, EncodeLines(cfg, Chunk(Fixed, depth, text)).value + tail)
         == [Chunk(Fixed, depth, Normalize(text))] + DecodeLines(false, Fresh, tail)
  {
    var n := Normalize(text);
    var line := Repeat('>', depth) + Spacestuff(n, ForceStuffing(cfg, depth));
    FixedIsOneLine(cfg, depth, text);
    EncodedLineRead(depth, n, ForceStuffing(cfg, depth));
    NormalizeShape(text);
    assert !EndsWithSpace(n);
    assert n != SignatureLine by {
      assert EndsWithSpace(SignatureLine);
    }
    assert Step(false, Fresh, line) == (Fresh, [Chunk(Fixed, depth, n)]);
    DecodeAfterFirst([line], tail);
    assert [line][1..] + tail == tail;
  }

  /** A separator chunk is read back as "-- " at its depth, whatever text it held, and leaves the decoder fresh. */
  lemma SignatureReadBack(cfg: Config, depth: nat, text: string, tail: seq<string>)
    requires depth + 4 <= MaxLineLength
    ensures EncodeLines(cfg, Chunk(SignatureSeparator, depth, text)).Ok?
    ensures DecodeLines(false, Fresh, EncodeLines(cfg, Chunk(SignatureSeparator, depth, text)).value + tail)
         == [Chunk(SignatureSeparator, depth, SignatureLine)] + DecodeLines(false, Fresh, tail)
  {
    var force := ForceStuffing(cfg, depth);
    var line := Repeat('>', depth) + Spacestuff(SignatureLine, force);
    QuotedOne(SignatureLine, Repeat('>', depth), force);
    assert EncodeLines(cfg, Chunk(SignatureSeparator, depth, text)) == Ok([line]);
    EncodedLineRead(depth, SignatureLine, force);
    assert Pending(Fresh) == [];
    assert [] + [Chunk(SignatureSeparator, depth, SignatureLine)] == [Chunk(SignatureSeparator, depth, SignatureLine)];
    assert Step(false, Fresh, line) == (Fresh, [Chunk(SignatureSeparator, depth, SignatureLine)]);
    DecodeAfterFirst([line], tail);
    assert [line][1..] + tail == tail;
  }

  /**
   A fixed chunk that fits on one line decodes to itself, its text
   normalised, followed by the empty trailing chunk.
   */
  lemma DecodeEncodeFixed(cfg: Config, depth: nat, text: string)
    requires depth + 1 + |Normalize(text)| <= MaxLineLength
    ensures EncodeChunk(cfg, Chunk(Fixed, depth, text)).Ok?
    ensures Decode(false, EncodeChunk(cfg, Chunk(Fixed, depth, text)).value)
         == [Chunk(Fixed, depth, Normalize(text)), Chunk(Fixed, 0, [])]
  {
    FixedReadBack(cfg, depth, text, [[]]);
    DecodeOfChunk(cfg, Chunk(Fixed, depth, text));
    TrailingEmptyLine(false);
  }

  /** A separator chunk decodes to the separator "-- " at its depth, whatever text it held. */
  lemma DecodeEncodeSignature(cfg: Config, depth: nat, text: string)
    requires depth + 4 <= MaxLineLength
    ensures EncodeChunk(cfg, Chunk(SignatureSeparator, depth, text)).Ok?
    ensures Decode(false, EncodeChunk(cfg, Chunk(SignatureSeparator, depth, text)).value)
         == [Chunk(SignatureSeparator, depth, SignatureLine), Chunk(Fixed, 0, [])]
  {
    SignatureReadBack(cfg, depth, text, [[]]);
    DecodeOfChunk(cfg, Chunk(SignatureSeparator, depth, text));
    TrailingEmptyLine(false);
  }

  /** What the encoder guarantees of the wrapped lines of a paragraph, and the round trip needs. */
  predicate Readable(ws: seq<string>) {
    && |ws| > 0
    && (forall i :: 0 <= i < |ws| ==> ws[i] != [] && ws[i][|ws[i]| - 1] != ' ')
    && (forall i :: 0 <= i < |ws| - 1 ==> ws[i] != ws[|ws| - 1] && ws[i] != "--")
  }

  lemma ReadableSuffix(ws: seq<string>)
    requires Readable(ws) && |ws| > 1
    ensures Readable(ws[1..])
  {
    assert forall i :: 0 <= i < |ws| - 1 ==> ws[1..][i] == ws[i + 1];
  }

  /** An earlier wrapped line gets the flow space and so is read as flowed, at the paragraph's depth. */
  lemma EarlierLineFlowed(ws: seq<string>, depth: nat, force: bool)
    requires Readable(ws) && |ws| > 1
    ensures FlowedAt(depth, Repeat('>', depth) + Spacestuff(FlowLine(ws[0], ws[|ws| - 1]), force))
    ensures Content(Repeat('>', depth) + Spacestuff(FlowLine(ws[0], ws[|ws| - 1]), force)) == (depth, ws[0] + " ")
    ensures LineText(false, Repeat('>', depth) + Spacestuff(FlowLine(ws[0], ws[|ws| - 1]), force)) == ws[0] + " "
  {
    var flowed := FlowLine(ws[0], ws[|ws| - 1]);
    assert flowed == ws[0] + " ";
    EncodedLineRead(depth, flowed, force);
    assert flowed[..|flowed| - 1] == ws[0];
    assert SignatureLine[..|SignatureLine| - 1] == "--";
    assert ws[0] != "--";
  }

  /**
   The remaining wrapped lines of a paragraph, read with the paragraph `para`
   open at their depth: the earlier ones extend it, the last one closes it
   and leaves the decoder fresh.
   */
  lemma {:induction false} DecodeRest(ws: seq<string>, depth: nat, force: bool, para: string, last: string, tail: seq<string>)
    requires Readable(ws) && last == ws[|ws| - 1] && para != []
    decreases |ws|
    ensures DecodeLines(false, Open(para, depth), PhysicalLines(ws, last, Repeat('>', depth), force) + tail)
         == [Chunk(Paragraph, depth, para + JoinWith(" ", ws))] + DecodeLines(false, Fresh, tail)
  {
    var marker := Repeat('>', depth);
    var lines := PhysicalLines(ws, last, marker, force);
    var first := lines[0];
    var rest := lines[1..] + tail;
    assert lines + tail == [first] + rest;
    if |ws| == 1 {
      assert FlowLine(last, last) == last;
      EncodedLineRead(depth, last, force);
      assert rest == tail;
      FixedLineClosesParagraph(false, para, first, tail);
    } else {
      var para' := para + (ws[0] + " ");
      assert DecodeLines(false, Open(para, depth), [first] + rest) == DecodeLines(false, Open(para', depth), rest) by {
        assert ([first] + rest)[1..] == rest;
        DecodeLinesCons(false, Open(para, depth), [first] + rest);
        EarlierLineFlowed(ws, depth, force);
        FlowedLineExtends(false, para, depth, first);
      }
      assert DecodeLines(false, Open(para', depth), rest)
          == [Chunk(Paragraph, depth, para' + JoinWith(" ", ws[1..]))] + DecodeLines(false, Fresh, tail) by {
        ReadableSuffix(ws);
        assert lines[1..] == PhysicalLines(ws[1..], last, marker, force);
        DecodeRest(ws[1..], depth, force, para', last, tail);
      }
      assert para' + JoinWith(" ", ws[1..]) == para + JoinWith(" ", ws) by {
        assert JoinWith(" ", ws) == ws[0] + " " + JoinWith(" ", ws[1..]);
        AppendAssoc(para, ws[0] + " ", JoinWith(" ", ws[1..]));
      }
    }
  }

  /** The first wrapped line, read by a fresh decoder: fixed when it is the only one, else opening the paragraph. */
  lemma FirstLineRead(ws: seq<string>, depth: nat, force: bool)
    requires Readable(ws)
    ensures Step(false, Fresh, Repeat('>', depth) + Spacestuff(FlowLine(ws[0], ws[|ws| - 1]), force))
         == if |ws| == 1 then (Fresh, [Chunk(Fixed, depth, ws[0])]) else (Open(ws[0] + " ", depth), [])
  {
    if |ws| == 1 {
      assert FlowLine(ws[0], ws[0]) == ws[0];
      EncodedLineRead(depth, ws[0], force);
    } else {
      EarlierLineFlowed(ws, depth, force);
      assert [] + StripFlow(false, ws[0] + " ") == ws[0] + " ";
    }
  }

  /** What the decoder gives back for a paragraph wrapped into `ws`: nothing, a fixed line, or the lines joined by spaces. */
  function ParagraphBack(ws: seq<string>, depth: nat): seq<Chunk> {
    if |ws| == 0 then []
    else if |ws| == 1 then [Chunk(Fixed, depth, ws[0])]
    else [Chunk(Paragraph, depth, JoinWith(" ", ws))]
  }

  /** All the wrapped lines of a paragraph, read from a fresh decoder, which they leave fresh. */
  lemma DecodeLinesOfParagraph(ws: seq<string>, depth: nat, force: bool, tail: seq<string>)
    requires Readable(ws)
    ensures DecodeLines(false, Fresh, PhysicalLines(ws, ws[|ws| - 1], Repeat('>', depth), force) + tail)
         == ParagraphBack(ws, depth) + DecodeLines(false, Fresh, tail)
  {
    if |ws| == 1 {
      DecodeSingleLine(ws, depth, force, tail);
    } else {
      DecodeSeveralLines(ws, depth, force, tail);
    }
  }

  lemma DecodeSingleLine(ws: seq<string>, depth: nat, force: bool, tail: seq<string>)
    requires Readable(ws) && |ws| == 1
    ensures DecodeLines(false, Fresh, PhysicalLines(ws, ws[0], Repeat('>', depth), force) + tail)
         == [Chunk(Fixed, depth, ws[0])] + DecodeLines(false, Fresh, tail)
  {
    var lines := PhysicalLines(ws, ws[0], Repeat('>', depth), force);
    DecodeAfterFirst(lines, tail);
    FirstLineRead(ws, depth, force);
    assert lines[1..] + tail == tail;
  }

  lemma DecodeSeveralLines(ws: seq<string>, depth: nat, force: bool, tail: seq<string>)
    requires Readable(ws) && |ws| > 1
    ensures DecodeLines(false, Fresh, PhysicalLines(ws, ws[|ws| - 1], Repeat('>', depth), force) + tail)
         == [Chunk(Paragraph, depth, JoinWith(" ", ws))] + DecodeLines(false, Fresh, tail)
  {
    var last := ws[|ws| - 1];
    var marker := Repeat('>', depth);
    var lines := PhysicalLines(ws, last, marker, force);
    var rest := lines[1..] + tail;
    var para := ws[0] + " ";
    assert DecodeLines(false, Fresh, lines + tail) == DecodeLines(false, Open(para, depth), rest) by {
      DecodeAfterFirst(lines, tail);
      FirstLineRead(ws, depth, force);
      assert [] + DecodeLines(false, Open(para, depth), rest) == DecodeLines(false, Open(para, depth), rest);
    }
    assert DecodeLines(false, Open(para, depth), rest)
        == [Chunk(Paragraph, depth, para + JoinWith(" ", ws[1..]))] + DecodeLines(false, Fresh, tail) by {
      ReadableSuffix(ws);
      assert lines[1..] == PhysicalLines(ws[1..], last, marker, force);
      DecodeRest(ws[1..], depth, force, para, last, tail);
    }
    assert JoinWith(" ", ws) == ws[0] + " " + JoinWith(" ", ws[1..]);
  }

  /**
   What a paragraph's wrapped lines must satisfy to be read back: each fits
   the 998 limit with its marks, flow space and stuffing, and no earlier line
   repeats the last line or is "--", because the encoder's last-line test
   compares values and "-- " reads as a separator.
   */
  predicate WrapReadable(ws: seq<string>, depth: nat) {
    && (forall i :: 0 <= i < |ws| ==> depth + |ws[i]| + 2 <= MaxLineLength)
    && (forall i :: 0 <= i < |ws| - 1 ==> ws[i] != ws[|ws| - 1] && ws[i] != "--")
  }

  /** A paragraph whose wrapped lines can be read back is, and leaves the decoder fresh. */
  lemma ParagraphReadBack(cfg: Config, depth: nat, text: string, tail: seq<string>)
    requires ParagraphWidth(cfg, depth) > 0
    requires WrapReadable(Wrap(Normalize(text), ParagraphWidth(cfg, depth)), depth)
    ensures EncodeLines(cfg, Chunk(Paragraph, depth, text)).Ok?
    ensures DecodeLines(false, Fresh, EncodeLines(cfg, Chunk(Paragraph, depth, text)).value + tail)
         == ParagraphBack(Wrap(Normalize(text), ParagraphWidth(cfg, depth)), depth) + DecodeLines(false, Fresh, tail)
  {
    var c := Chunk(Paragraph, depth, text);
    var ws := Wrap(Normalize(text), ParagraphWidth(cfg, depth));
    assert LogicalLines(cfg, c) == Ok(ws);
    if |ws| == 0 {
      assert EncodeLines(cfg, c).value + tail == tail;
    } else {
      ParagraphPhysicalLines(cfg, depth, text);
      WrappedReadable(ParagraphWidth(cfg, depth), Normalize(text));
      DecodeLinesOfParagraph(ws, depth, ForceStuffing(cfg, depth), tail);
    }
  }

  /**
   A paragraph whose wrapped lines fit decodes to the paragraph again: its
   wrapped lines joined by single spaces, or a fixed chunk when it wraps to a
   single line; an empty paragraph leaves only the trailing chunk.
   */
  lemma DecodeEncodeParagraph(cfg: Config, depth: nat, text: string)
    requires ParagraphWidth(cfg, depth) > 0
    requires WrapReadable(Wrap(Normalize(text), ParagraphWidth(cfg, depth)), depth)
    ensures EncodeChunk(cfg, Chunk(Paragraph, depth, text)).Ok?
    ensures var ws := Wrap(Normalize(text), ParagraphWidth(cfg, depth));
      Decode(false, EncodeChunk(cfg, Chunk(Paragraph, depth, text)).value)
      == if |ws| == 0 then [Chunk(Fixed, 0, [])]
         else if |ws| == 1 then [Chunk(Fixed, depth, ws[0]), Chunk(Fixed, 0, [])]
         else [Chunk(Paragraph, depth, JoinWith(" ", ws)), Chunk(Fixed, 0, [])]
  {
    ParagraphReadBack(cfg, depth, text, [[]]);
    DecodeOfChunk(cfg, Chunk(Paragraph, depth, text));
    TrailingEmptyLine(false);
  }

  /** Decoding an encoded chunk reads its physical lines and the empty piece after the last CRLF. */
  lemma DecodeOfChunk(cfg: Config, c: Chunk)
    requires EncodeChunk(cfg, c).Ok?
    ensures Decode(false, EncodeChunk(cfg, c).value) == DecodeLines(false, Fresh, EncodeLines(cfg, c).value + [[]])
  {
    EncodedChunkSplits(cfg, c);
  }

  /** The encoder's lines of a paragraph whose wrapped lines fit: one physical line per wrapped line. */
  lemma ParagraphPhysicalLines(cfg: Config, depth: nat, text: string)
    requires ParagraphWidth(cfg, depth) > 0
    requires var ws := Wrap(Normalize(text), ParagraphWidth(cfg, depth));
      forall i :: 0 <= i < |ws| ==> depth + |ws[i]| + 2 <= MaxLineLength
    requires |Wrap(Normalize(text), ParagraphWidth(cfg, depth))| > 0
    ensures var ws := Wrap(Normalize(text), ParagraphWidth(cfg, depth));
      EncodeLines(cfg, Chunk(Paragraph, depth, text))
         == Ok(PhysicalLines(ws, ws[|ws| - 1], Repeat('>', depth), ForceStuffing(cfg, depth)))
  {
    var ws := Wrap(Normalize(text), ParagraphWidth(cfg, depth));
    var last := ws[|ws| - 1];
    var marker := Repeat('>', depth);
    var force := ForceStuffing(cfg, depth);
    LinesWithinLimit(ws, last, depth, force);
    QuotedLinesFit(ws, last, marker, force);
    assert LogicalLines(cfg, Chunk(Paragraph, depth, text)) == Ok(ws);
  }

  /** Marks, flow space and stuffing add at most `depth + 2` characters to a wrapped line. */
  lemma LinesWithinLimit(ws: seq<string>, last: string, depth: nat, force: bool)
    requires forall i :: 0 <= i < |ws| ==> depth + |ws[i]| + 2 <= MaxLineLength
    ensures forall i :: 0 <= i < |ws| ==>
      |Repeat('>', depth) + Spacestuff(FlowLine(ws[i], last), force)| <= MaxLineLength
  {
    forall i | 0 <= i < |ws|
      ensures |Repeat('>', depth) + Spacestuff(FlowLine(ws[i], last), force)| <= MaxLineLength
    {
      assert |FlowLine(ws[i], last)| <= |ws[i]| + 1;
    }
  }

  lemma WrappedReadable(width: nat, text: string)
    requires width > 0 && |Wrap(text, width)| > 0
    requires var ws := Wrap(text, width);
      forall i :: 0 <= i < |ws| - 1 ==> ws[i] != ws[|ws| - 1] && ws[i] != "--"
    ensures Readable(Wrap(text, width))
  {
    WrapShape(text, width);
  }

  /**
   Nothing but whitespace changes on the way: the decoded paragraph holds
   the same non-whitespace characters, in order, as the text encoded.
   */
  lemma ParagraphKeepsWords(cfg: Config, depth: nat, text: string)
    requires ParagraphWidth(cfg, depth) > 0
    ensures NonSpace(JoinWith(" ", Wrap(Normalize(text), ParagraphWidth(cfg, depth)))) == NonSpace(text)
  {
    var ws := Wrap(Normalize(text), ParagraphWidth(cfg, depth));
    NonSpaceJoinSpaces(ws);
    WrapKeepsText(Normalize(text), ParagraphWidth(cfg, depth));
    NormalizeShape(text);
  }

  /**
   A chunk the decoder reads back: a fixed line or separator that fits the
   998 limit, or a paragraph with room for text whose wrapped lines are
   readable.
   */
  predicate RoundTrips(cfg: Config, c: Chunk) {
    match c.kind
    case Fixed => c.depth + 1 + |Normalize(c.text)| <= MaxLineLength
    case SignatureSeparator => c.depth + 4 <= MaxLineLength
    case Paragraph =>
      ParagraphWidth(cfg, c.depth) > 0 && WrapReadable(Wrap(Normalize(c.text), ParagraphWidth(cfg, c.depth)), c.depth)
  }

  /**
   The chunks the decoder gives back for one encoded chunk: a fixed line
   with its text normalised, the separator "-- ", or the paragraph's wrapped
   lines, joined.
   */
  function ReadBack(cfg: Config, c: Chunk): seq<Chunk> {
    match c.kind
    case Fixed => [Chunk(Fixed, c.depth, Normalize(c.text))]
    case SignatureSeparator => [Chunk(SignatureSeparator, c.depth, SignatureLine)]
    case Paragraph =>
      if ParagraphWidth(cfg, c.depth) > 0 then ParagraphBack(Wrap(Normalize(c.text), ParagraphWidth(cfg, c.depth)), c.depth)
      else []
  }

  /** The read-back chunks of every chunk, in order. */
  function ReadBackAll(cfg: Config, cs: seq<Chunk>): seq<Chunk> {
    if |cs| == 0 then [] else ReadBack(cfg, cs[0]) + ReadBackAll(cfg, cs[1..])
  }

  /** One chunk's physical lines are read back as that chunk, leaving the decoder fresh for what follows. */
  lemma ChunkReadBack(cfg: Config, c: Chunk, tail: seq<string>)
    requires RoundTrips(cfg, c)
    ensures EncodeLines(cfg, c).Ok?
    ensures DecodeLines(false, Fresh, EncodeLines(cfg, c).value + tail) == ReadBack(cfg, c) + DecodeLines(false, Fresh, tail)
  {
    match c.kind
    case Fixed => FixedReadBack(cfg, c.depth, c.text, tail);
    case SignatureSeparator => SignatureReadBack(cfg, c.depth, c.text, tail);
    case Paragraph => ParagraphReadBack(cfg, c.depth, c.text, tail);
  }

  /** The physical lines of a chunk sequence are read back chunk by chunk: no chunk runs into the next. */
  lemma {:induction false} AllLinesReadBack(cfg: Config, cs: seq<Chunk>, tail: seq<string>)
    requires forall i :: 0 <= i < |cs| ==> RoundTrips(cfg, cs[i])
    decreases |cs|
    ensures EncodeAllLines(cfg, cs).Ok?
    ensures DecodeLines(false, Fresh, EncodeAllLines(cfg, cs).value + tail)
         == ReadBackAll(cfg, cs) + DecodeLines(false, Fresh, tail)
  {
    if |cs| > 0 {
      assert forall i :: 0 <= i < |cs[1..]| ==> cs[1..][i] == cs[i + 1];
      AllLinesReadBack(cfg, cs[1..], tail);
      var rest := EncodeAllLines(cfg, cs[1..]).value;
      ChunkReadBack(cfg, cs[0], rest + tail);
      var first := EncodeLines(cfg, cs[0]).value;
      assert EncodeAllLines(cfg, cs).value == first + rest;
      AppendAssoc(first, rest, tail);
      AppendAssoc(ReadBack(cfg, cs[0]), ReadBackAll(cfg, cs[1..]), DecodeLines(false, Fresh, tail));
    } else {
      assert EncodeAllLines(cfg, cs).value + tail == tail;
    }
  }

  /**
   `decode(encode(chunks))`: every chunk the decoder can read back comes
   back in order, each as `ReadBack` gives it, followed by the empty
   unquoted fixed chunk that the final CRLF leaves.
   */
  lemma DecodeEncode(cfg: Config, cs: seq<Chunk>)
    requires forall i :: 0 <= i < |cs| ==> RoundTrips(cfg, cs[i])
    ensures Encode(cfg, cs).Ok?
    ensures Decode(false, Encode(cfg, cs).value) == ReadBackAll(cfg, cs) + [Chunk(Fixed, 0, [])]
  {
    AllLinesReadBack(cfg, cs, [[]]);
    EncodeIsTerminated(cfg, cs);
    var lines := EncodeAllLines(cfg, cs).value;
    EncodeAllLinesFit(cfg, cs);
    forall i | 0 <= i < |lines|
      ensures NoCrlf(lines[i])
    {
      NoBreaksNoCrlf(lines[i]);
    }
    SplitTerminate(lines);
    TrailingEmptyLine(false);
  }
}
