/**
 The two conversion entry points around the codec: `convertToFlowed`, which
 parses plain text into chunks and encodes them, and the quote marker
 `convertToWrapped` puts in front of each decoded chunk's lines.
 */
module Convert {
  import opened Text
  import opened Chunks
  import opened Crlf
  import opened Encoder
  import opened PlainText
  import Decoder

  /**
   `convertToFlowed(text, quotechars)`: the parsed chunks, encoded. It fails
   exactly when the parser found a paragraph quoted so deeply that no width
   is left for it, and otherwise every physical line keeps the 998-character
   limit and ends in CRLF.
   */
  function ConvertToFlowed(cfg: Config, quotechars: string, text: string): (r: Result<string>)
    requires quotechars != []
    ensures r.Err? <==> (exists i :: 0 <= i < |ParseChunks(quotechars, text)|
                           && ParseChunks(quotechars, text)[i].kind == Paragraph
                           && ParagraphWidth(cfg, ParseChunks(quotechars, text)[i].depth) <= 0)
    ensures r.Ok? ==> Split(r.value)[|Split(r.value)| - 1] == []
    ensures r.Ok? ==> forall i :: 0 <= i < |Split(r.value)| ==> |Split(r.value)[i]| <= MaxLineLength
  {
    var cs := ParseChunks(quotechars, text);
    EncodeFails(cfg, cs);
    if Encode(cfg, cs).Ok? then
      HardLineLimit(cfg, cs);
      Encode(cfg, cs)
    else
      Encode(cfg, cs)
  }

  /**
   The marker `convertToWrapped` puts before a decoded chunk: `quote`
   repeated `depth` times, followed by a space unless `quote` already ends
   in one. There is none for unquoted chunks or an empty `quote`; otherwise
   it is `depth` copies of `quote`, ending in a space, and the space is
   added exactly when `quote` does not end in one.
   */
  function QuoteMarker(quote: string, depth: nat): (r: string)
    ensures r == [] <==> depth == 0 || quote == []
    ensures r != [] ==> StartsWith(r, quote) && r[|r| - 1] == ' '
    ensures |r| == depth * |quote| || |r| == depth * |quote| + 1
    ensures quote != [] ==> forall i :: 0 <= i < depth * |quote| ==> r[i] == quote[i % |quote|]
    ensures |r| == depth * |quote| + 1 <==> depth > 0 && quote != [] && quote[|quote| - 1] != ' '
  {
    RepeatStringShape(quote, depth);
    RepeatStringIndex(quote, depth);
    var marker := if depth == 0 then [] else RepeatString(quote, depth);
    if marker != [] && quote[|quote| - 1] != ' ' then marker + " " else marker
  }

  /**
   With the default '>' the marker is read back by the decoder: whatever
   follows it, the decoder finds the chunk's depth and the text unchanged.
   */
  lemma QuoteMarkerReadBack(depth: nat, text: string)
    requires depth > 0
    ensures QuoteMarker(">", depth) == Repeat('>', depth) + " "
    ensures Decoder.Content(QuoteMarker(">", depth) + text) == (depth, text)
  {
    RepeatStringOfChar('>', depth);
    var line := QuoteMarker(">", depth) + text;
    AppendAssoc(Repeat('>', depth), " ", text);
    Decoder.QuoteDepthRecovered(depth, " " + text);
    assert (" " + text)[1..] == text;
  }
}
