# formatflowed in Dafny

A model of `formatflowed.py`, a converter between RFC 3676 "format=flowed"
text and a list of typed chunks. A chunk is a kind (paragraph, fixed line or
signature separator), a quote depth and an unquoted, unwrapped text.

The model covers five parts of the module:

- **The decoder** (`FormatFlowedDecoder.decode` and its `_strip*` helpers).
  It is modelled as a fold over the CRLF-split physical lines with the
  accumulator `Fresh | Open(para, depth)`. The step removes the quote run
  (section 4.5 of RFC 3676) and one stuffing space (section 4.4). It then
  sorts the line into signature separator (section 4.3), flowed line
  (section 4.2) or fixed line, and gathers flowed lines into paragraphs.
- **The encoder** (`FormatFlowedEncoder._spacestuff`, `encodeChunk` and
  `encode`). A chunk goes through these steps:
  - its text is normalised;
  - a separator is forced to "-- ";
  - a paragraph's width is reduced and checked, then the paragraph is wrapped;
  - every wrapped line unequal to the last gets the flow space;
  - lines are stuffed and quoted;
  - physical lines are chopped at the 998-character limit of section 2.1.1
    of RFC 2822.

  The `ValueError` for too little width is the `Err(NotEnoughWidth)` result.
- **The word wrapper** (`wrapper.wrap` on a `_FlowedTextWrapper` with
  `extra_space` false). It is a greedy packer over the maximal whitespace
  and non-whitespace runs of the text.
- **The plain-text parser** (`_parseFlowableChunks`). It hand-codes the
  quote-prefix regular expression as `QuoteMatch` and the quote-character
  count as `CountIn`. The loop is a fold with state `(depth, marks, para)`.
- **`convertToFlowed`**, and the quote-marker rule of `convertToWrapped`.

On top of these, `RoundTrip` states what decoding the encoding of a chunk
sequence gives back: each chunk's lines leave the decoder fresh, so the chunks
come back one after another, in order. Decoding is not an exact inverse of
encoding:

- the text comes back normalised;
- a run of whitespace at which a paragraph was wrapped comes back as a
  single space;
- a paragraph that wraps to a single line comes back as a fixed line;
- the final CRLF always adds an empty unquoted fixed chunk.

Modules, in dependency order:

- `Text`: the Python `str` operations, with `isspace` and `splitlines` over
  Python's full sets of whitespace and line-boundary characters.
- `Chunks`: the chunk datatypes.
- `Crlf`: `split(b'\r\n')` and the CRLF-terminated join.
- `Decoder`, `Wrapper`, `Encoder`, `PlainText`, `Convert` and `RoundTrip`.

Two behaviours of the code are easy to miss:

- An all-whitespace paragraph wraps to no lines, so it encodes to the empty
  string (`Wrapper.WrapEmpty`, `Encoder.EmptyParagraph`).
- A word longer than the width is not broken; it stays whole on a line of
  its own (`Encoder.ParagraphLinesWithinWidth`).

Line splitting follows Python's `splitlines`, which also breaks at "\r",
"\x0b", "\x0c", "\x1c"–"\x1e", "\x85", "\u2028" and "\u2029", not only at
"\n".

The encoder wraps with `wrapper.wrap(chunk)` (formatflowed.py:603-604). That
is textwrap's `TextWrapper.wrap`: it splits the text with the word separator
`(\s+)` that `_FlowedTextWrapper` installs, then packs the pieces with the
standard library's `_wrap_chunks`. The module's `_wrap` override
(formatflowed.py:765-799) is never called. With `drop_whitespace` on and
`break_long_words` off, `_wrap_chunks` packs lines exactly as `_wrap` does
when `extra_space` is false: the same greedy fit, the same whitespace
dropping, and an over-long word alone on its line. The `Wrapper` module
models that packing, and its rows cite `_wrap`'s lines as the readable
statement of it.

## Model

| member | source | states |
|---|---|---|
| Text.RStrip | formatflowed.py:588 | `rstrip()` keeps a prefix, removes only whitespace, and leaves no trailing whitespace |
| Crlf.Split | formatflowed.py:273 | `split(b'\r\n')`; never empty, and stated by `Crlf.SplitJoinsBack` |
| Crlf.Terminate | formatflowed.py:628-629 | `lines.append(b'')` and the CRLF join; stated by `Crlf.TerminateIsJoin` and `Crlf.SplitTerminate` |
| Crlf.SplitJoinsBack | formatflowed.py:273 | the pieces of `split(b'\r\n')` contain no CRLF and joined with CRLF give back the body |
| Crlf.SplitTerminate | formatflowed.py:628-629 | splitting CRLF-terminated lines on CRLF gives the lines back plus one final empty piece |
| Crlf.TerminateIsJoin | formatflowed.py:628-629 | appending the empty line and joining with CRLF puts one CRLF after every line |
| Decoder.StripQuotes | formatflowed.py:61-79 | `_stripquotes`; its contract is stated by `Decoder.StripQuotesSplits` and `Decoder.QuoteDepthRecovered` |
| Decoder.StripQuotesSplits | formatflowed.py:61-79 | `_stripquotes` returns `(n, r)` with `line == ">"*n + r`, and `r` does not start with '>' |
| Decoder.QuoteDepthRecovered | formatflowed.py:61-79 | n quote marks before text that does not start with '>' are counted back exactly |
| Decoder.StripStuffing | formatflowed.py:81-106 | exactly one leading space is removed when there is one; otherwise the line is unchanged |
| Decoder.StripFlow | formatflowed.py:108-136 | exactly one trailing space is removed, and only with DelSp on a line ending in a space |
| Decoder.Content | formatflowed.py:275-276 | the quote depth and unstuffed text of a physical line; stated by `RoundTrip.EncodedLineRead` and `Decoder.QuoteDepthRecovered` |
| Decoder.Step | formatflowed.py:275-310 | one turn of the decoding loop; its properties are `Decoder.StepKeepsText`, `Decoder.StepWellFormed` and the per-case lemmas below |
| Decoder.DecodeLines | formatflowed.py:272-314 | the decoding loop as a fold of `Step` with the final flush; stated by `Decoder.DecodeKeepsText` and `Decoder.DecodeWellFormed` |
| Decoder.StepKeepsText | formatflowed.py:273-310 | one line: the chunks yielded plus what stays pending equal the old pending text plus the line's own text |
| Decoder.StepWellFormed | formatflowed.py:277-310 | a fixed chunk never ends in a space; a separator chunk is exactly "-- " |
| Decoder.DecodeWellFormed | formatflowed.py:272-314 | every chunk the decoding loop yields has that shape |
| Decoder.DecodeKeepsText | formatflowed.py:272-314 | the chunk texts together are the lines' texts after quote, stuffing and flow-space removal: nothing lost, nothing invented |
| Decoder.Decode | formatflowed.py:140-314 | `decode` keeps all text and yields only well-formed chunks |
| Decoder.SignatureSeparatorLine | formatflowed.py:277-286 | a "-- " line ends in a space but is a separator: any pending non-empty paragraph is yielded just before it and the accumulator is reset |
| Decoder.FlowedLineExtends | formatflowed.py:287-296 | a flowed line at the open paragraph's depth only appends its text and yields nothing |
| Decoder.FlowedLinesJoin | formatflowed.py:287-296 | a run of flowed lines at one depth is concatenated with no separator |
| Decoder.FlowedParagraphAtEnd | formatflowed.py:312-314 | a paragraph still open at the end of the body is yielded with all its text |
| Decoder.DepthChangeFlushes | formatflowed.py:287-306 | a line at another depth first yields the pending paragraph unterminated, even an empty one opened by a flowed line |
| Decoder.StepAtNewDepth | formatflowed.py:287-306 | after that flush, the line is handled as by a fresh decoder |
| Decoder.FixedLineClosesParagraph | formatflowed.py:297-309 | a fixed line at the paragraph's depth closes it as `para + line` |
| Wrapper.Tokenize | formatflowed.py:763 | the split on the word separator `(\s+)`; stated by `Wrapper.TokenizeShape` |
| Wrapper.RunLength | formatflowed.py:763 | the leading run has one whitespace class and ends where the class changes |
| Wrapper.TokenizeShape | formatflowed.py:763 | splitting on `(\s+)` gives tokens that concatenate to the text and alternate between whitespace and non-whitespace runs |
| Wrapper.Fit | formatflowed.py:780-786 | the inner loop packs the longest token prefix within the room; one more token would overflow. `wrap` packs with textwrap's `_wrap_chunks`, which these lines restate for `extra_space` false. |
| Wrapper.Take | formatflowed.py:780-789 | a line takes at least one token; it fits unless it is a single over-long token, and it is maximal. `wrap` packs with textwrap's `_wrap_chunks`, which these lines restate for `extra_space` false. |
| Wrapper.Lead | formatflowed.py:777-778 | a whitespace token at the start of a continuation line is dropped; stated by `Wrapper.WrapTokensShape` and `Wrapper.WrapTokensDropsSpace` |
| Wrapper.Trim | formatflowed.py:794-795 | a whitespace token at the end of a line is dropped; stated by `Wrapper.WrapTokensShape` and `Wrapper.WrapTokensDropsSpace` |
| Wrapper.WrapTokens | formatflowed.py:765-799 | the greedy packing loop; stated by `Wrapper.WrapTokensShape` and `Wrapper.WrapTokensDropsSpace`. `wrap` packs with textwrap's `_wrap_chunks`, which these lines restate for `extra_space` false. |
| Wrapper.Wrap | formatflowed.py:603-604 | `wrapper.wrap(chunk)`; stated by `Wrapper.WrapShape`, `Wrapper.WrapEmpty` and `Wrapper.WrapKeepsText` |
| Wrapper.WrapTokensShape | formatflowed.py:765-799 | every emitted line is non-empty and does not end in whitespace; a continuation line does not start with whitespace; a line over the width is one token. `wrap` packs with textwrap's `_wrap_chunks`, which these lines restate for `extra_space` false. |
| Wrapper.WrapTokensDropsSpace | formatflowed.py:765-799 | the lines together are the input tokens with only whitespace tokens removed. `wrap` packs with textwrap's `_wrap_chunks`, which these lines restate for `extra_space` false. |
| Wrapper.DropsSpaceKeepsWords | formatflowed.py:765-799 | every word token of the input appears in the output, in order. `wrap` packs with textwrap's `_wrap_chunks`, which these lines restate for `extra_space` false. |
| Wrapper.WrapShape | formatflowed.py:765-799 | wrapped lines are non-empty and end in non-whitespace; continuation lines start with non-whitespace; a line over the width holds no whitespace. `wrap` packs with textwrap's `_wrap_chunks`, which these lines restate for `extra_space` false. |
| Wrapper.WrapEmpty | formatflowed.py:765-799 | the wrapper gives no lines exactly when the text is all whitespace. `wrap` packs with textwrap's `_wrap_chunks`, which these lines restate for `extra_space` false. |
| Wrapper.WrapKeepsText | formatflowed.py:765-799 | the non-whitespace characters are kept in order and nothing is added. `wrap` packs with textwrap's `_wrap_chunks`, which these lines restate for `extra_space` false. |
| Encoder.Normalize | formatflowed.py:587-588 | the newline and trailing-space cleanup; stated by `Encoder.NormalizeBreaksToSpaces`, `Encoder.NormalizeShape` and `Encoder.NormalizeIdempotent` |
| Encoder.NormalizeShape | formatflowed.py:588 | normalised text has no line breaks or trailing whitespace, keeps every non-whitespace character in order, and is empty iff the chunk is all whitespace |
| Encoder.NormalizeBreaksToSpaces | formatflowed.py:587-588 | normalising is removing trailing whitespace and then replacing every line boundary, "\r\n" counted once, by one space |
| Text.JoinSplitLines | formatflowed.py:588 | joining the `splitlines()` of a text that does not end in a line boundary with single spaces replaces each boundary by a space |
| Encoder.NormalizeIdempotent | formatflowed.py:588 | normalising twice is normalising once |
| Encoder.Spacestuff | formatflowed.py:347-386 | an empty line stays empty; otherwise one space is added exactly when forced or the line starts with ' ', '>' or "From"; a stuffed line never starts with '>' or "From" |
| Encoder.Segments | formatflowed.py:619-626 | the pieces of the 998-character chop; stated by `Encoder.SegmentsShape` and `Encoder.ChopLine` |
| Encoder.SegmentsShape | formatflowed.py:619-626 | the 998-character pieces give the line back; all are at most 998 long, all but the last exactly 998 |
| Encoder.ChopLine | formatflowed.py:622-626 | the chopping loop produces exactly those pieces |
| Encoder.FlowLine | formatflowed.py:613-614 | the flow space on every wrapped line unequal to the last; stated by `Encoder.ParagraphFlowSpace` and `Encoder.RepeatedLastLine` |
| Encoder.QuotedLines | formatflowed.py:608-626 | flow space, stuffing, quote marks and chopping for each wrapped line; stated by `Encoder.QuotedLinesFit` and `Encoder.EncodeLinesFit` |
| Encoder.EncodeLines | formatflowed.py:598-626 | the physical lines of one chunk before the CRLF join; stated by `Encoder.EncodeLinesFit`, `Encoder.FixedIsOneLine` and `Encoder.ParagraphFlowSpace` |
| Encoder.EncodeChunk | formatflowed.py:444-629 | `encodeChunk`; stated by `Encoder.EncodeLinesFit`, `Encoder.FixedIsOneLine`, `Encoder.ParagraphFlowSpace`, `Encoder.SeparatorIgnoresText` and `Encoder.EmptyParagraph` |
| Encoder.Encode | formatflowed.py:390-442 | `encode`; stated by `Encoder.EncodeFails`, `Encoder.EncodeIsTerminated` and `Encoder.HardLineLimit` |
| Encoder.EncodeFails | formatflowed.py:439-442 | encoding fails exactly when some paragraph's depth leaves width - depth - 2 <= 0 |
| Encoder.EncodeIsTerminated | formatflowed.py:439-442 | `encode` concatenates the chunk encodings: every physical line is followed by CRLF |
| Encoder.EncodeLinesFit | formatflowed.py:588-629 | a chunk's physical lines hold no line break and at most 998 characters |
| Encoder.HardLineLimit | formatflowed.py:619-629 | splitting the encoded text on CRLF gives pieces of at most 998 characters and a final empty piece |
| Encoder.QuotedLinesFit | formatflowed.py:608-626 | lines within the limit are not chopped: one physical line per logical line |
| Encoder.ParagraphFlowSpace | formatflowed.py:608-617 | each wrapped line becomes quote marks plus the stuffed line, with the flow space exactly on lines unequal to the last |
| Encoder.SeparatorIgnoresText | formatflowed.py:595-596 | a separator chunk is written as `">"*q`, a space when stuffing is forced, then "-- " and CRLF, whatever its text, when the marks and "-- " fit the 998-character limit |
| Encoder.FixedIgnoresWidth | formatflowed.py:598-606 | a fixed chunk's encoding does not depend on the width |
| Encoder.FixedIsOneLine | formatflowed.py:588-617 | a fixed chunk that fits is one physical line holding its normalised text |
| Encoder.EmptyParagraph | formatflowed.py:598-629 | an all-whitespace paragraph wraps to no lines and encodes to the empty string |
| Encoder.ParagraphLinesWithinWidth | formatflowed.py:598-617 | a paragraph line with its quote marks, stuffing and flow space fits the width unless it is one unbreakable word |
| Encoder.LongFixedLine | formatflowed.py:572-583 | a 1500-dash fixed line splits into pieces of 998, 502 and an empty piece |
| Encoder.RepeatedLastLine | formatflowed.py:613 | the last-line test compares values: an earlier line equal to the last gets no flow space |
| PlainText.MarkRun | formatflowed.py:863-864 | the greedy `([Q]\s?)+` loop moves on exactly when it starts at a quote character and stops before a character that is not one; a whitespace character right after the run means the run ended with a quote character and its optional whitespace, so that whitespace is always taken |
| PlainText.MarkRunShape | formatflowed.py:863-864 | every character of the run is a quote character or one whitespace character right after one |
| PlainText.MarkRunFrom | formatflowed.py:863-864 | the run from the start position has the form `([Q]\s?)+` allows: each character is a quote character or one whitespace character right after one |
| PlainText.QuoteMatch | formatflowed.py:862-864 | a quote prefix exists exactly when a quote character follows at most two whitespace characters; the prefix then holds a quote character, is not followed by one, and takes the optional whitespace after its last quote character; the prefix is at most two whitespace characters, as many as allow a quote character after them, followed by a run of quote characters each followed by at most one whitespace character |
| PlainText.QuoteMatchShape | formatflowed.py:862-864 | the matched prefix holds only quote characters and whitespace, the fact the parser's invariant needs; the exact form of the prefix is in `PlainText.QuoteMatch`'s contract |
| PlainText.QuoteMatchStopsAtSecondSpace | formatflowed.py:862-864 | on ">  >x" the prefix is "> ", and no match of the pattern reaches the second '>' |
| PlainText.CountIn | formatflowed.py:866-867 | `len(qm_findall(marks))`, the quote depth; its value on the marks is kept in step by `PlainText.QuotingSplitsLine` |
| PlainText.ParseStep | formatflowed.py:873-906 | one turn of the parsing loop; stated by `PlainText.QuoteChangeFlushes` and `PlainText.LineClassified` |
| PlainText.Classify | formatflowed.py:887-906 | the separator, fixed and paragraph branches of a turn; stated by `PlainText.LineClassified` and `PlainText.ClassifyAfterChange` |
| PlainText.ParseLines | formatflowed.py:873-909 | the parsing loop with its final flush; stated by `PlainText.ParseLinesKeepsText` and `PlainText.ParseChunksWellParsed` |
| PlainText.ParseChunks | formatflowed.py:802-909 | `_parseFlowableChunks`; stated by `PlainText.ParseChunksWellParsed` and `PlainText.ParseChunksKeepsText` |
| PlainText.QuotingSplitsLine | formatflowed.py:874-885 | the quoting in force is consistent: the depth counts the marks' quote characters, and the marks are a prefix of the line |
| PlainText.QuoteChangeFlushes | formatflowed.py:876-883 | a change of quoting yields the pending paragraph at the old depth when one is pending and no paragraph otherwise; either way the new marks are the matched prefix and the new depth counts their quote characters |
| PlainText.ClassifyAfterChange | formatflowed.py:876-906 | after a change of quoting the new state holds the new depth and marks, and the chunks start with the pending paragraph when there is one and hold no paragraph otherwise |
| PlainText.LineClassified | formatflowed.py:887-906 | a body whose rstrip is "--" becomes a separator, a blank or indented body becomes a fixed chunk, and any other body extends the paragraph |
| PlainText.ParseChunksWellParsed | formatflowed.py:873-909 | paragraphs are non-empty and start with non-whitespace; fixed chunks are blank or indented; separators are "--" up to trailing whitespace |
| PlainText.ParseLinesKeepsText | formatflowed.py:873-909 | the chunk texts together are the pending text followed by the line bodies |
| PlainText.BodiesUnquoted | formatflowed.py:885 | each body is its line with a prefix of quote characters and whitespace removed; the prefix is non-empty exactly when the quote pattern matches the line |
| PlainText.ParseChunksKeepsText | formatflowed.py:873-909 | the parser loses nothing but the quote prefixes, and removes one from every line the quote pattern matches |
| PlainText.ParagraphLinesJoin | formatflowed.py:905-906 | paragraph lines under unchanged quoting are concatenated with no separator |
| PlainText.ParagraphAtEnd | formatflowed.py:908-909 | a paragraph pending at the end of the input is yielded |
| Convert.ConvertToFlowed | formatflowed.py:725-746 | `convertToFlowed` fails exactly when a parsed paragraph is too deeply quoted; otherwise every physical line is within 998 characters and ends in CRLF |
| Convert.QuoteMarker | formatflowed.py:710-712 | there is no marker at depth 0 or with an empty quote; otherwise the marker is `depth` copies of the quote, character by character, and ends in a space, which is added exactly when the quote does not end in one |
| Convert.QuoteMarkerReadBack | formatflowed.py:710-712 | with the default '>', the decoder reads the marker back as the chunk's depth and finds the text unchanged |
| RoundTrip.EncodedLineRead | formatflowed.py:275-276 | the decoder recovers the depth and text of a line the encoder quoted and stuffed |
| RoundTrip.FixedReadBack | formatflowed.py:588-629 | a fixed chunk that fits is read back as itself with its text normalised, and leaves the decoder fresh for the lines after it |
| RoundTrip.SignatureReadBack | formatflowed.py:595-596 | a separator chunk is read back as "-- " at its depth and leaves the decoder fresh |
| RoundTrip.DecodeRest | formatflowed.py:608-617 | the later wrapped lines of a paragraph extend the open paragraph, and the last one closes it and leaves the decoder fresh |
| RoundTrip.DecodeLinesOfParagraph | formatflowed.py:598-617 | a paragraph's physical lines are read back as one paragraph of the wrapped lines joined by spaces, or a fixed chunk for one line, and leave the decoder fresh |
| RoundTrip.ParagraphReadBack | formatflowed.py:598-629 | if the paragraph has width left and every wrapped line fits the 998 limit and no earlier wrapped line equals the last or is "--", then its physical lines, whatever follows them, decode to nothing, one fixed chunk, or one paragraph of the wrapped lines joined by single spaces, by the number of wrapped lines, and leave the decoder fresh |
| RoundTrip.ChunkReadBack | formatflowed.py:444-629 | any chunk the decoder can read back: its physical lines decode to its read-back chunks, whatever lines follow |
| RoundTrip.AllLinesReadBack | formatflowed.py:439-442 | the physical lines of a chunk sequence decode chunk by chunk, in order: no chunk runs into the next |
| RoundTrip.DecodeEncode | formatflowed.py:390-442 | decoding what `encode` wrote gives every chunk back in order, as its read-back chunks, followed by the empty unquoted fixed chunk of the final CRLF |
| RoundTrip.DecodeEncodeFixed | formatflowed.py:588-629 | a fixed chunk that fits decodes to itself, normalised, plus the empty trailing chunk |
| RoundTrip.DecodeEncodeSignature | formatflowed.py:595-596 | a separator chunk decodes to "-- " at its depth, plus the empty trailing chunk |
| RoundTrip.DecodeEncodeParagraph | formatflowed.py:598-629 | a paragraph whose lines fit decodes to its wrapped lines joined by single spaces (a fixed chunk for one line, nothing for none), plus the empty trailing chunk |
| RoundTrip.ParagraphKeepsWords | formatflowed.py:588-612 | the decoded paragraph has the same non-whitespace characters, in order, as the text encoded |

## Left out

- Character-set transcoding: `.decode`/`.encode` with `character_set` and `error_handling`, and the encoding errors they raise. This is a foreign codec, so characters stand for bytes, and the 998 limit is counted in characters.
- The `extra_space=True` wrapping path. It relies on textwrap's hyphen-aware word splitting and long-word breaking, which are not part of this model.
- Tab expansion by textwrap's `_munge_whitespace` before `_wrap_chunks`. The wrapper works on the text as given, so a tab counts as one column rather than up to eight.
- textwrap's `max_lines`, `placeholder` and indent options. The encoder leaves them at their defaults, so they do not affect its lines.
- The `textwrap.wrap` call in `convertToWrapped`, and that function's loop over the decoded chunks. Only its quote-marker rule is modelled.
- The regular-expression engine. `QuoteMatch` follows the pattern's backtracking order, and `CountIn` counts the quote characters literally.
- PlainText.CountIn: the source builds the findall class without escaping, so quote characters such as '^', ']' or '-' would form a different class there. The model treats them as literal characters.
- PlainText.ParseChunks: requires a non-empty `quotechars`. An empty one gives the character class `[]`, which the regular-expression compiler rejects.
- Generators: every chunk stream is a finite sequence.
- The module-level `decode`/`encode` wrappers and the keyword-argument plumbing. `Config` holds `spacestuff_quoted` and `width`; `delete_space` is a parameter.
- `setup.py` and `formatflowed/setup.py`: packaging metadata.
- `additional_tests` and `_test`: the doctest runner.
- RoundTrip.DecodeEncode: assumes every chunk meets `RoundTrips`, the conditions of the three per-kind lemmas below. A chunk that breaks one is chopped, misread as a separator, or ends its paragraph early, and may run into the next chunk.
- RoundTrip.AllLinesReadBack: assumes `RoundTrips` of every chunk, for the same reason.
- RoundTrip.ChunkReadBack: assumes `RoundTrips` of the chunk, for the same reason.
- RoundTrip.FixedReadBack: assumes the same as `DecodeEncodeFixed` below.
- RoundTrip.SignatureReadBack: assumes the same as `DecodeEncodeSignature` below.
- RoundTrip.ParagraphReadBack: assumes the same as `DecodeEncodeParagraph` below.
- RoundTrip.DecodeEncodeParagraph: assumes every wrapped line fits the 998 limit. It also assumes no earlier wrapped line is "--" or equal to the last line. Otherwise a line is chopped, or reads back as a separator or as the paragraph's end.
- RoundTrip.DecodeEncodeFixed: assumes the quoted, stuffed line fits the 998 limit. A longer fixed line is chopped and reads back as several fixed chunks.
- RoundTrip.DecodeEncodeSignature: assumes the quote marks and "-- " fit the 998 limit.
