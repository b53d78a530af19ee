/**
 The chunk model shared by the decoder, the encoder and the plain-text parser:
 a chunk is a kind tag, a quote depth and an unwrapped, unquoted text.
 */
module Chunks {

  datatype Option<T> = None | Some(value: T)

  /** PARAGRAPH, FIXED and SIGNATURE_SEPARATOR. */
  datatype Kind = Paragraph | Fixed | SignatureSeparator

  datatype Chunk = Chunk(kind: Kind, depth: nat, text: string)

  /** The only failure of the encoder: the ValueError raised when quoting leaves no room for text. */
  datatype EncodeError = NotEnoughWidth

  datatype Result<T> = Ok(value: T) | Err(error: EncodeError)

  /** The signature separator line, "-- ". */
  const SignatureLine: string := "-- "

  /** The texts of a chunk sequence, concatenated. */
  function AllText(cs: seq<Chunk>): string {
    if |cs| == 0 then [] else cs[0].text + AllText(cs[1..])
  }

  lemma {:induction false} AllTextAppend(a: seq<Chunk>, b: seq<Chunk>)
    ensures AllText(a + b) == AllText(a) + AllText(b)
  {
    if |a| == 0 {
      assert a + b == b;
    } else {
      assert (a + b)[1..] == a[1..] + b;
      AllTextAppend(a[1..], b);
    }
  }

  lemma AllTextOne(c: Chunk)
    ensures AllText([c]) == c.text
  {
    assert AllText([c]) == c.text + AllText([]);
  }
}
