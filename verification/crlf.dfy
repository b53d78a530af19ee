/**
 Physical lines of a format=flowed body: `bytes.split(b'\r\n')` and the
 CRLF-terminated join the encoder produces.
 */
module Crlf {
  import opened Text

  const CRLF: string := "\r\n"

  /** No "\r\n" occurs anywhere in `s`. */
  predicate NoCrlf(s: string) {
    forall i :: 0 <= i < |s| - 1 ==> !(s[i] == '\r' && s[i + 1] == '\n')
  }

  /** `s.split(b'\r\n')`: always at least one piece, the last one after the final separator. */
  function Split(s: string): (r: seq<string>)
    decreases |s|
    ensures |r| > 0
  {
    if |s| < 2 then [s]
    else if s[0] == '\r' && s[1] == '\n' then
      [[]] + Split(s[2..])
    else
      var rest := Split(s[1..]);
      [[s[0]] + rest[0]] + rest[1..]
  }

  /** None of the pieces holds "\r\n". */
  predicate NoCrlfPieces(ls: seq<string>) {
    forall i :: 0 <= i < |ls| ==> NoCrlf(ls[i])
  }

  lemma NoCrlfPiecesCons(x: string, ys: seq<string>)
    requires NoCrlf(x) && NoCrlfPieces(ys)
    ensures NoCrlfPieces([x] + ys)
  {
    forall i | 1 <= i < |[x] + ys|
      ensures NoCrlf(([x] + ys)[i])
    {
      assert ([x] + ys)[i] == ys[i - 1];
    }
  }

  /** The pieces hold no "\r\n" and joining them with CRLF gives back the text. */
  lemma {:induction false} SplitJoinsBack(s: string)
    decreases |s|
    ensures JoinWith(CRLF, Split(s)) == s
    ensures NoCrlfPieces(Split(s))
  {
    if |s| < 2 {
    } else if s[0] == '\r' && s[1] == '\n' {
      SplitJoinsBack(s[2..]);
      SplitAtSeparator(s);
    } else {
      SplitJoinsBack(s[1..]);
      SplitAtOther(s);
    }
  }

  /** The step of `SplitJoinsBack` for a text starting with CRLF. */
  lemma SplitAtSeparator(s: string)
    requires |s| >= 2 && s[0] == '\r' && s[1] == '\n'
    requires JoinWith(CRLF, Split(s[2..])) == s[2..] && NoCrlfPieces(Split(s[2..]))
    ensures JoinWith(CRLF, Split(s)) == s && NoCrlfPieces(Split(s))
  {
    var rest := Split(s[2..]);
    assert Split(s) == [[]] + rest;
    assert s == [] + CRLF + JoinWith(CRLF, rest);
    NoCrlfPiecesCons([], rest);
  }

  /** The step of `SplitJoinsBack` for a text not starting with CRLF: its first character joins the first piece. */
  lemma SplitAtOther(s: string)
    requires |s| >= 2 && !(s[0] == '\r' && s[1] == '\n')
    requires JoinWith(CRLF, Split(s[1..])) == s[1..] && NoCrlfPieces(Split(s[1..]))
    ensures JoinWith(CRLF, Split(s)) == s && NoCrlfPieces(Split(s))
  {
    var rest := Split(s[1..]);
    assert Split(s) == [[s[0]] + rest[0]] + rest[1..];
    JoinCons(CRLF, s[0], rest);
    assert s == [s[0]] + s[1..];
    OtherPieces(s[0], rest);
  }

  /** Prefixing a character other than a CR that would pair with the next LF keeps the pieces free of "\r\n". */
  lemma OtherPieces(c: char, rest: seq<string>)
    requires |rest| > 0 && NoCrlfPieces(rest)
    requires |JoinWith(CRLF, rest)| > 0 ==> !(c == '\r' && JoinWith(CRLF, rest)[0] == '\n')
    ensures NoCrlfPieces([[c] + rest[0]] + rest[1..])
  {
    var first := [c] + rest[0];
    assert NoCrlf(first) by {
      if |rest[0]| > 0 {
        assert JoinWith(CRLF, rest)[0] == rest[0][0] by {
          if |rest| > 1 {
            assert JoinWith(CRLF, rest) == rest[0] + CRLF + JoinWith(CRLF, rest[1..]);
          }
        }
      }
      forall i | 0 <= i < |first| - 1
        ensures !(first[i] == '\r' && first[i + 1] == '\n')
      {
        if i > 0 {
          assert first[i] == rest[0][i - 1] && first[i + 1] == rest[0][i];
        }
      }
    }
    forall i | 0 <= i < |rest| - 1
      ensures NoCrlf(rest[1..][i])
    {
      assert rest[1..][i] == rest[i + 1];
    }
    NoCrlfPiecesCons(first, rest[1..]);
  }

  /** `CRLF.join(lines + [''])`: every line followed by its own CRLF. */
  function Terminate(lines: seq<string>): string {
    if |lines| == 0 then [] else lines[0] + CRLF + Terminate(lines[1..])
  }

  lemma {:induction false} TerminateIsJoin(lines: seq<string>)
    ensures Terminate(lines) == JoinWith(CRLF, lines + [[]])
  {
    if |lines| > 0 {
      TerminateIsJoin(lines[1..]);
      assert (lines + [[]])[1..] == lines[1..] + [[]];
    }
  }

  lemma {:induction false} TerminateAppend(a: seq<string>, b: seq<string>)
    ensures Terminate(a + b) == Terminate(a) + Terminate(b)
  {
    if |a| == 0 {
      assert a + b == b;
    } else {
      assert (a + b)[1..] == a[1..] + b;
      TerminateAppend(a[1..], b);
    }
  }

  /** A line free of "\r\n" ends at the first separator. */
  lemma {:induction false} SplitAtFirst(a: string, b: string)
    requires NoCrlf(a)
    decreases |a|
    ensures Split(a + CRLF + b) == [a] + Split(b)
  {
    var s := a + CRLF + b;
    if |a| == 0 {
      assert s[2..] == b;
    } else {
      assert s[1..] == a[1..] + CRLF + b;
      SplitAtFirst(a[1..], b);
      assert !(s[0] == '\r' && s[1] == '\n') by {
        if |a| > 1 {
          assert s[1] == a[1];
        }
      }
      assert [a[0]] + a[1..] == a;
    }
  }

  /** Splitting the encoder's output gives back its lines, plus the empty piece after the last CRLF. */
  lemma {:induction false} SplitTerminate(lines: seq<string>)
    requires NoCrlfPieces(lines)
    ensures Split(Terminate(lines)) == lines + [[]]
  {
    if |lines| == 0 {
    } else {
      SplitTerminate(lines[1..]);
      SplitAtFirst(lines[0], Terminate(lines[1..]));
      assert [lines[0]] + (lines[1..] + [[]]) == lines + [[]];
    }
  }

  /** A piece free of "\r\n" is not split. */
  lemma {:induction false} SplitWhole(s: string)
    requires NoCrlf(s)
    decreases |s|
    ensures Split(s) == [s]
  {
    if |s| >= 2 {
      SplitWhole(s[1..]);
      assert [s[0]] + s[1..] == s;
    }
  }

  /** Splitting undoes joining, for pieces free of "\r\n". */
  lemma {:induction false} SplitJoin(lines: seq<string>)
    requires |lines| > 0
    requires NoCrlfPieces(lines)
    ensures Split(JoinWith(CRLF, lines)) == lines
  {
    if |lines| == 1 {
      SplitWhole(lines[0]);
    } else {
      SplitJoin(lines[1..]);
      SplitAtFirst(lines[0], JoinWith(CRLF, lines[1..]));
      assert [lines[0]] + lines[1..] == lines;
    }
  }
}
