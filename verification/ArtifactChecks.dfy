/** Static checks of SQL migrations (setc/capitalization/artifact_checks.py). */
module ArtifactChecks {
  import opened Sequences
  import opened Wrappers

  // ----- scrubbing -----

  predicate StartsComment(s: string) {
    |s| >= 2 && s[0] == '-' && s[1] == '-'
  }

  function SkipLine(s: string): (r: string)
    ensures |r| <= |s|
  {
    if s == "" || s[0] == '\n' then s else SkipLine(s[1..])
  }

  /** The line-comment pass: every `--` is dropped with the rest of its line. */
  function StripLineComments(s: string): string
    decreases |s|
  {
    if s == "" then ""
    else if StartsComment(s) then StripLineComments(SkipLine(s[2..]))
    else [s[0]] + StripLineComments(s[1..])
  }

  /** What follows the first `*` `/`, if there is one. */
  function SkipBlock(s: string): (r: Option<string>)
    ensures r.Some? ==> |r.value| + 2 <= |s|
  {
    if |s| < 2 then None
    else if s[0] == '*' && s[1] == '/' then Some(s[2..])
    else SkipBlock(s[1..])
  }

  predicate StartsBlock(s: string) {
    |s| >= 2 && s[0] == '/' && s[1] == '*'
  }

  predicate ClosesBlock(s: string) {
    StartsBlock(s) && SkipBlock(s[2..]).Some?
  }

  function AfterBlock(s: string): (r: string)
    requires ClosesBlock(s)
    ensures |r| < |s|
  {
    SkipBlock(s[2..]).value
  }

  /** The block-comment pass: shortest match from each opener; an unclosed opener stays. */
  function StripBlockComments(s: string): string
    decreases |s|
  {
    if s == "" then ""
    else if ClosesBlock(s) then StripBlockComments(AfterBlock(s))
    else [s[0]] + StripBlockComments(s[1..])
  }

  /**
   Where the string literal with its body at `j` ends, if it does.  A doubled quote belongs
   to the body unless no later quote closes the literal, when its first half closes it.
   */
  function CloseQuote(s: string, j: nat): (r: nat)
    requires j <= |s|
    ensures r == 0 || j < r <= |s|
    decreases |s| - j
  {
    if j == |s| then 0
    else if s[j] != '\'' then CloseQuote(s, j + 1)
    else if j + 1 < |s| && s[j + 1] == '\'' && CloseQuote(s, j + 2) != 0 then CloseQuote(s, j + 2)
    else j + 1
  }

  /** The string pass: every literal becomes the empty literal. */
  function EmptyStrings(s: string): string
    decreases |s|
  {
    if s == "" then ""
    else if s[0] == '\'' && CloseQuote(s, 1) != 0 then "''" + EmptyStrings(s[CloseQuote(s, 1)..])
    else [s[0]] + EmptyStrings(s[1..])
  }

  /** What the two comment passes make of a text. */
  function Uncommented(s: string): string {
    StripBlockComments(StripLineComments(s))
  }

  function Scrub(sql: string): string {
    EmptyStrings(Uncommented(sql))
  }

  // ----- the line-comment pass -----

  ghost predicate NoDoubleDash(s: string) {
    forall i :: 0 <= i < |s| - 1 ==> !(s[i] == '-' && s[i + 1] == '-')
  }

  /** No `--` is left, not even one put together by a removal. */
  lemma {:induction false} NoCommentLeft(s: string)
    ensures NoDoubleDash(StripLineComments(s))
    decreases |s|
  {
    if s != "" {
      if StartsComment(s) {
        NoCommentLeft(SkipLine(s[2..]));
      } else {
        NoCommentLeft(s[1..]);
      }
    }
  }

  lemma {:induction false} StripShortens(s: string)
    ensures |StripLineComments(s)| <= |s|
    ensures |StripLineComments(s)| == |s| ==> NoDoubleDash(s)
    decreases |s|
  {
    if s != "" {
      if StartsComment(s) {
        StripShortens(SkipLine(s[2..]));
      } else {
        StripShortens(s[1..]);
        if |StripLineComments(s)| == |s| {
          forall i | 0 <= i < |s| - 1 ensures !(s[i] == '-' && s[i + 1] == '-') {
            if i > 0 {
              assert s[1..][i - 1] == s[i] && s[1..][i] == s[i + 1];
            }
          }
        }
      }
    }
  }

  lemma {:induction false} CleanTextKept(s: string)
    requires NoDoubleDash(s)
    ensures StripLineComments(s) == s
  {
    if s != "" {
      forall i | 0 <= i < |s[1..]| - 1 ensures !(s[1..][i] == '-' && s[1..][i + 1] == '-') {
        assert s[1..][i] == s[i + 1] && s[1..][i + 1] == s[i + 2];
      }
      CleanTextKept(s[1..]);
    }
  }

  /** The pass changes exactly the texts with a comment in them, and a second pass changes nothing. */
  lemma LineCommentPass(s: string)
    ensures StripLineComments(s) == s <==> NoDoubleDash(s)
    ensures StripLineComments(StripLineComments(s)) == StripLineComments(s)
  {
    if NoDoubleDash(s) {
      CleanTextKept(s);
    }
    StripShortens(s);
    NoCommentLeft(s);
    CleanTextKept(StripLineComments(s));
  }

  /** The part of a line before its first `--`. */
  function CutLine(line: string): string {
    if line == "" || StartsComment(line) then "" else [line[0]] + CutLine(line[1..])
  }

  lemma {:induction false} SkipWholeLine(line: string, rest: string)
    requires '\n' !in line
    ensures SkipLine(Broken(line, rest)) == "\n" + rest
  {
    if line == "" {
      assert Broken(line, rest) == "\n" + rest;
    } else {
      BreakAfter(line, rest);
      assert line[0] in line;
      SkipWholeLine(line[1..], rest);
    }
  }

  /** The text of a line, its break and what follows. */
  function Broken(line: string, rest: string): string {
    line + ("\n" + rest)
  }

  /** The pass works line by line: each line is cut at its first `--`, and the line breaks stay. */
  lemma {:induction false} LineByLine(line: string, rest: string)
    requires '\n' !in line
    ensures StripLineComments(Broken(line, rest)) == Broken(CutLine(line), StripLineComments(rest))
    decreases |line|
  {
    if line == "" {
      BreakKept(rest);
    } else {
      BreakAfter(line, rest);
      if StartsComment(line) {
        SkipWholeLine(line[2..], rest);
        BreakKept(rest);
      } else {
        LineByLine(line[1..], rest);
        LineStep(Broken(line, rest));
        Prepend(line[0], CutLine(line[1..]), "\n" + StripLineComments(rest));
      }
    }
  }

  lemma BreakKept(rest: string)
    ensures Broken("", rest) == "\n" + rest
    ensures StripLineComments("\n" + rest) == "\n" + StripLineComments(rest)
  {
    TailOfCons('\n', rest);
    LineStep("\n" + rest);
  }

  lemma BreakAfter(line: string, rest: string)
    requires line != ""
    ensures Broken(line, rest)[0] == line[0] && Broken(line, rest)[1..] == Broken(line[1..], rest)
    ensures StartsComment(Broken(line, rest)) <==> StartsComment(line)
    ensures |line| >= 2 ==> Broken(line, rest)[2..] == Broken(line[2..], rest)
  {
    assert Broken(line, rest)[1] == if |line| == 1 then '\n' else line[1];
  }

  /** The last line of a text has no line break to keep, and is cut likewise. */
  lemma {:induction false} LastLineCut(line: string)
    requires '\n' !in line
    ensures StripLineComments(line) == CutLine(line)
  {
    if StartsComment(line) {
      SkipLastLine(line[2..]);
    } else if line != "" {
      LastLineCut(line[1..]);
    }
  }

  lemma {:induction false} SkipLastLine(line: string)
    requires '\n' !in line
    ensures SkipLine(line) == ""
  {
    if line != "" {
      assert line[0] in line;
      SkipLastLine(line[1..]);
    }
  }

  // ----- literals -----

  /** What may stand between the quotes of a literal: every quote is doubled. */
  predicate Doubled(s: string) {
    if s == "" then true
    else if s[0] != '\'' then Doubled(s[1..])
    else |s| >= 2 && s[1] == '\'' && Doubled(s[2..])
  }

  predicate QuoteFirst(s: string) {
    s != "" && s[0] == '\''
  }

  lemma {:induction false} CloseAfterBody(s: string, j: nat, n: nat)
    requires j <= n < |s| && s[n] == '\'' && !QuoteFirst(s[n + 1..])
    requires Doubled(s[j..n])
    ensures CloseQuote(s, j) == n + 1
    decreases n - j
  {
    if j < n {
      assert s[j..n][1..] == s[j + 1..n];
      if s[j] != '\'' {
        CloseAfterBody(s, j + 1, n);
      } else {
        assert s[j..n][2..] == s[j + 2..n] && s[j + 1] == s[j..n][1];
        CloseAfterBody(s, j + 2, n);
      }
    } else {
      assert n + 1 < |s| ==> s[n + 1..][0] == s[n + 1];
    }
  }

  /** The string pass alone: a literal not followed by a further quote becomes the empty literal. */
  lemma LiteralEmptied(body: string, rest: string)
    requires Doubled(body) && !QuoteFirst(rest)
    ensures EmptyStrings("'" + body + "'" + rest) == "''" + EmptyStrings(rest)
  {
    var s := "'" + body + "'" + rest;
    var n := |body| + 1;
    assert s[1..n] == body && s[n + 1..] == rest;
    CloseAfterBody(s, 1, n);
  }

  function Quotes(s: string): nat {
    if s == "" then 0 else (if s[0] == '\'' then 1 else 0) + Quotes(s[1..])
  }

  lemma {:induction false} QuotesAppend(a: string, b: string)
    ensures Quotes(a + b) == Quotes(a) + Quotes(b)
  {
    if a == "" {
      assert a + b == b;
    } else {
      QuotesAppend(a[1..], b);
      assert (a + b)[1..] == a[1..] + b;
    }
  }

  lemma {:induction false} DoubledEven(s: string)
    requires Doubled(s)
    ensures Quotes(s) % 2 == 0
    decreases |s|
  {
    if s != "" {
      if s[0] != '\'' {
        DoubledEven(s[1..]);
      } else {
        assert s[1..][1..] == s[2..];
        DoubledEven(s[2..]);
      }
    }
  }

  /** A closing quote leaves an odd number of quotes from the body on. */
  lemma {:induction false} ClosedOdd(s: string, j: nat)
    requires j <= |s| && CloseQuote(s, j) != 0
    ensures Quotes(s[j..CloseQuote(s, j)]) % 2 == 1
    decreases |s| - j
  {
    var e := CloseQuote(s, j);
    var t := s[j..e];
    if s[j] != '\'' {
      ClosedOdd(s, j + 1);
      assert t[1..] == s[j + 1..e];
    } else if j + 1 < |s| && s[j + 1] == '\'' && CloseQuote(s, j + 2) != 0 {
      ClosedOdd(s, j + 2);
      assert t[1..][1..] == s[j + 2..e];
    } else {
      assert t[1..] == "";
    }
  }

  predicate SameParity(s: string, t: string) {
    Quotes(s) % 2 == Quotes(t) % 2
  }

  /** The string pass keeps the parity of the quotes. */
  lemma {:induction false} ParityKept(s: string)
    ensures SameParity(EmptyStrings(s), s)
    decreases |s|
  {
    if s != "" {
      var e := CloseQuote(s, 1);
      if s[0] == '\'' && e != 0 {
        ParityKept(s[e..]);
        LiteralQuotes(s);
        EmptyLiteralQuotes(EmptyStrings(s[e..]));
      } else {
        ParityKept(s[1..]);
        ParityCons(s, EmptyStrings(s[1..]));
      }
    }
  }

  lemma ParityCons(s: string, t: string)
    requires s != "" && SameParity(t, s[1..])
    ensures SameParity([s[0]] + t, s)
  {
    TailOfCons(s[0], t);
  }

  lemma LiteralQuotes(s: string)
    requires QuoteFirst(s) && CloseQuote(s, 1) != 0
    ensures Quotes(s) % 2 == Quotes(s[CloseQuote(s, 1)..]) % 2
  {
    var e := CloseQuote(s, 1);
    ClosedOdd(s, 1);
    assert s[1..] == s[1..e] + s[e..];
    QuotesAppend(s[1..e], s[e..]);
  }

  lemma EmptyLiteralQuotes(rest: string)
    ensures Quotes("''" + rest) == 2 + Quotes(rest)
  {
    var t := "''" + rest;
    assert t[1..] == "'" + rest && t[1..][1..] == rest;
  }

  // ----- literals after the comment passes -----

  /** Every line comment begun in the text ends in it. */
  predicate LineCommentsEnd(s: string)
    decreases |s|
  {
    if s == "" then true
    else if StartsComment(s) then SkipLine(s[2..]) != "" && LineCommentsEnd(SkipLine(s[2..]))
    else LineCommentsEnd(s[1..])
  }

  /** Every block comment begun in the text ends in it. */
  predicate BlockCommentsEnd(s: string)
    decreases |s|
  {
    if s == "" then true
    else if StartsBlock(s) then ClosesBlock(s) && BlockCommentsEnd(AfterBlock(s))
    else BlockCommentsEnd(s[1..])
  }

  /** Comments begun in a text and ended in it do not depend on what follows a quote after it. */
  predicate CommentsEnd(s: string) {
    LineCommentsEnd(s) && BlockCommentsEnd(StripLineComments(s))
  }

  lemma {:induction false} DoubledFrom(s: string, n: nat)
    requires Doubled(s) && n <= |s| && !QuoteFirst(s[n..])
    ensures Doubled(s[n..])
    decreases |s|
  {
    if n > 0 {
      assert s[1..][n - 1..] == s[n..];
      if s[0] != '\'' {
        DoubledFrom(s[1..], n - 1);
      } else {
        assert s[n..] != "" ==> s[n] == s[n..][0];
        if n > 1 {
          assert s[2..][n - 2..] == s[n..];
          DoubledFrom(s[2..], n - 2);
        }
      }
    }
  }

  lemma {:induction false} SkipLineIs(s: string)
    ensures |SkipLine(s)| <= |s| && s[|s| - |SkipLine(s)|..] == SkipLine(s)
    ensures SkipLine(s) != "" ==> SkipLine(s)[0] == '\n'
  {
    if s != "" && s[0] != '\n' {
      SkipLineIs(s[1..]);
    }
  }

  lemma {:induction false} SkipLineExtends(s: string, tail: string)
    requires SkipLine(s) != "" || (s == "" && (tail == "" || tail[0] == '\n'))
    ensures SkipLine(s + tail) == SkipLine(s) + tail
  {
    if s == "" {
      assert s + tail == tail;
    } else if s[0] != '\n' {
      assert (s + tail)[1..] == s[1..] + tail;
      SkipLineExtends(s[1..], tail);
    }
  }

  lemma LinesAfterPair(s: string)
    requires |s| >= 2 && s[0] == '\'' && s[1] == '\''
    ensures StripLineComments(s) == "''" + StripLineComments(s[2..])
  {
    assert s[1..][0] == '\'' && s[1..][1..] == s[2..];
    LineStep(s);
    LineStep(s[1..]);
    AppendAssociative("'", "'", StripLineComments(s[2..]));
  }

  lemma BlocksAfterPair(s: string)
    requires |s| >= 2 && s[0] == '\'' && s[1] == '\''
    ensures StripBlockComments(s) == "''" + StripBlockComments(s[2..])
  {
    assert s[1..][0] == '\'' && s[1..][1..] == s[2..];
    BlockStep(s);
    BlockStep(s[1..]);
    AppendAssociative("'", "'", StripBlockComments(s[2..]));
  }

  /** The line pass leaves quotes doubled: no comment begins or ends between two quotes. */
  lemma {:induction false} DoubledAfterLines(s: string)
    requires Doubled(s)
    ensures Doubled(StripLineComments(s))
    decreases |s|
  {
    if s != "" {
      if StartsComment(s) {
        var t := SkipLine(s[2..]);
        SkipLineIs(s[2..]);
        assert s[|s| - |t|..] == t;
        DoubledFrom(s, |s| - |t|);
        DoubledAfterLines(t);
      } else if s[0] != '\'' {
        DoubledAfterLines(s[1..]);
      } else {
        DoubledAfterLines(s[2..]);
        LinesAfterPair(s);
      }
    }
  }

  lemma {:induction false} SkipBlockIs(s: string)
    requires SkipBlock(s).Some?
    ensures var r := SkipBlock(s).value;
            |r| + 2 <= |s| && s[|s| - |r| - 1] == '/' && s[|s| - |r|..] == r
  {
    if !(s[0] == '*' && s[1] == '/') {
      SkipBlockIs(s[1..]);
    }
  }

  lemma DoubledAfterBlock(s: string)
    requires Doubled(s) && ClosesBlock(s)
    ensures Doubled(AfterBlock(s))
  {
    var r := AfterBlock(s);
    SkipBlockIs(s[2..]);
    var n := |s| - |r| - 1;
    assert s[n..][0] == s[n] && s[n..][1..] == s[n + 1..] == r;
    DoubledFrom(s, n);
  }

  /** So does the block pass. */
  lemma {:induction false} DoubledAfterBlocks(s: string)
    requires Doubled(s)
    ensures Doubled(StripBlockComments(s))
    decreases |s|
  {
    if s != "" {
      if ClosesBlock(s) {
        DoubledAfterBlock(s);
        DoubledAfterBlocks(AfterBlock(s));
      } else if s[0] != '\'' {
        DoubledAfterBlocks(s[1..]);
      } else {
        DoubledAfterBlocks(s[2..]);
        BlocksAfterPair(s);
      }
    }
  }

  /** What follows a quote after a text has no say in how the text begins. */
  lemma QuoteAfter(s: string, tail: string)
    requires s != "" && QuoteFirst(tail)
    ensures (s + tail)[0] == s[0] && (s + tail)[1..] == s[1..] + tail
    ensures StartsComment(s + tail) <==> StartsComment(s)
    ensures StartsBlock(s + tail) <==> StartsBlock(s)
    ensures |s| >= 2 ==> (s + tail)[1] == s[1] && (s + tail)[2..] == s[2..] + tail
  {
    if |s| == 1 {
      assert (s + tail)[1] == tail[0];
    }
  }

  /** A quote separates: the line pass treats what precedes and what follows it on their own. */
  lemma {:induction false} LinesSplitAtQuote(s: string, tail: string)
    requires LineCommentsEnd(s) && QuoteFirst(tail)
    ensures StripLineComments(s + tail) == StripLineComments(s) + StripLineComments(tail)
    decreases |s|
  {
    if s == "" {
      assert s + tail == tail;
    } else {
      QuoteAfter(s, tail);
      if StartsComment(s) {
        SkipLineExtends(s[2..], tail);
        LinesSplitAtQuote(SkipLine(s[2..]), tail);
      } else {
        LinesSplitAtQuote(s[1..], tail);
        LineStep(s + tail);
        Prepend(s[0], StripLineComments(s[1..]), StripLineComments(tail));
      }
    }
  }

  lemma LineStep(s: string)
    requires s != "" && !StartsComment(s)
    ensures StripLineComments(s) == [s[0]] + StripLineComments(s[1..])
  {
  }

  lemma BlockStep(s: string)
    requires s != "" && !StartsBlock(s)
    ensures StripBlockComments(s) == [s[0]] + StripBlockComments(s[1..])
  {
  }

  lemma {:induction false} SkipBlockExtends(s: string, tail: string)
    requires SkipBlock(s).Some?
    ensures SkipBlock(s + tail) == Some(SkipBlock(s).value + tail)
  {
    if s[0] == '*' && s[1] == '/' {
      assert (s + tail)[2..] == s[2..] + tail;
    } else {
      ConsAppend(s, tail);
      assert (s + tail)[1] == s[1];
      SkipBlockExtends(s[1..], tail);
    }
  }

  predicate BlocksSplit(s: string, tail: string) {
    StripBlockComments(s + tail) == StripBlockComments(s) + StripBlockComments(tail)
  }

  lemma BlocksSplitClosed(s: string, tail: string)
    requires ClosesBlock(s) && QuoteFirst(tail)
    requires BlocksSplit(AfterBlock(s), tail)
    ensures BlocksSplit(s, tail)
  {
    ClosedBlockFirst(s, tail);
    BlockSkip(s);
  }

  lemma BlockSkip(s: string)
    requires ClosesBlock(s)
    ensures StripBlockComments(s) == StripBlockComments(AfterBlock(s))
  {
  }

  lemma BlocksSplitPlain(s: string, tail: string)
    requires s != "" && !StartsBlock(s) && QuoteFirst(tail)
    requires BlocksSplit(s[1..], tail)
    ensures BlocksSplit(s, tail)
  {
    QuoteAfter(s, tail);
    BlockStep(s + tail);
    Prepend(s[0], StripBlockComments(s[1..]), StripBlockComments(tail));
  }

  /** The block pass likewise. */
  lemma {:induction false} BlocksSplitAtQuote(s: string, tail: string)
    requires BlockCommentsEnd(s) && QuoteFirst(tail)
    ensures BlocksSplit(s, tail)
    decreases |s|
  {
    if s == "" {
      NothingSplits(tail);
    } else if StartsBlock(s) {
      BlocksSplitAtQuote(AfterBlock(s), tail);
      BlocksSplitClosed(s, tail);
    } else {
      BlocksSplitAtQuote(s[1..], tail);
      BlocksSplitPlain(s, tail);
    }
  }

  lemma NothingSplits(tail: string)
    ensures BlocksSplit("", tail)
  {
    assert "" + tail == tail;
  }

  lemma UncommentedQuote(s: string)
    ensures Uncommented("'" + s) == "'" + Uncommented(s)
  {
    assert ("'" + s)[1..] == s;
    assert ("'" + StripLineComments(s))[1..] == StripLineComments(s);
  }

  lemma UncommentedSplits(s: string, tail: string)
    requires CommentsEnd(s) && QuoteFirst(tail)
    ensures Uncommented(s + tail) == Uncommented(s) + Uncommented(tail)
  {
    LinesSplitAtQuote(s, tail);
    BlocksSplitAtQuote(StripLineComments(s), StripLineComments(tail));
  }

  lemma DoubledUncommented(s: string)
    requires Doubled(s)
    ensures Doubled(Uncommented(s))
  {
    DoubledAfterLines(s);
    DoubledAfterBlocks(StripLineComments(s));
  }

  lemma UncommentedLiteral(body: string, rest: string)
    requires CommentsEnd(body)
    ensures Uncommented("'" + body + "'" + rest) == "'" + Uncommented(body) + "'" + Uncommented(rest)
  {
    var after := "'" + rest;
    assert "'" + body + "'" + rest == "'" + (body + after);
    UncommentedQuote(body + after);
    UncommentedSplits(body, after);
    UncommentedQuote(rest);
    Regroup(Uncommented(body), Uncommented(rest));
  }

  lemma Regroup(s: string, rest: string)
    ensures "'" + (s + ("'" + rest)) == "'" + s + "'" + rest
  {
  }

  /** A literal is emptied, whatever it holds, if the comments begun in it end in it. */
  lemma LiteralErased(body: string, rest: string)
    requires Doubled(body) && CommentsEnd(body) && !QuoteFirst(Uncommented(rest))
    ensures Scrub("'" + body + "'" + rest) == "''" + Scrub(rest)
  {
    UncommentedLiteral(body, rest);
    DoubledUncommented(body);
    LiteralEmptied(Uncommented(body), Uncommented(rest));
  }

  lemma {:induction false} EmptyAfterCode(code: string, t: string)
    requires '\'' !in code
    ensures EmptyStrings(code + t) == code + EmptyStrings(t)
  {
    if code == "" {
      assert code + t == t;
    } else {
      assert code[0] in code && (code + t)[0] == code[0] && (code + t)[1..] == code[1..] + t;
      EmptyAfterCode(code[1..], t);
    }
  }

  /** Code before a literal, its comments taken out, is kept and does not disturb the literal. */
  lemma CodeBeforeLiteral(code: string, t: string)
    requires CommentsEnd(code) && '\'' !in Uncommented(code) && QuoteFirst(t)
    ensures Scrub(code + t) == Uncommented(code) + Scrub(t)
  {
    UncommentedSplits(code, t);
    EmptyAfterCode(Uncommented(code), Uncommented(t));
  }

  /** An open line comment takes the closing quote with it. */
  lemma {:induction false} OpenLineComment(s: string)
    requires !LineCommentsEnd(s)
    ensures StripLineComments(s + "'") == StripLineComments(s)
    decreases |s|
  {
    QuoteAfter(s, "'");
    if !StartsComment(s) {
      OpenLineComment(s[1..]);
      LineStep(s + "'");
    } else if SkipLine(s[2..]) == "" {
      SkipToEnd(s[2..]);
    } else {
      SkipLineExtends(s[2..], "'");
      OpenLineComment(SkipLine(s[2..]));
    }
  }

  lemma {:induction false} SkipToEnd(s: string)
    requires SkipLine(s) == ""
    ensures SkipLine(s + "'") == ""
  {
    if s != "" {
      assert (s + "'")[1..] == s[1..] + "'";
      SkipToEnd(s[1..]);
    } else {
      assert (s + "'")[1..] == "";
    }
  }

  lemma {:induction false} OpenBlockEnd(s: string)
    requires SkipBlock(s).None?
    ensures SkipBlock(s + "'*/") == Some("")
  {
    var t := s + "'*/";
    if s == "" {
      assert t == "'*/" && t[1..] == "*/" && "*/"[2..] == "";
    } else {
      ConsAppend(s, "'*/");
      assert t[1] == if |s| == 1 then '\'' else s[1];
      OpenBlockEnd(s[1..]);
    }
  }

  lemma PlainBeforeQuote(s: string, tail: string)
    requires s != "" && !StartsBlock(s) && s[0] != '\'' && QuoteFirst(tail)
    ensures Quotes(StripBlockComments(s + tail)) == Quotes(StripBlockComments(s[1..] + tail))
  {
    QuoteAfter(s, tail);
    BlockStep(s + tail);
    TailOfCons(s[0], StripBlockComments(s[1..] + tail));
  }

  lemma PairBeforeQuote(s: string, tail: string)
    requires |s| >= 2 && s[0] == '\'' && s[1] == '\'' && QuoteFirst(tail)
    ensures Quotes(StripBlockComments(s + tail)) == 2 + Quotes(StripBlockComments(s[2..] + tail))
  {
    QuoteAfter(s, tail);
    BlocksAfterPair(s + tail);
    EmptyLiteralQuotes(StripBlockComments(s[2..] + tail));
  }

  lemma ClosedBlockFirst(s: string, tail: string)
    requires ClosesBlock(s) && QuoteFirst(tail)
    ensures StripBlockComments(s + tail) == StripBlockComments(AfterBlock(s) + tail)
  {
    QuoteAfter(s, tail);
    SkipBlockExtends(s[2..], tail);
    BlockSkip(s + tail);
  }

  lemma OpenBlockFirst(s: string)
    requires StartsBlock(s) && !ClosesBlock(s)
    ensures StripBlockComments(s + "'*/") == ""
  {
    QuoteAfter(s, "'*/");
    OpenBlockEnd(s[2..]);
    BlockSkip(s + "'*/");
  }

  /** An open block comment ends at the first end after the literal, and takes the closing quote. */
  lemma {:induction false} OpenBlockComment(s: string)
    requires Doubled(s) && !BlockCommentsEnd(s)
    ensures Quotes(StripBlockComments(s + "'*/")) % 2 == 0
    decreases |s|
  {
    if ClosesBlock(s) {
      ClosedBlockFirst(s, "'*/");
      DoubledAfterBlock(s);
      OpenBlockComment(AfterBlock(s));
    } else if StartsBlock(s) {
      OpenBlockFirst(s);
    } else if s[0] != '\'' {
      PlainBeforeQuote(s, "'*/");
      OpenBlockComment(s[1..]);
    } else {
      PairBeforeQuote(s, "'*/");
      OpenAfterPair(s);
      OpenBlockComment(s[2..]);
    }
  }

  lemma OpenAfterPair(s: string)
    requires |s| >= 2 && s[0] == '\'' && s[1] == '\'' && !BlockCommentsEnd(s)
    ensures !BlockCommentsEnd(s[2..])
  {
    assert s[1..][1..] == s[2..];
  }

  /** The literal leaves only an empty one behind, whatever code follows it. */
  ghost predicate NeverSeen(body: string) {
    forall rest :: !QuoteFirst(Uncommented(rest)) ==> Scrub("'" + body + "'" + rest) == "''" + Scrub(rest)
  }

  /** One quote in front of a text with doubled quotes cannot become an even number of them. */
  lemma OddQuotes(s: string, t: string)
    requires Quotes(s) % 2 == 0 && Quotes(t) % 2 == 0
    ensures EmptyStrings("'" + s) != t
  {
    assert ("'" + s)[1..] == s;
    ParityKept("'" + s);
  }

  lemma TwoQuotes()
    ensures Quotes("''") == 2
  {
    EmptyLiteralQuotes("");
    assert "''" + "" == "''";
  }

  lemma OpenLineCommentSeen(body: string)
    requires Doubled(body) && !LineCommentsEnd(body)
    ensures Scrub("'" + body + "'") != "''"
  {
    AppendAssociative("'", body, "'");
    UncommentedQuote(body + "'");
    OpenLineComment(body);
    DoubledUncommented(body);
    DoubledEven(Uncommented(body));
    TwoQuotes();
    OddQuotes(Uncommented(body), "''");
  }

  lemma UncommentedOpen(body: string)
    requires Doubled(body) && LineCommentsEnd(body) && !BlockCommentsEnd(StripLineComments(body))
    ensures Quotes(Uncommented(body + "'*/")) % 2 == 0
  {
    LinesSplitAtQuote(body, "'*/");
    CloserAlone();
    DoubledAfterLines(body);
    OpenBlockComment(StripLineComments(body));
  }

  lemma CloserRegrouped(body: string)
    ensures "'" + body + "'" + "*/" == "'" + (body + "'*/")
  {
  }

  lemma OpenBlockCommentSeen(body: string)
    requires Doubled(body) && LineCommentsEnd(body) && !BlockCommentsEnd(StripLineComments(body))
    ensures Scrub("'" + body + "'" + "*/") != "''*/"
  {
    CloserRegrouped(body);
    UncommentedQuote(body + "'*/");
    UncommentedOpen(body);
    CloserAlone();
    EmptyLiteralQuotes("*/");
    assert "''" + "*/" == "''*/";
    OddQuotes(Uncommented(body + "'*/"), "''*/");
  }

  lemma CloserAlone()
    ensures StripLineComments("'*/") == "'*/" && Uncommented("*/") == "*/"
    ensures Scrub("*/") == "*/" && Quotes("*/") == 0
  {
    assert "'*/"[1..] == "*/" && "*/"[1..] == "/" && "/"[1..] == "";
    assert StripLineComments("/") == "/" && StripLineComments("*/") == "*/";
    assert StripBlockComments("/") == "/";
    assert EmptyStrings("/") == "/";
    assert Quotes("/") == 0;
  }

  /**
   The comment passes come first, so a literal is hidden from the parenthesis check exactly
   when every comment that seems to begin inside it also ends inside it.
   */
  lemma NeverSeenIff(body: string)
    requires Doubled(body)
    ensures NeverSeen(body) <==> CommentsEnd(body)
  {
    if CommentsEnd(body) {
      forall rest | !QuoteFirst(Uncommented(rest))
        ensures Scrub("'" + body + "'" + rest) == "''" + Scrub(rest)
      {
        LiteralErased(body, rest);
      }
    } else if !LineCommentsEnd(body) {
      OpenLineCommentSeen(body);
      assert "'" + body + "'" + "" == "'" + body + "'";
      assert Scrub("'" + body + "'" + "") != "''" + Scrub("");
    } else {
      OpenBlockCommentSeen(body);
      CloserAlone();
      assert "''" + "*/" == "''*/";
      assert Scrub("'" + body + "'" + "*/") != "''" + Scrub("*/");
    }
  }

  // ----- parentheses -----

  function Delta(c: char): int {
    if c == '(' then 1 else if c == ')' then -1 else 0
  }

  /** Opening minus closing parentheses. */
  function Depth(s: string): int {
    if s == "" then 0 else Delta(s[0]) + Depth(s[1..])
  }

  /** Starting at depth `k`, no prefix closes more than is open. */
  ghost predicate NeverNegative(s: string, k: int) {
    forall n :: 0 <= n <= |s| ==> k + Depth(s[..n]) >= 0
  }

  lemma {:induction false} DepthAppend(a: string, b: string)
    ensures Depth(a + b) == Depth(a) + Depth(b)
  {
    if a == "" {
      assert a + b == b;
    } else {
      assert (a + b)[1..] == a[1..] + b;
      DepthAppend(a[1..], b);
    }
  }

  lemma DepthSnoc(s: string, n: nat)
    requires n < |s|
    ensures Depth(s[..n + 1]) == Depth(s[..n]) + Delta(s[n])
  {
    assert s[..n + 1] == s[..n] + [s[n]];
    DepthAppend(s[..n], [s[n]]);
    assert [s[n]][1..] == "";
  }

  lemma NeverNegativeTail(s: string, k: int)
    requires s != ""
    ensures NeverNegative(s, k) <==> k >= 0 && NeverNegative(s[1..], k + Delta(s[0]))
  {
    forall n | 0 <= n <= |s| - 1 ensures Depth(s[..n + 1]) == Delta(s[0]) + Depth(s[1..][..n]) {
      assert s[..n + 1][1..] == s[1..][..n];
    }
    if NeverNegative(s, k) {
      assert k + Depth(s[..0]) >= 0;
      forall n | 0 <= n <= |s[1..]| ensures k + Delta(s[0]) + Depth(s[1..][..n]) >= 0 {
        assert k + Depth(s[..n + 1]) >= 0;
      }
    }
    if k >= 0 && NeverNegative(s[1..], k + Delta(s[0])) {
      forall n | 0 <= n <= |s| ensures k + Depth(s[..n]) >= 0 {
        if n > 0 {
          assert k + Delta(s[0]) + Depth(s[1..][..n - 1]) >= 0;
        }
      }
    }
  }

  /** Derivations of the grammar  B ::= empty | c B | '(' B ')' B  with c not a parenthesis. */
  datatype Derivation = Empty | Plain(c: char, rest: Derivation) | Group(inner: Derivation, after: Derivation) {
    predicate Valid() {
      match this
      case Empty => true
      case Plain(c, rest) => c != '(' && c != ')' && rest.Valid()
      case Group(inner, after) => inner.Valid() && after.Valid()
    }

    function Yield(): string {
      match this
      case Empty => ""
      case Plain(c, rest) => [c] + rest.Yield()
      case Group(inner, after) => "(" + inner.Yield() + ")" + after.Yield()
    }
  }

  ghost predicate Balanced(s: string) {
    exists d: Derivation :: d.Valid() && d.Yield() == s
  }

  lemma {:induction false} YieldNeverNegative(d: Derivation, tail: string, k: nat)
    requires d.Valid()
    ensures Depth(d.Yield()) == 0
    ensures NeverNegative(d.Yield() + tail, k) <==> NeverNegative(tail, k)
    decreases d
  {
    match d
    case Empty =>
      assert d.Yield() + tail == tail;
    case Plain(c, rest) =>
      var s := d.Yield() + tail;
      assert s[1..] == rest.Yield() + tail && d.Yield()[1..] == rest.Yield();
      YieldNeverNegative(rest, tail, k);
      NeverNegativeTail(s, k);
    case Group(inner, after) =>
      var x, y := inner.Yield(), after.Yield();
      var t := ")" + (y + tail);
      YieldNeverNegative(inner, t, k + 1);
      YieldNeverNegative(after, tail, k);
      GroupDepth(x, y);
      GroupNeverNegative(x, y, tail, k);
  }

  lemma GroupNeverNegative(x: string, y: string, tail: string, k: nat)
    requires NeverNegative(x + (")" + (y + tail)), k + 1) <==> NeverNegative(")" + (y + tail), k + 1)
    ensures NeverNegative("(" + x + ")" + y + tail, k) <==> NeverNegative(y + tail, k)
  {
    var s := "(" + x + ")" + y + tail;
    var t := ")" + (y + tail);
    assert s[1..] == x + t && t[1..] == y + tail;
    NeverNegativeTail(s, k);
    NeverNegativeTail(t, k + 1);
  }

  lemma GroupDepth(x: string, y: string)
    ensures Depth("(" + x + ")" + y) == Depth(x) + Depth(y)
  {
    DepthAppend("(" + x + ")", y);
    DepthAppend("(" + x, ")");
    DepthAppend("(", x);
    assert "("[1..] == "" && ")"[1..] == "";
  }

  /** Derivations laid out with a closing parenthesis between each two. */
  function Unstack(ds: seq<Derivation>): string
    requires ds != []
  {
    if |ds| == 1 then ds[0].Yield() else ds[0].Yield() + ")" + Unstack(ds[1..])
  }

  /** From depth `k` down to zero, a text is `k` unmatched closings between derivable parts. */
  lemma {:induction false} Parse(s: string, k: nat) returns (ds: seq<Derivation>)
    requires NeverNegative(s, k) && k + Depth(s) == 0
    ensures |ds| == k + 1 && Unstack(ds) == s
    ensures forall i :: 0 <= i < |ds| ==> ds[i].Valid()
    decreases |s|
  {
    if s == "" {
      ds := [Empty];
    } else {
      NeverNegativeTail(s, k);
      assert s == [s[0]] + s[1..];
      if s[0] == '(' {
        var t := Parse(s[1..], k + 1);
        ds := OpenGroup(t);
      } else if s[0] == ')' {
        assert k + Delta(s[0]) >= 0 by {
          assert s[1..][..0] == "";
          assert k + Delta(s[0]) + Depth(s[1..][..0]) >= 0;
        }
        var t := Parse(s[1..], k - 1);
        ds := [Empty] + t;
        assert ds[1..] == t;
        assert Unstack(ds) == "" + ")" + Unstack(t);
      } else {
        var t := Parse(s[1..], k);
        ds := AddPlain(s[0], t);
      }
    }
  }

  lemma OpenGroup(t: seq<Derivation>) returns (ds: seq<Derivation>)
    requires |t| >= 2 && forall i :: 0 <= i < |t| ==> t[i].Valid()
    ensures |ds| == |t| - 1 && Unstack(ds) == "(" + Unstack(t)
    ensures forall i :: 0 <= i < |ds| ==> ds[i].Valid()
  {
    ds := [Group(t[0], t[1])] + t[2..];
    var x, y := t[0].Yield(), t[1].Yield();
    assert Unstack(t) == x + ")" + Unstack(t[1..]);
    if |t| == 2 {
      assert Unstack(t[1..]) == y;
      assert Unstack(ds) == "(" + x + ")" + y;
      assert "(" + x + ")" + y == "(" + (x + ")" + y);
    } else {
      assert t[1..][1..] == t[2..] && ds[1..] == t[2..];
      var z := Unstack(t[2..]);
      assert Unstack(t[1..]) == y + ")" + z;
      assert Unstack(ds) == ("(" + x + ")" + y) + ")" + z;
      assert ("(" + x + ")" + y) + ")" + z == "(" + (x + ")" + (y + ")" + z));
    }
  }

  lemma AddPlain(c: char, t: seq<Derivation>) returns (ds: seq<Derivation>)
    requires c != '(' && c != ')'
    requires t != [] && forall i :: 0 <= i < |t| ==> t[i].Valid()
    ensures |ds| == |t| && Unstack(ds) == [c] + Unstack(t)
    ensures forall i :: 0 <= i < |ds| ==> ds[i].Valid()
  {
    ds := [Plain(c, t[0])] + t[1..];
    var x := t[0].Yield();
    if |t| > 1 {
      assert ds[1..] == t[1..];
      var z := Unstack(t[1..]);
      assert ([c] + x) + ")" + z == [c] + (x + ")" + z);
    }
  }

  /** A text is balanced exactly when its depth never falls below zero and ends at zero. */
  lemma BalancedIff(s: string)
    ensures Balanced(s) <==> NeverNegative(s, 0) && Depth(s) == 0
  {
    if NeverNegative(s, 0) && Depth(s) == 0 {
      var ds := Parse(s, 0);
      assert ds[0].Valid() && ds[0].Yield() == s;
    }
    if Balanced(s) {
      var d: Derivation :| d.Valid() && d.Yield() == s;
      YieldNeverNegative(d, "", 0);
      assert d.Yield() + "" == s;
      assert NeverNegative("", 0);
    }
  }

  // ----- the check -----

  datatype CheckError =
    | UnbalancedDollarQuotes(file: string)
    | ClosingPrecedesOpening(file: string)
    | UnbalancedParentheses(file: string, depth: int)
    | NotTransactionWrapped(file: string)

  predicate IsParenthesisError(e: CheckError) {
    e.ClosingPrecedesOpening? || e.UnbalancedParentheses?
  }

  /** `text.count("$$")`: non-overlapping occurrences from the left. */
  function CountDollarPairs(s: string): nat {
    if |s| < 2 then 0
    else if s[0] == '$' && s[1] == '$' then 1 + CountDollarPairs(s[2..])
    else CountDollarPairs(s[1..])
  }

  predicate OccursAt(text: string, part: string, i: nat)
    requires i + |part| <= |text|
  {
    text[i..i + |part|] == part
  }

  predicate Contains(text: string, part: string) {
    exists i :: 0 <= i <= |text| - |part| && OccursAt(text, part, i)
  }

  /**
   The problems of one migration, in order: one for odd dollar quotes, one for parentheses,
   and, unless a closing parenthesis came first, one for a missing transaction.
   */
  ghost function Problems(file: string, text: string): seq<CheckError> {
    var scrubbed := Scrub(text);
    (if CountDollarPairs(text) % 2 == 1 then [UnbalancedDollarQuotes(file)] else [])
    + (if !NeverNegative(scrubbed, 0) then [ClosingPrecedesOpening(file)]
       else
         (if Depth(scrubbed) != 0 then [UnbalancedParentheses(file, Depth(scrubbed))] else [])
         + (if !(Contains(text, "BEGIN;") && Contains(text, "COMMIT;")) then [NotTransactionWrapped(file)] else []))
  }

  /** No parenthesis problem is reported exactly when the scrubbed text is in the balanced grammar. */
  lemma ParenthesisVerdict(file: string, text: string)
    ensures (forall e :: e in Problems(file, text) ==> !IsParenthesisError(e)) <==> Balanced(Scrub(text))
  {
    var scrubbed := Scrub(text);
    BalancedIff(scrubbed);
    if !NeverNegative(scrubbed, 0) {
      assert ClosingPrecedesOpening(file) in Problems(file, text);
    } else if Depth(scrubbed) != 0 {
      assert UnbalancedParentheses(file, Depth(scrubbed)) in Problems(file, text);
    }
  }

  // ----- literals the check does see -----

  lemma DashesScrubbed(open: char)
    requires open != '\'' && open != '-' && open != '/'
    ensures Scrub([open] + "'--')") == [open] + "'"
  {
    var s := [open] + "'--')";
    assert s[1..] == "'--')" && s[1..][1..] == "--')" && "--')"[2..] == "')";
    SkipLastLine("')");
    assert StripLineComments("--')") == "";
    assert StripLineComments("'--')") == "'";
    LineStep(s);
    assert ([open] + "'")[1..] == "'" && "'"[1..] == "";
    assert StripBlockComments("'") == "'";
    BlockStep([open] + "'");
    assert EmptyStrings("'") == "'";
  }

  lemma OpenParenthesis()
    ensures Depth("('") == 1 && NeverNegative("('", 0)
  {
    assert "('"[1..] == "'" && "'"[1..] == "";
    NeverNegativeTail("('", 0);
    NeverNegativeTail("'", 1);
  }

  /** A dash pair inside a literal cuts off its end, so a balanced text is reported as unbalanced. */
  lemma DashesInLiteral(file: string)
    ensures !NeverSeen("--")
    ensures UnbalancedParentheses(file, 1) in Problems(file, "('--')")
  {
    assert "--"[2..] == "";
    NeverSeenIff("--");
    assert "('--')" == ['('] + "'--')" && "('" == ['('] + "'";
    DashesScrubbed('(');
    OpenParenthesis();
    var problems := Problems(file, "('--')");
    assert problems[if CountDollarPairs("('--')") % 2 == 1 then 1 else 0] == UnbalancedParentheses(file, 1);
  }

  /** The list of problems the source keeps appending to. */
  class ErrorLog {
    var errors: seq<CheckError>

    constructor ()
      ensures errors == []
    {
      errors := [];
    }

    /** Checks one migration, appending its problems to those already found. */
    method CheckBalancedSql(file: string, text: string)
      modifies this
      ensures errors == old(errors) + Problems(file, text)
    {
      if CountDollarPairs(text) % 2 != 0 {
        errors := errors + [UnbalancedDollarQuotes(file)];
      }
      var scrubbed := Scrub(text);
      var depth, closed := ScanDepth(scrubbed);
      if closed {
        errors := errors + [ClosingPrecedesOpening(file)];
        return;
      }
      if depth != 0 {
        errors := errors + [UnbalancedParentheses(file, depth)];
      }
      if !Contains(text, "BEGIN;") || !Contains(text, "COMMIT;") {
        errors := errors + [NotTransactionWrapped(file)];
      }
    }
  }

  /** The running depth, stopping as soon as it falls below zero. */
  method ScanDepth(scrubbed: string) returns (depth: int, closed: bool)
    ensures closed <==> !NeverNegative(scrubbed, 0)
    ensures !closed ==> depth == Depth(scrubbed)
  {
    depth := 0;
    for i := 0 to |scrubbed|
      invariant depth == Depth(scrubbed[..i])
      invariant forall n :: 0 <= n <= i ==> Depth(scrubbed[..n]) >= 0
    {
      DepthSnoc(scrubbed, i);
      if scrubbed[i] == '(' {
        depth := depth + 1;
      } else if scrubbed[i] == ')' {
        depth := depth - 1;
        if depth < 0 {
          return depth, true;
        }
      }
    }
    assert scrubbed[..|scrubbed|] == scrubbed;
    return depth, false;
  }
}
