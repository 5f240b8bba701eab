/**
 Whole migrations as code and string literals in turn, under the checks of
 setc/capitalization/artifact_checks.py.
 */
module MigrationText {
  import opened Sequences
  import opened ArtifactChecks

  /** Some code and the literal that follows it. */
  datatype Segment = Segment(code: string, body: string)

  function Text(segments: seq<Segment>, tail: string): string {
    if segments == [] then tail
    else segments[0].code + ("'" + segments[0].body + "'" + Text(segments[1..], tail))
  }

  /** The text with its comments taken out and its literals emptied. */
  function Skeleton(segments: seq<Segment>, tail: string): string {
    if segments == [] then Uncommented(tail)
    else Uncommented(segments[0].code) + ("''" + Skeleton(segments[1..], tail))
  }

  /** The code alone. */
  function CodeOnly(segments: seq<Segment>, tail: string): string {
    if segments == [] then Uncommented(tail)
    else Uncommented(segments[0].code) + CodeOnly(segments[1..], tail)
  }

  /** Comments end where they begin, and code has no quotes outside them. */
  predicate Apart(segment: Segment) {
    && CommentsEnd(segment.code) && '\'' !in Uncommented(segment.code)
    && Doubled(segment.body) && CommentsEnd(segment.body)
  }

  /** All segments are apart, and between two literals stands some code. */
  predicate Separated(segments: seq<Segment>, tail: string) {
    if segments == [] then '\'' !in Uncommented(tail)
    else
      && Apart(segments[0]) && Separated(segments[1..], tail)
      && (|segments| > 1 ==> Uncommented(segments[1].code) != "")
  }

  /** No literal begins where the text begins. */
  lemma BeginsWithCode(segments: seq<Segment>, tail: string)
    requires Separated(segments, tail) && (segments != [] ==> Uncommented(segments[0].code) != "")
    ensures !QuoteFirst(Uncommented(Text(segments, tail)))
  {
    if segments == [] {
      NotQuoteFirst(Uncommented(tail), "");
    } else {
      var rest := "'" + segments[0].body + "'" + Text(segments[1..], tail);
      UncommentedSplits(segments[0].code, rest);
      NotQuoteFirst(Uncommented(segments[0].code), Uncommented(rest));
    }
  }

  lemma NotQuoteFirst(code: string, rest: string)
    requires '\'' !in code && (code != "" || rest == "")
    ensures !QuoteFirst(code) && !QuoteFirst(code + rest)
  {
    if code != "" {
      assert code[0] in code && (code + rest)[0] == code[0];
    }
  }

  lemma ScrubOfCode(tail: string)
    requires '\'' !in Uncommented(tail)
    ensures Scrub(tail) == Uncommented(tail)
  {
    EmptyAfterCode(Uncommented(tail), "");
    assert Uncommented(tail) + "" == Uncommented(tail);
  }

  /** Scrubbing leaves exactly the code and empty literals. */
  lemma {:induction false} ScrubOfText(segments: seq<Segment>, tail: string)
    requires Separated(segments, tail)
    ensures Scrub(Text(segments, tail)) == Skeleton(segments, tail)
  {
    if segments == [] {
      ScrubOfCode(tail);
    } else {
      var first, rest := segments[0], segments[1..];
      BeginsWithCode(rest, tail);
      LiteralErased(first.body, Text(rest, tail));
      CodeBeforeLiteral(first.code, "'" + first.body + "'" + Text(rest, tail));
      ScrubOfText(rest, tail);
    }
  }

  // ----- empty literals do not count -----

  lemma {:induction false} NeverNegativeAppend(a: string, b: string, k: int)
    requires k >= 0
    ensures NeverNegative(a + b, k) <==> NeverNegative(a, k) && NeverNegative(b, k + Depth(a))
  {
    if a == "" {
      assert a + b == b;
    } else {
      ConsAppend(a, b);
      NeverNegativeTail(a, k);
      NeverNegativeTail(a + b, k);
      if k + Delta(a[0]) >= 0 {
        NeverNegativeAppend(a[1..], b, k + Delta(a[0]));
      } else {
        NegativeAtOnce(a[1..], k + Delta(a[0]));
        NegativeAtOnce((a + b)[1..], k + Delta(a[0]));
      }
    }
  }

  lemma NegativeAtOnce(s: string, k: int)
    requires k < 0
    ensures !NeverNegative(s, k)
  {
    assert s[..0] == "";
  }

  /** An empty literal changes neither the depth nor whether it falls below zero. */
  lemma EmptyLiteralDepth(s: string, k: int)
    requires k >= 0
    ensures Depth("''" + s) == Depth(s)
    ensures NeverNegative("''" + s, k) <==> NeverNegative(s, k)
  {
    var t := "''" + s;
    assert t[0] == '\'' && t[1..][0] == '\'' && t[1..][1..] == s;
    NeverNegativeTail(t, k);
    NeverNegativeTail(t[1..], k);
  }

  lemma {:induction false} SkeletonDepth(segments: seq<Segment>, tail: string)
    ensures Depth(Skeleton(segments, tail)) == Depth(CodeOnly(segments, tail))
  {
    if segments != [] {
      var code, rest := Uncommented(segments[0].code), segments[1..];
      SkeletonDepth(rest, tail);
      DepthAppend(code, "''" + Skeleton(rest, tail));
      DepthAppend(code, CodeOnly(rest, tail));
      EmptyLiteralDepth(Skeleton(rest, tail), 0);
    }
  }

  lemma DepthOfNeverNegative(s: string, k: int)
    requires NeverNegative(s, k)
    ensures k + Depth(s) >= 0
  {
    assert s[..|s|] == s;
  }

  lemma {:induction false} SkeletonNeverNegative(segments: seq<Segment>, tail: string, k: int)
    requires k >= 0
    ensures NeverNegative(Skeleton(segments, tail), k) <==> NeverNegative(CodeOnly(segments, tail), k)
  {
    if segments != [] {
      var code, rest := Uncommented(segments[0].code), segments[1..];
      NeverNegativeAppend(code, "''" + Skeleton(rest, tail), k);
      NeverNegativeAppend(code, CodeOnly(rest, tail), k);
      if NeverNegative(code, k) {
        DepthOfNeverNegative(code, k);
        EmptyLiteralDepth(Skeleton(rest, tail), k + Depth(code));
        SkeletonNeverNegative(rest, tail, k + Depth(code));
      }
    }
  }

  /**
   For a migration of code and literals that keep apart, no parenthesis problem is reported
   exactly when its code, without comments and literals, is balanced.
   */
  lemma CodeDecides(file: string, segments: seq<Segment>, tail: string)
    requires Separated(segments, tail)
    ensures (forall e :: e in Problems(file, Text(segments, tail)) ==> !IsParenthesisError(e))
            <==> Balanced(CodeOnly(segments, tail))
  {
    ScrubOfText(segments, tail);
    ParenthesisVerdict(file, Text(segments, tail));
    BalancedIff(Skeleton(segments, tail));
    BalancedIff(CodeOnly(segments, tail));
    SkeletonDepth(segments, tail);
    SkeletonNeverNegative(segments, tail, 0);
  }
}
