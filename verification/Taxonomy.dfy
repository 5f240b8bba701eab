/** The text normalisation behind the source-evidence digest (setc/wim/taxonomy.py). */
module Taxonomy {
  import opened Wrappers
  import opened Text

  /** The line boundaries of `str.splitlines`. */
  predicate IsLineBreak(c: char) {
    var n := c as int;
    10 <= n <= 13 || 28 <= n <= 30 || n == 0x85 || n == 0x2028 || n == 0x2029
  }

  /** The same class, code by code. */
  lemma LineBreaksListed(c: char)
    ensures IsLineBreak(c) <==> c as int in {0x0A, 0x0B, 0x0C, 0x0D, 0x1C, 0x1D, 0x1E, 0x85, 0x2028, 0x2029}
  {
  }

  /** Where the first line ends: the index of its line break, or the end of the text. */
  function LineEnd(s: string): nat {
    if s == "" || IsLineBreak(s[0]) then 0 else 1 + LineEnd(s[1..])
  }

  /** How many characters the line break at `i` has: two for a carriage return and a line feed. */
  function BreakLength(s: string, i: nat): nat
    requires i < |s|
  {
    if s[i] == '\r' && i + 1 < |s| && s[i + 1] == '\n' then 2 else 1
  }

  lemma {:induction false} LineEndIs(s: string)
    ensures LineEnd(s) <= |s|
    ensures forall i :: 0 <= i < LineEnd(s) ==> !IsLineBreak(s[i])
    ensures LineEnd(s) < |s| ==> IsLineBreak(s[LineEnd(s)])
  {
    if s != "" && !IsLineBreak(s[0]) {
      LineEndIs(s[1..]);
    }
  }

  /** `str.splitlines`: a line break at the very end does not start another line. */
  function SplitLines(s: string): seq<string>
    decreases |s|
  {
    LineEndIs(s);
    var n := LineEnd(s);
    if s == "" then []
    else if n == |s| then [s]
    else [s[..n]] + SplitLines(s[n + BreakLength(s, n)..])
  }

  function TrimLines(lines: seq<string>): seq<string> {
    if lines == [] then [] else [TrimRight(lines[0])] + TrimLines(lines[1..])
  }

  /** `"\n".join(lines)`. */
  function Join(lines: seq<string>): string {
    if lines == [] then "" else if |lines| == 1 then lines[0] else lines[0] + "\n" + Join(lines[1..])
  }

  function Normalize(text: string): string {
    Join(TrimLines(SplitLines(Strip(text))))
  }

  datatype EvidenceError = EvidenceRequired

  /** The digest is taken of this text; blank evidence is refused. */
  function DigestInput(text: string): Result<string, EvidenceError> {
    if Normalize(text) == "" then Failure(EvidenceRequired) else Success(Normalize(text))
  }

  // ----- normal forms -----

  predicate NoBreak(line: string) {
    forall i :: 0 <= i < |line| ==> !IsLineBreak(line[i])
  }

  /** A line with neither a line break in it nor whitespace at its end. */
  predicate CleanLine(line: string) {
    && NoBreak(line)
    && (line != "" ==> !IsSpace(line[|line| - 1]))
  }

  /** Clean lines, the first and last of which are not blank at their outer ends. */
  ghost predicate CleanLines(lines: seq<string>) {
    && (forall i :: 0 <= i < |lines| ==> CleanLine(lines[i]))
    && (lines != [] ==> lines[|lines| - 1] != "" && lines[0] != "" && !IsSpace(lines[0][0]))
  }

  lemma {:induction false} LineEndOf(line: string, rest: string)
    requires NoBreak(line)
    requires rest == "" || IsLineBreak(rest[0])
    ensures LineEnd(line + rest) == |line|
  {
    if line == "" {
      assert line + rest == rest;
    } else {
      assert (line + rest)[1..] == line[1..] + rest;
      LineEndOf(line[1..], rest);
    }
  }

  /** Splitting undoes joining, for lines without breaks whose last one is not empty. */
  lemma {:induction false} SplitOfJoin(lines: seq<string>)
    requires forall i :: 0 <= i < |lines| ==> NoBreak(lines[i])
    requires lines != [] ==> lines[|lines| - 1] != ""
    ensures SplitLines(Join(lines)) == lines
  {
    if |lines| == 1 {
      SplitOneLine(lines[0]);
    } else if |lines| > 1 {
      SplitFirstLine(lines[0], Join(lines[1..]));
      SplitOfJoin(lines[1..]);
      assert lines == [lines[0]] + lines[1..];
    }
  }

  lemma SplitOneLine(line: string)
    requires NoBreak(line) && line != ""
    ensures SplitLines(line) == [line]
  {
    LineEndOf(line, "");
    assert line + "" == line;
  }

  lemma SplitFirstLine(line: string, rest: string)
    requires NoBreak(line)
    ensures SplitLines(line + "\n" + rest) == [line] + SplitLines(rest)
  {
    var s := line + "\n" + rest;
    assert s == line + ("\n" + rest);
    LineEndOf(line, "\n" + rest);
    assert s[..|line|] == line && s[|line|] == '\n' && s[|line| + 1..] == rest;
  }

  /** The ways to end a line: any line-break character, or a carriage return with a line feed. */
  predicate IsEnding(ending: string) {
    (|ending| == 1 && IsLineBreak(ending[0])) || ending == "\r\n"
  }

  /** Lines, each but the last with its own ending. */
  function Written(lines: seq<string>, endings: seq<string>): string
    requires |endings| + 1 >= |lines|
  {
    if lines == [] then "" else if |lines| == 1 then lines[0]
    else lines[0] + (endings[0] + Written(lines[1..], endings[1..]))
  }

  /** No carriage return happens to stand before a line feed that ends an empty line. */
  ghost predicate EndingsApart(lines: seq<string>, endings: seq<string>)
    requires |endings| + 1 >= |lines|
  {
    forall i :: 0 <= i < |lines| - 1 ==>
      IsEnding(endings[i])
      && (endings[i] == "\r" && lines[i + 1] == "" && i + 2 < |lines| ==> endings[i + 1] != "\n")
  }

  lemma SplitAnyEnding(line: string, ending: string, rest: string)
    requires NoBreak(line) && IsEnding(ending)
    requires ending == "\r" ==> rest == "" || rest[0] != '\n'
    ensures SplitLines(line + (ending + rest)) == [line] + SplitLines(rest)
  {
    var s := line + (ending + rest);
    LineEndOf(line, ending + rest);
    assert s[..|line|] == line && s[|line| + |ending|..] == rest;
    EndingLength(line, ending, rest);
  }

  lemma EndingLength(line: string, ending: string, rest: string)
    requires IsEnding(ending)
    requires ending == "\r" ==> rest == "" || rest[0] != '\n'
    ensures var s := line + (ending + rest);
            |line| < |s| && s[|line|] == ending[0] && BreakLength(s, |line|) == |ending|
  {
    var s := line + (ending + rest);
    assert s[|line|..] == ending + rest;
    assert s[|line|] == ending[0];
    if |ending| == 1 {
      assert |line| + 1 < |s| ==> s[|line| + 1] == rest[0];
      assert ending[0] == '\r' ==> ending == "\r";
    } else {
      assert s[|line| + 1] == ending[1];
    }
  }

  lemma WrittenStart(lines: seq<string>, endings: seq<string>)
    requires |endings| + 1 >= |lines| > 0 && NoBreaks(lines) && EndingsApart(lines, endings)
    requires lines[|lines| - 1] != ""
    ensures var s := Written(lines, endings);
            s != "" && s[0] == if lines[0] != "" then lines[0][0] else endings[0][0]
  {
  }

  lemma EndingsTail(lines: seq<string>, endings: seq<string>)
    requires |endings| + 1 >= |lines| > 1 && EndingsApart(lines, endings)
    ensures EndingsApart(lines[1..], endings[1..])
  {
    var ls, es := lines[1..], endings[1..];
    forall i | 0 <= i < |ls| - 1
      ensures IsEnding(es[i]) && (es[i] == "\r" && ls[i + 1] == "" && i + 2 < |ls| ==> es[i + 1] != "\n")
    {
      assert IsEnding(endings[i + 1]);
    }
  }

  lemma NoFeedNext(lines: seq<string>, endings: seq<string>)
    requires |endings| + 1 >= |lines| > 1 && NoBreaks(lines) && EndingsApart(lines, endings)
    requires lines[|lines| - 1] != "" && endings[0] == "\r"
    ensures Written(lines[1..], endings[1..]) != "" && Written(lines[1..], endings[1..])[0] != '\n'
  {
    EndingsTail(lines, endings);
    assert NoBreaks(lines[1..]);
    WrittenStart(lines[1..], endings[1..]);
    if lines[1] != "" {
      assert NoBreak(lines[1]);
    } else if |lines| > 2 {
      assert IsEnding(endings[1]) && endings[1] != "\n";
      OnlyFeed(endings[1]);
    }
  }

  lemma OnlyFeed(ending: string)
    requires IsEnding(ending)
    ensures ending[0] == '\n' ==> ending == "\n"
  {
    if |ending| == 1 && ending[0] == '\n' {
      assert ending == "\n";
    }
  }

  /** Splitting finds the lines however each of them is ended. */
  lemma {:induction false} SplitOfWritten(lines: seq<string>, endings: seq<string>)
    requires |endings| + 1 >= |lines| && NoBreaks(lines) && EndingsApart(lines, endings)
    requires lines != [] ==> lines[|lines| - 1] != ""
    ensures SplitLines(Written(lines, endings)) == lines
    decreases |lines|
  {
    if |lines| == 1 {
      SplitOneLine(lines[0]);
    } else if |lines| > 1 {
      EndingsTail(lines, endings);
      assert NoBreaks(lines[1..]);
      var rest := Written(lines[1..], endings[1..]);
      if endings[0] == "\r" {
        NoFeedNext(lines, endings);
      }
      assert IsEnding(endings[0]) && NoBreak(lines[0]);
      SplitAnyEnding(lines[0], endings[0], rest);
      SplitOfWritten(lines[1..], endings[1..]);
      assert lines == [lines[0]] + lines[1..];
    }
  }

  lemma {:induction false} WrittenEnd(lines: seq<string>, endings: seq<string>)
    requires |endings| + 1 >= |lines| > 0 && lines[|lines| - 1] != ""
    ensures var s, last := Written(lines, endings), lines[|lines| - 1];
            s != "" && s[|s| - 1] == last[|last| - 1]
    decreases |lines|
  {
    if |lines| > 1 {
      WrittenEnd(lines[1..], endings[1..]);
    }
  }

  /** How the lines of the evidence are ended makes no difference to its normal form. */
  lemma EndingsDoNotMatter(lines: seq<string>, endings: seq<string>)
    requires |endings| + 1 >= |lines| && NoBreaks(lines) && EndingsApart(lines, endings)
    requires EndsInText(lines) && lines[0] != "" && !IsSpace(lines[0][0])
    ensures Normalize(Written(lines, endings)) == Join(TrimLines(lines))
  {
    var s := Written(lines, endings);
    WrittenStart(lines, endings);
    WrittenEnd(lines, endings);
    StripOfTrimmed(s);
    SplitOfWritten(lines, endings);
  }

  lemma {:induction false} TrimOfClean(lines: seq<string>)
    requires forall i :: 0 <= i < |lines| ==> CleanLine(lines[i])
    ensures TrimLines(lines) == lines
  {
    if lines != [] {
      TrimOfClean(lines[1..]);
    }
  }

  lemma {:induction false} JoinEnds(lines: seq<string>)
    requires CleanLines(lines) && lines != []
    ensures Join(lines) != "" && Join(lines)[0] == lines[0][0]
    ensures Join(lines)[|Join(lines)| - 1] == lines[|lines| - 1][|lines[|lines| - 1]| - 1]
  {
    JoinLast(lines);
  }

  lemma {:induction false} JoinLast(lines: seq<string>)
    requires lines != [] && lines[|lines| - 1] != ""
    ensures Join(lines) != ""
    ensures Join(lines)[|Join(lines)| - 1] == lines[|lines| - 1][|lines[|lines| - 1]| - 1]
  {
    if |lines| > 1 {
      JoinLast(lines[1..]);
    }
  }

  /** A text joined from clean lines is left alone by the normalisation. */
  lemma NormalizeOfClean(lines: seq<string>)
    requires CleanLines(lines)
    ensures Normalize(Join(lines)) == Join(lines)
  {
    if lines != [] {
      JoinEnds(lines);
    }
    StripOfTrimmed(Join(lines));
    SplitOfJoin(lines);
    TrimOfClean(lines);
  }

  lemma {:induction false} TrimLinesAt(lines: seq<string>)
    ensures |TrimLines(lines)| == |lines|
    ensures forall i :: 0 <= i < |lines| ==> TrimLines(lines)[i] == TrimRight(lines[i])
  {
    if lines != [] {
      TrimLinesAt(lines[1..]);
    }
  }

  lemma BreakNotLast(s: string, n: nat)
    requires n < |s| && IsLineBreak(s[n]) && !IsSpace(s[|s| - 1])
    ensures n + BreakLength(s, n) < |s|
  {
  }

  ghost predicate NoBreaks(lines: seq<string>) {
    forall i :: 0 <= i < |lines| ==> NoBreak(lines[i])
  }

  /** The last line is there, is not empty and does not end in whitespace. */
  predicate EndsInText(lines: seq<string>) {
    lines != [] && lines[|lines| - 1] != "" && !IsSpace(lines[|lines| - 1][|lines[|lines| - 1]| - 1])
  }

  lemma LinesCons(line: string, lines: seq<string>)
    ensures NoBreak(line) && NoBreaks(lines) ==> NoBreaks([line] + lines)
    ensures EndsInText(lines) ==> EndsInText([line] + lines)
  {
    if EndsInText(lines) {
      assert ([line] + lines)[|lines|] == lines[|lines| - 1];
    }
  }

  /** The lines of a text have no breaks in them, and the last one ends where the text ends. */
  lemma {:induction false} SplitIs(s: string)
    requires s != "" ==> !IsSpace(s[|s| - 1])
    ensures NoBreaks(SplitLines(s))
    ensures s != "" ==> EndsInText(SplitLines(s))
    decreases |s|
  {
    if s != "" {
      LineEndIs(s);
      var n := LineEnd(s);
      if n < |s| {
        BreakNotLast(s, n);
        var rest := s[n + BreakLength(s, n)..];
        assert rest[|rest| - 1] == s[|s| - 1];
        SplitIs(rest);
        LinesCons(s[..n], SplitLines(rest));
      }
    }
  }

  lemma {:induction false} FirstLineStarts(s: string)
    requires s != "" && !IsSpace(s[0])
    ensures SplitLines(s) != [] && SplitLines(s)[0] != "" && SplitLines(s)[0][0] == s[0]
  {
    LineEndIs(s);
  }

  lemma TrimmedNonEmpty(line: string)
    requires line != "" && !IsSpace(line[0])
    ensures TrimRight(line) != "" && TrimRight(line)[0] == line[0]
  {
    TrimRightIs(line);
  }

  lemma TrimmedLinesClean(lines: seq<string>)
    requires NoBreaks(lines)
    ensures |TrimLines(lines)| == |lines|
    ensures forall i :: 0 <= i < |lines| ==> CleanLine(TrimLines(lines)[i])
  {
    TrimLinesAt(lines);
    forall i | 0 <= i < |lines| ensures CleanLine(TrimRight(lines[i])) {
      TrimRightIs(lines[i]);
    }
  }

  lemma TrimmedEnds(lines: seq<string>)
    requires EndsInText(lines) && lines[0] != "" && !IsSpace(lines[0][0])
    ensures var ts := TrimLines(lines);
            |ts| == |lines| && ts[|ts| - 1] != "" && ts[0] != "" && !IsSpace(ts[0][0])
  {
    TrimLinesAt(lines);
    TrimmedNonEmpty(lines[0]);
    TrimRightIs(lines[|lines| - 1]);
  }

  /** The lines of a normalised text are clean. */
  lemma NormalLinesAreClean(text: string)
    ensures CleanLines(TrimLines(SplitLines(Strip(text))))
  {
    var s := Strip(text);
    StripIsTrimmed(text);
    SplitIs(s);
    TrimmedLinesClean(SplitLines(s));
    if s != "" {
      FirstLineStarts(s);
      TrimmedEnds(SplitLines(s));
    }
  }

  /** Normalising twice is normalising once. */
  lemma NormalizeIdempotent(text: string)
    ensures Normalize(Normalize(text)) == Normalize(text)
  {
    NormalLinesAreClean(text);
    NormalizeOfClean(TrimLines(SplitLines(Strip(text))));
  }

  /**
   Two texts get the same digest input exactly when, after trimming the whole and then each
   line's end, they have the same lines: line-break styles and trailing blanks do not matter,
   and nothing else is forgotten.
   */
  lemma SameNormalFormIff(a: string, b: string)
    ensures Normalize(a) == Normalize(b)
            <==> TrimLines(SplitLines(Strip(a))) == TrimLines(SplitLines(Strip(b)))
  {
    NormalLinesAreClean(a);
    NormalLinesAreClean(b);
    SplitOfJoin(TrimLines(SplitLines(Strip(a))));
    SplitOfJoin(TrimLines(SplitLines(Strip(b))));
  }

  /** The texts left alone are exactly the joins of clean lines. */
  lemma NormalFormsIff(text: string)
    ensures Normalize(text) == text <==> exists lines :: CleanLines(lines) && Join(lines) == text
  {
    NormalLinesAreClean(text);
    if lines :| CleanLines(lines) && Join(lines) == text {
      NormalizeOfClean(lines);
    }
  }

  /** Evidence is refused exactly when it is blank. */
  lemma RefusedIffBlank(text: string)
    ensures DigestInput(text).Failure? <==> Blank(text)
  {
    var lines := TrimLines(SplitLines(Strip(text)));
    NormalLinesAreClean(text);
    if Blank(text) {
      assert lines == [];
    } else {
      StripIsTrimmed(text);
      SplitIs(Strip(text));
      TrimLinesAt(SplitLines(Strip(text)));
      JoinEnds(lines);
    }
  }
}
