/**
 What each problem the migration check reports says of the text
 (setc/capitalization/artifact_checks.py), and what the block-comment pass takes out of it.
 */
module SqlProblems {
  import opened Sequences
  import opened Wrappers
  import opened ArtifactChecks

  // ----- dollar quotes -----

  /** Places of double dollar signs, from left to right, no two of which overlap. */
  ghost predicate DollarPlaces(s: string, places: seq<nat>) {
    && (forall i :: 0 <= i < |places| ==> places[i] + 2 <= |s| && s[places[i]] == s[places[i] + 1] == '$')
    && (forall i :: 0 <= i < |places| - 1 ==> places[i] + 2 <= places[i + 1])
  }

  function Shifted(places: seq<nat>, k: nat): (r: seq<nat>)
    ensures |r| == |places| && forall i :: 0 <= i < |r| ==> r[i] == places[i] + k
  {
    seq(|places|, i requires 0 <= i < |places| => places[i] + k)
  }

  lemma ShiftedPlaces(s: string, k: nat, places: seq<nat>)
    requires k <= |s| && DollarPlaces(s[k..], places)
    ensures DollarPlaces(s, Shifted(places, k))
  {
    var shifted := Shifted(places, k);
    forall i | 0 <= i < |shifted| ensures shifted[i] + 2 <= |s| && s[shifted[i]] == s[shifted[i] + 1] == '$' {
      assert s[k..][places[i]] == s[shifted[i]] && s[k..][places[i] + 1] == s[shifted[i] + 1];
    }
  }

  lemma PlacesCons(s: string, rest: seq<nat>)
    requires |s| >= 2 && s[0] == s[1] == '$' && DollarPlaces(s[2..], rest)
    ensures DollarPlaces(s, [0] + Shifted(rest, 2))
  {
    ShiftedPlaces(s, 2, rest);
  }

  /** The count is that of some such list of places. */
  lemma {:induction false} CountAttained(s: string) returns (places: seq<nat>)
    ensures DollarPlaces(s, places) && |places| == CountDollarPairs(s)
    decreases |s|
  {
    if |s| < 2 {
      places := [];
    } else if s[0] == '$' && s[1] == '$' {
      var rest := CountAttained(s[2..]);
      PlacesCons(s, rest);
      places := [0] + Shifted(rest, 2);
    } else {
      var rest := CountAttained(s[1..]);
      ShiftedPlaces(s, 1, rest);
      places := Shifted(rest, 1);
    }
  }

  ghost predicate From(places: seq<nat>, k: nat) {
    forall i :: 0 <= i < |places| ==> k <= places[i]
  }

  function Lowered(places: seq<nat>, k: nat): (r: seq<nat>)
    requires From(places, k)
    ensures |r| == |places| && forall i :: 0 <= i < |r| ==> r[i] == places[i] - k
  {
    seq(|places|, i requires 0 <= i < |places| => places[i] - k)
  }

  lemma LoweredPlaces(s: string, k: nat, places: seq<nat>)
    requires k <= |s| && DollarPlaces(s, places) && From(places, k)
    ensures DollarPlaces(s[k..], Lowered(places, k))
  {
    var lowered := Lowered(places, k);
    forall i | 0 <= i < |lowered|
      ensures lowered[i] + 2 <= |s[k..]| && s[k..][lowered[i]] == s[k..][lowered[i] + 1] == '$'
    {
      assert s[k..][lowered[i]] == s[places[i]] && s[k..][lowered[i] + 1] == s[places[i] + 1];
    }
  }

  lemma {:induction false} LaterPlaces(s: string, places: seq<nat>, k: nat)
    requires DollarPlaces(s, places) && places != [] && k <= places[0]
    ensures From(places, k)
    decreases |places|
  {
    if |places| > 1 {
      var rest := places[1..];
      forall i | 0 <= i < |rest| - 1 ensures rest[i] + 2 <= rest[i + 1] {
        assert places[i + 1] + 2 <= places[i + 2];
      }
      LaterPlaces(s, rest, k);
      assert places == [places[0]] + rest;
    }
  }

  lemma TailPlaces(s: string, places: seq<nat>, k: nat)
    requires DollarPlaces(s, places) && places != [] && k <= places[0] + 2
    ensures DollarPlaces(s, places[1..]) && From(places[1..], k)
  {
    var rest := places[1..];
    forall i | 0 <= i < |rest| - 1 ensures rest[i] + 2 <= rest[i + 1] {
      assert places[i + 1] + 2 <= places[i + 2];
    }
    if rest != [] {
      assert places[0] + 2 <= places[1];
      LaterPlaces(s, rest, k);
    }
  }

  /** No list of places is longer: counting from the left misses no pair. */
  lemma {:induction false} CountIsMost(s: string, places: seq<nat>)
    requires DollarPlaces(s, places)
    ensures |places| <= CountDollarPairs(s)
    decreases |s|
  {
    if places != [] {
      assert places[0] + 2 <= |s|;
      if s[0] == '$' && s[1] == '$' {
        TailPlaces(s, places, 2);
        LoweredPlaces(s, 2, places[1..]);
        CountIsMost(s[2..], Lowered(places[1..], 2));
      } else {
        assert places[0] > 0;
        LaterPlaces(s, places, 1);
        LoweredPlaces(s, 1, places);
        CountIsMost(s[1..], Lowered(places, 1));
      }
    }
  }

  // ----- each problem -----

  /** The part occurs somewhere in the text. */
  ghost predicate Occurs(text: string, part: string) {
    exists before, after :: text == before + part + after
  }

  lemma ContainsIff(text: string, part: string)
    ensures Contains(text, part) <==> Occurs(text, part)
  {
    if Contains(text, part) {
      var i :| 0 <= i <= |text| - |part| && OccursAt(text, part, i);
      assert text == text[..i] + part + text[i + |part|..];
    }
    if Occurs(text, part) {
      var before, after :| text == before + part + after;
      assert OccursAt(text, part, |before|) by {
        assert text[|before|..|before| + |part|] == part;
      }
    }
  }

  /** The largest number of double dollar signs side by side in the text is odd. */
  ghost predicate OddDollarPairs(text: string) {
    exists places ::
      && DollarPlaces(text, places) && |places| % 2 == 1
      && forall more :: DollarPlaces(text, more) ==> |more| <= |places|
  }

  lemma OddDollarPairsIff(text: string)
    ensures OddDollarPairs(text) <==> CountDollarPairs(text) % 2 == 1
  {
    var most := CountAttained(text);
    forall more | DollarPlaces(text, more) ensures |more| <= |most| {
      CountIsMost(text, more);
    }
    if places :| DollarPlaces(text, places) && |places| % 2 == 1
                 && forall more :: DollarPlaces(text, more) ==> |more| <= |places| {
      assert |most| <= |places|;
    }
  }

  /** Each problem is reported exactly under its own condition on the text, and there are no others. */
  lemma ProblemsIff(file: string, text: string, e: CheckError)
    ensures e in Problems(file, text)
            <==> match e
                 case UnbalancedDollarQuotes(f) => f == file && OddDollarPairs(text)
                 case ClosingPrecedesOpening(f) => f == file && !NeverNegative(Scrub(text), 0)
                 case UnbalancedParentheses(f, depth) =>
                   f == file && NeverNegative(Scrub(text), 0) && depth == Depth(Scrub(text)) && depth > 0
                 case NotTransactionWrapped(f) =>
                   && f == file && NeverNegative(Scrub(text), 0)
                   && (!Occurs(text, "BEGIN;") || !Occurs(text, "COMMIT;"))
  {
    var scrubbed := Scrub(text);
    OddDollarPairsIff(text);
    ContainsIff(text, "BEGIN;");
    ContainsIff(text, "COMMIT;");
    if NeverNegative(scrubbed, 0) {
      assert scrubbed[..|scrubbed|] == scrubbed;
      assert Depth(scrubbed[..|scrubbed|]) >= 0;
    }
  }

  // ----- literals -----

  /** A text as it is written between the quotes of a literal: every quote twice. */
  function Quoted(s: string): string {
    if s == "" then "" else (if s[0] == '\'' then "''" else [s[0]]) + Quoted(s[1..])
  }

  lemma {:induction false} QuotedIsDoubled(s: string)
    ensures Doubled(Quoted(s))
  {
    if s != "" {
      QuotedIsDoubled(s[1..]);
      if s[0] == '\'' {
        assert Quoted(s)[2..] == Quoted(s[1..]);
      } else {
        TailOfCons(s[0], Quoted(s[1..]));
      }
    }
  }

  lemma {:induction false} Unquoted(body: string) returns (s: string)
    requires Doubled(body)
    ensures Quoted(s) == body
    decreases |body|
  {
    if body == "" {
      s := "";
    } else if body[0] == '\'' {
      var rest := Unquoted(body[2..]);
      s := "'" + rest;
      TailOfCons('\'', rest);
      assert body == "''" + body[2..];
    } else {
      var rest := Unquoted(body[1..]);
      s := [body[0]] + rest;
      TailOfCons(body[0], rest);
      assert body == [body[0]] + body[1..];
    }
  }

  /** The bodies of literals are exactly the texts with every quote written twice. */
  lemma LiteralBodies(body: string)
    ensures Doubled(body) <==> exists s :: Quoted(s) == body
  {
    if Doubled(body) {
      var s := Unquoted(body);
    }
    if s :| Quoted(s) == body {
      QuotedIsDoubled(s);
    }
  }

  // ----- block comments -----

  ghost predicate NoBlockEnd(s: string) {
    forall i :: 0 <= i < |s| - 1 ==> !(s[i] == '*' && s[i + 1] == '/')
  }

  ghost predicate NoBlockStart(s: string) {
    forall i :: 0 <= i < |s| - 1 ==> !(s[i] == '/' && s[i + 1] == '*')
  }

  lemma {:induction false} SkipBlockIff(s: string)
    ensures SkipBlock(s).None? <==> NoBlockEnd(s)
  {
    if |s| >= 2 && !(s[0] == '*' && s[1] == '/') {
      SkipBlockIff(s[1..]);
      NoBlockEndTail(s);
    }
  }

  lemma NoBlockEndTail(s: string)
    requires |s| >= 2 && !(s[0] == '*' && s[1] == '/')
    ensures NoBlockEnd(s) <==> NoBlockEnd(s[1..])
  {
    if NoBlockEnd(s[1..]) {
      forall i | 0 <= i < |s| - 1 ensures !(s[i] == '*' && s[i + 1] == '/') {
        if i > 0 {
          assert s[1..][i - 1] == s[i] && s[1..][i] == s[i + 1];
        }
      }
    }
  }

  /** A text without the end of a block comment is left alone, whatever begins in it. */
  lemma {:induction false} OpenBlocksStay(s: string)
    requires NoBlockEnd(s)
    ensures StripBlockComments(s) == s
  {
    if s != "" {
      if StartsBlock(s) {
        SkipBlockIff(s[2..]);
      }
      assert s == [s[0]] + s[1..];
      OpenBlocksStay(s[1..]);
    }
  }

  lemma {:induction false} SkipToFirstEnd(body: string, rest: string)
    requires NoBlockEnd(body)
    ensures SkipBlock(body + ("*/" + rest)) == Some(rest)
  {
    var s := body + ("*/" + rest);
    if body == "" {
      assert s == "*/" + rest && s[2..] == rest;
    } else {
      ConsAppend(body, "*/" + rest);
      assert s[1] == if |body| == 1 then '*' else body[1];
      if |body| >= 2 {
        NoBlockEndTail(body);
      }
      SkipToFirstEnd(body[1..], rest);
    }
  }

  /** A block comment goes from its beginning to the first end after it, and nothing else goes with it. */
  lemma {:induction false} BlockCommentRemoved(code: string, body: string, rest: string)
    requires NoBlockStart(code) && NoBlockEnd(body)
    ensures StripBlockComments(code + ("/*" + (body + ("*/" + rest)))) == code + StripBlockComments(rest)
    decreases |code|
  {
    var comment := "/*" + (body + ("*/" + rest));
    if code == "" {
      SkipToFirstEnd(body, rest);
      assert code + comment == comment && comment[2..] == body + ("*/" + rest);
      BlockSkip(comment);
      assert "" + StripBlockComments(rest) == StripBlockComments(rest);
    } else {
      ConsAppend(code, comment);
      NotAStart(code, comment);
      BlockStep(code + comment);
      BlockCommentRemoved(code[1..], body, rest);
      Prepend(code[0], code[1..], StripBlockComments(rest));
      assert code == [code[0]] + code[1..];
    }
  }

  lemma NotAStart(code: string, comment: string)
    requires code != "" && NoBlockStart(code) && comment != "" && comment[0] == '/'
    ensures !StartsBlock(code + comment)
    ensures NoBlockStart(code[1..])
  {
    var t := code[1..];
    assert (code + comment)[1] == if |code| == 1 then '/' else code[1];
    forall i | 0 <= i < |t| - 1 ensures !(t[i] == '/' && t[i + 1] == '*') {
      assert t[i] == code[i + 1] && t[i + 1] == code[i + 2];
    }
  }
}
