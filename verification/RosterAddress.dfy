/** The surface-address pattern of the roster validator (ssr/tools/validate_anchor_roster.py). */
module RosterAddress {

  predicate IsLabelChar(c: char) {
    'A' <= c <= 'Z' || 'a' <= c <= 'z' || '0' <= c <= '9' || c == '-'
  }

  /** The same class by code point. */
  lemma LabelCharCodes(c: char)
    ensures IsLabelChar(c)
            <==> var n := c as int; n == 45 || 48 <= n <= 57 || 65 <= n <= 90 || 97 <= n <= 122
  {
  }

  predicate IsLabel(s: string) {
    s != "" && forall c :: c in s ==> IsLabelChar(c)
  }

  /** The grammar: three slashes and three labels separated by dots, and nothing else. */
  ghost predicate IsAddress(s: string) {
    exists a, b, c :: IsLabel(a) && IsLabel(b) && IsLabel(c) && s == "///" + Labels(a, b, c)
  }

  function Labels(a: string, b: string, c: string): string {
    a + "." + (b + "." + c)
  }

  /** How many label characters a text starts with. */
  function LabelLength(s: string): nat {
    if s == "" || !IsLabelChar(s[0]) then 0 else 1 + LabelLength(s[1..])
  }

  lemma {:induction false} LabelLengthIs(s: string)
    ensures |s| >= LabelLength(s)
    ensures forall c :: c in s[..LabelLength(s)] ==> IsLabelChar(c)
    ensures |s| > LabelLength(s) ==> !IsLabelChar(s[LabelLength(s)])
  {
    if s != "" && IsLabelChar(s[0]) {
      LabelLengthIs(s[1..]);
      assert s[..LabelLength(s)] == [s[0]] + s[1..][..LabelLength(s[1..])];
    }
  }

  lemma {:induction false} LabelLengthOf(word: string, rest: string)
    requires forall c :: c in word ==> IsLabelChar(c)
    requires rest == "" || !IsLabelChar(rest[0])
    ensures LabelLength(word + rest) == |word|
  {
    if word == "" {
      assert word + rest == rest;
    } else {
      assert word[0] in word && (word + rest)[1..] == word[1..] + rest;
      LabelLengthOf(word[1..], rest);
    }
  }

  /** Matching `count` labels separated by dots, from left to right. */
  predicate MatchesLabels(s: string, count: nat)
    requires count > 0
  {
    LabelLengthIs(s);
    var n := LabelLength(s);
    n > 0 && if count == 1 then n == |s| else n < |s| && s[n] == '.' && MatchesLabels(s[n + 1..], count - 1)
  }

  /** The full match the validator performs. */
  predicate MatchesAddress(s: string) {
    |s| >= 3 && s[0] == '/' && s[1] == '/' && s[2] == '/' && MatchesLabels(s[3..], 3)
  }

  lemma LastLabel(s: string)
    requires MatchesLabels(s, 1)
    ensures IsLabel(s)
  {
    LabelLengthIs(s);
    assert s[..|s|] == s;
  }

  lemma FirstLabel(s: string, count: nat) returns (first: string, rest: string)
    requires count > 1 && MatchesLabels(s, count)
    ensures IsLabel(first) && s == first + "." + rest && MatchesLabels(rest, count - 1)
  {
    LabelLengthIs(s);
    var n := LabelLength(s);
    first, rest := s[..n], s[n + 1..];
  }

  lemma ThreeLabels(t: string) returns (a: string, b: string, c: string)
    requires MatchesLabels(t, 3)
    ensures IsLabel(a) && IsLabel(b) && IsLabel(c) && t == Labels(a, b, c)
  {
    var u;
    a, u := FirstLabel(t, 3);
    b, c := FirstLabel(u, 2);
    LastLabel(c);
  }

  lemma LabelsMatch(a: string, b: string, c: string)
    requires IsLabel(a) && IsLabel(b) && IsLabel(c)
    ensures MatchesLabels(Labels(a, b, c), 3)
  {
    OneLabelMatches(c);
    LabelPrepended(b, c, 1);
    LabelPrepended(a, b + "." + c, 2);
  }

  lemma OneLabelMatches(c: string)
    requires IsLabel(c)
    ensures MatchesLabels(c, 1)
  {
    LabelLengthOf(c, "");
    assert c + "" == c;
  }

  lemma LabelPrepended(a: string, rest: string, count: nat)
    requires IsLabel(a) && count > 0 && MatchesLabels(rest, count)
    ensures MatchesLabels(a + "." + rest, count + 1)
  {
    var t := a + "." + rest;
    assert t == a + ("." + rest);
    LabelLengthOf(a, "." + rest);
    assert t[|a|] == '.' && t[|a| + 1..] == rest;
  }

  /** The matcher accepts exactly the texts of the grammar. */
  lemma MatchesIff(s: string)
    ensures MatchesAddress(s) <==> IsAddress(s)
  {
    if MatchesAddress(s) {
      var a, b, c := ThreeLabels(s[3..]);
      assert s == "///" + Labels(a, b, c);
    }
    if IsAddress(s) {
      var a, b, c :| IsLabel(a) && IsLabel(b) && IsLabel(c) && s == "///" + Labels(a, b, c);
      LabelsMatch(a, b, c);
      assert s[3..] == Labels(a, b, c);
    }
  }

  /** Addresses consist of slashes, dots and label characters only. */
  lemma AddressCharacters(s: string, i: nat)
    requires IsAddress(s) && i < |s|
    ensures s[i] == '/' || s[i] == '.' || IsLabelChar(s[i])
  {
    var a, b, c :| IsLabel(a) && IsLabel(b) && IsLabel(c) && s == "///" + Labels(a, b, c);
    var t := Labels(a, b, c);
    if i >= 3 {
      var j := i - 3;
      assert s[i] == t[j];
      if j < |a| {
        assert t[j] == a[j] && a[j] in a;
      } else if |a| < j < |a| + 1 + |b| {
        assert t[j] == b[j - |a| - 1] && b[j - |a| - 1] in b;
      } else if j > |a| + 1 + |b| {
        assert t[j] == c[j - |a| - |b| - 2] && c[j - |a| - |b| - 2] in c;
      }
    }
  }
}
