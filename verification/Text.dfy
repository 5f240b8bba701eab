/**
 String handling the source takes from the Python runtime: the whitespace class of
 `str.strip`, trimming, and the code-point order used to compare strings.
 */
module Text {

  /** The characters for which Python's `str.isspace` holds. */
  predicate IsSpace(c: char) {
    var n := c as int;
    9 <= n <= 13 || 28 <= n <= 32 || n == 0x85 || n == 0xA0 || n == 0x1680
    || 0x2000 <= n <= 0x200A || n == 0x2028 || n == 0x2029 || n == 0x202F
    || n == 0x205F || n == 0x3000
  }

  /** The same class, code by code. */
  lemma WhitespaceListed(c: char)
    ensures IsSpace(c)
            <==> c as int in {0x09, 0x0A, 0x0B, 0x0C, 0x0D, 0x1C, 0x1D, 0x1E, 0x1F, 0x20, 0x85, 0xA0, 0x1680,
                              0x2000, 0x2001, 0x2002, 0x2003, 0x2004, 0x2005, 0x2006, 0x2007, 0x2008, 0x2009,
                              0x200A, 0x2028, 0x2029, 0x202F, 0x205F, 0x3000}
  {
  }

  /** `str.lstrip`. */
  function TrimLeft(s: string): string {
    if s != "" && IsSpace(s[0]) then TrimLeft(s[1..]) else s
  }

  /** `str.rstrip`. */
  function TrimRight(s: string): string {
    if s != "" && IsSpace(s[|s| - 1]) then TrimRight(s[..|s| - 1]) else s
  }

  /** Exactly the leading run of whitespace is dropped. */
  lemma {:induction false} TrimLeftIs(s: string)
    ensures var r := TrimLeft(s);
            && |r| <= |s| && r == s[|s| - |r|..] && AllSpace(s[..|s| - |r|])
            && (r != "" ==> !IsSpace(r[0]))
  {
    if s != "" && IsSpace(s[0]) {
      var t, n := s[1..], |s| - |TrimLeft(s)|;
      TrimLeftIs(t);
      assert s[n..] == t[n - 1..];
      AllSpaceCons(s, n);
    }
  }

  predicate AllSpace(s: string) {
    forall i :: 0 <= i < |s| ==> IsSpace(s[i])
  }

  lemma AllSpaceCons(s: string, n: nat)
    requires 0 < n <= |s| && IsSpace(s[0]) && AllSpace(s[1..][..n - 1])
    ensures AllSpace(s[..n])
  {
    forall i | 0 <= i < n ensures IsSpace(s[..n][i]) {
      if i > 0 {
        assert s[..n][i] == s[1..][..n - 1][i - 1];
      }
    }
  }

  /** Exactly the trailing run of whitespace is dropped. */
  lemma {:induction false} TrimRightIs(s: string)
    ensures var r := TrimRight(s);
            && |r| <= |s| && r == s[..|r|]
            && (forall i :: |r| <= i < |s| ==> IsSpace(s[i]))
            && (r != "" ==> !IsSpace(r[|r| - 1]))
  {
    if s != "" && IsSpace(s[|s| - 1]) {
      TrimRightIs(s[..|s| - 1]);
    }
  }

  /** `str.strip`. */
  function Strip(s: string): string {
    TrimRight(TrimLeft(s))
  }

  predicate Blank(s: string) {
    Strip(s) == ""
  }

  /** A text with no whitespace at either end. */
  predicate Trimmed(s: string) {
    s == "" || (!IsSpace(s[0]) && !IsSpace(s[|s| - 1]))
  }

  /** Trimming takes whitespace off both ends and nothing else. */
  lemma StripIs(s: string) returns (before: string, after: string)
    ensures s == before + (Strip(s) + after)
    ensures AllSpace(before) && AllSpace(after) && Trimmed(Strip(s))
  {
    var t := TrimLeft(s);
    TrimLeftIs(s);
    TrimRightIs(t);
    StripIsTrimmed(s);
    before, after := s[..|s| - |t|], t[|Strip(s)|..];
    assert s == before + t && t == Strip(s) + after;
  }

  lemma StripIsTrimmed(s: string)
    ensures Trimmed(Strip(s))
  {
    var t := TrimLeft(s);
    TrimLeftIs(s);
    TrimRightIs(t);
    if Strip(s) != "" {
      assert Strip(s)[0] == t[0];
    }
  }

  lemma StripOfTrimmed(s: string)
    requires Trimmed(s)
    ensures Strip(s) == s
  {
  }

  /** A text is blank exactly when all its characters are whitespace. */
  lemma BlankIffAllSpace(s: string)
    ensures Blank(s) <==> forall i :: 0 <= i < |s| ==> IsSpace(s[i])
  {
    var t := TrimLeft(s);
    TrimLeftIs(s);
    TrimRightIs(t);
    if t != "" {
      assert t[0] == s[|s| - |t|];
      assert t[0] == Strip(s)[0] || Strip(s) == "";
    }
  }

  /** Python's `<=` on strings: lexicographic by code point. */
  predicate LexLeq(a: string, b: string) {
    a == "" || (b != "" && (a[0] < b[0] || (a[0] == b[0] && LexLeq(a[1..], b[1..]))))
  }

  /** At the first place where the texts differ, `a` has the smaller character. */
  ghost predicate SmallerAtFirstDifference(a: string, b: string) {
    exists k :: 0 <= k < |a| && k < |b| && a[..k] == b[..k] && a[k] < b[k]
  }

  /** One text comes before another exactly when it begins it or is smaller where they first differ. */
  lemma {:induction false} LexLeqIff(a: string, b: string)
    ensures LexLeq(a, b) <==> a <= b || SmallerAtFirstDifference(a, b)
  {
    if a != "" && b != "" && a[0] == b[0] {
      LexLeqIff(a[1..], b[1..]);
      SameHead(a, b);
    } else if a != "" && b != "" {
      if a[0] < b[0] {
        assert a[..0] == b[..0];
      }
    }
  }

  lemma SameHead(a: string, b: string)
    requires a != "" && b != "" && a[0] == b[0]
    ensures a <= b <==> a[1..] <= b[1..]
    ensures SmallerAtFirstDifference(a, b) <==> SmallerAtFirstDifference(a[1..], b[1..])
  {
    assert a == [a[0]] + a[1..] && b == [a[0]] + b[1..];
    if k :| 0 <= k < |a| && k < |b| && a[..k] == b[..k] && a[k] < b[k] {
      assert a[1..][..k - 1] == a[..k][1..] && b[1..][..k - 1] == b[..k][1..];
      assert a[1..][k - 1] < b[1..][k - 1];
    }
    if k :| 0 <= k < |a[1..]| && k < |b[1..]| && a[1..][..k] == b[1..][..k] && a[1..][k] < b[1..][k] {
      assert a[..k + 1] == [a[0]] + a[1..][..k] && b[..k + 1] == [a[0]] + b[1..][..k];
      assert a[k + 1] < b[k + 1];
    }
  }

  lemma {:induction false} LexTotal(a: string, b: string)
    ensures LexLeq(a, b) || LexLeq(b, a)
  {
    if a != "" && b != "" && a[0] == b[0] {
      LexTotal(a[1..], b[1..]);
    }
  }

  lemma {:induction false} LexAntisymmetric(a: string, b: string)
    requires LexLeq(a, b) && LexLeq(b, a)
    ensures a == b
  {
    if a != "" {
      LexAntisymmetric(a[1..], b[1..]);
      assert a == [a[0]] + a[1..] && b == [b[0]] + b[1..];
    }
  }

  lemma {:induction false} LexTransitive(a: string, b: string, c: string)
    requires LexLeq(a, b) && LexLeq(b, c)
    ensures LexLeq(a, c)
  {
    if a != "" && a[0] == b[0] == c[0] {
      LexTransitive(a[1..], b[1..], c[1..]);
    }
  }
}
