/**
 Ecology intelligence projections (setc/ecology/intelligence.py), over exact reals:
 the authority concentration index and the posture derived for an aggregate.
 */
module Intelligence {
  import opened Wrappers
  import opened Text
  import opened Sums
  import opened Grouping

  datatype MeasurementPosture = Estimate | Observed | Verified

  datatype IntelligenceInput = IntelligenceInput(
    referenceId: string,
    value: real,
    sourceAuthority: string,
    posture: MeasurementPosture,
    confidence: Option<real>,
    verificationAuthority: Option<string>)
  {
    /** The constructor's checks all pass. */
    predicate Valid() {
      && !Blank(referenceId) && !Blank(sourceAuthority)
      && value >= 0.0
      && (confidence.Some? ==> 0.0 <= confidence.value <= 1.0)
      && (posture.Verified? ==> verificationAuthority.Some? && verificationAuthority.value != "")
    }
  }

  ghost predicate AllValid(inputs: seq<IntelligenceInput>) {
    forall x :: x in inputs ==> x.Valid()
  }

  function AuthorityOf(x: IntelligenceInput): string { x.sourceAuthority }

  function ValueOf(x: IntelligenceInput): real { x.value }

  function Total(inputs: seq<IntelligenceInput>): real {
    SumBy(ValueOf, inputs)
  }

  function Authorities(inputs: seq<IntelligenceInput>): seq<string> {
    Keys(AuthorityOf, inputs)
  }

  /** The value held by one authority, found by rescanning the inputs. */
  function Held(inputs: seq<IntelligenceInput>, authority: string): real {
    GroupTotal(AuthorityOf, ValueOf, inputs, authority)
  }

  function Share(part: real, total: real): real {
    if total == 0.0 then 0.0 else part / total
  }

  function SquaredShare(inputs: seq<IntelligenceInput>, total: real): string -> real {
    (a: string) => Square(Share(Held(inputs, a), total))
  }

  function Square(x: real): real { x * x }

  function SquareSum(inputs: seq<IntelligenceInput>, total: real): real {
    SumBy(SquaredShare(inputs, total), Authorities(inputs))
  }

  /** The Herfindahl index of the value held per authority; zero when nothing is held. */
  function Concentration(inputs: seq<IntelligenceInput>): real {
    if Total(inputs) == 0.0 then 0.0
    else SquareSum(inputs, Total(inputs))
  }

  // ----- the imperative computation -----

  method AuthorityConcentration(inputs: seq<IntelligenceInput>) returns (hhi: real)
    ensures hhi == Concentration(inputs)
  {
    var total := SumValues(inputs);
    var byAuthority, order := TotalsByAuthority(inputs);
    if total == 0.0 {
      return 0.0;
    }
    hhi := 0.0;
    for j := 0 to |order|
      invariant hhi == SumBy(SquaredShare(inputs, total), order[..j])
    {
      assert order[..j + 1][..j] == order[..j];
      assert order[j] in order;
      hhi := hhi + Square(Share(byAuthority[order[j]], total));
    }
    assert order[..|order|] == order;
  }

  method SumValues(inputs: seq<IntelligenceInput>) returns (total: real)
    ensures total == Total(inputs)
  {
    total := 0.0;
    for i := 0 to |inputs|
      invariant total == Total(inputs[..i])
    {
      assert inputs[..i + 1][..i] == inputs[..i];
      total := total + inputs[i].value;
    }
    assert inputs[..|inputs|] == inputs;
  }

  /** The running dictionary holds, per authority, what a rescan of the inputs finds. */
  method TotalsByAuthority(inputs: seq<IntelligenceInput>) returns (byAuthority: map<string, real>, order: seq<string>)
    ensures order == Authorities(inputs)
    ensures forall a :: a in byAuthority <==> a in order
    ensures forall a :: a in byAuthority ==> byAuthority[a] == Held(inputs, a)
  {
    byAuthority, order := map[], [];
    for i := 0 to |inputs|
      invariant order == Authorities(inputs[..i])
      invariant forall a :: a in byAuthority <==> a in order
      invariant forall a :: a in byAuthority ==> byAuthority[a] == Held(inputs[..i], a)
    {
      var item := inputs[i];
      assert inputs[..i + 1] == inputs[..i] + [item];
      HeldSnoc(inputs[..i], item);
      var prior := 0.0;
      if item.sourceAuthority in byAuthority {
        prior := byAuthority[item.sourceAuthority];
      } else {
        AuthorityUnheld(inputs[..i], item.sourceAuthority);
        order := order + [item.sourceAuthority];
      }
      byAuthority := byAuthority[item.sourceAuthority := prior + item.value];
    }
    assert inputs[..|inputs|] == inputs;
  }

  lemma AuthorityUnheld(inputs: seq<IntelligenceInput>, a: string)
    requires a !in Authorities(inputs)
    ensures Held(inputs, a) == 0.0
  {
    KeysAre(AuthorityOf, inputs);
    AbsentKey(AuthorityOf, ValueOf, inputs, a);
  }

  lemma HeldSnoc(inputs: seq<IntelligenceInput>, item: IntelligenceInput)
    ensures forall a :: Held(inputs + [item], a)
                        == Held(inputs, a) + (if item.sourceAuthority == a then item.value else 0.0)
    ensures Authorities(inputs + [item])
         == Authorities(inputs) + (if item.sourceAuthority in Authorities(inputs) then [] else [item.sourceAuthority])
  {
    assert (inputs + [item])[..|inputs|] == inputs;
    forall a ensures Held(inputs + [item], a)
                     == Held(inputs, a) + (if item.sourceAuthority == a then item.value else 0.0)
    {
      var f := ShareOf(AuthorityOf, ValueOf, a);
      assert SumBy(f, inputs + [item]) == SumBy(f, inputs) + f(item);
      assert AuthorityOf(item) == item.sourceAuthority && ValueOf(item) == item.value;
    }
  }

  // ----- conservation and order independence -----

  /** Regrouping by authority conserves the total. */
  lemma RegroupingConservesTotal(inputs: seq<IntelligenceInput>)
    ensures SumBy(TotalOf(AuthorityOf, ValueOf, inputs), Authorities(inputs)) == Total(inputs)
  {
    KeysAre(AuthorityOf, inputs);
    RegroupConserves(AuthorityOf, ValueOf, inputs, Authorities(inputs));
  }

  /** The index does not depend on the order of the inputs. */
  lemma ConcentrationPermutation(a: seq<IntelligenceInput>, b: seq<IntelligenceInput>)
    requires multiset(a) == multiset(b)
    ensures Concentration(a) == Concentration(b)
  {
    SumPermutation(ValueOf, a, b);
    GroupPermutation(AuthorityOf, ValueOf, a, b);
    var t := Total(a);
    SumPermutation(SquaredShare(a, t), Authorities(a), Authorities(b));
    SumCongruent(SquaredShare(a, t), SquaredShare(b, t), Authorities(b));
  }

  // ----- bounds -----

  function SumOf(xs: seq<real>): real { SumBy((x: real) => x, xs) }

  function SumOfSquares(xs: seq<real>): real { SumBy(Square, xs) }

  /** Sum over all earlier-later pairs of the squared difference with the later one. */
  function Spread(xs: seq<real>): real {
    if xs == [] then 0.0
    else
      var n := |xs| - 1;
      Spread(xs[..n]) + SumBy((x: real) => Square(x - xs[n]), xs[..n])
  }

  lemma {:induction false} SquaredDifferences(xs: seq<real>, y: real)
    ensures SumBy((x: real) => Square(x - y), xs)
         == SumOfSquares(xs) - 2.0 * y * SumOf(xs) + (|xs| as real) * Square(y)
  {
    if xs != [] {
      var n := |xs| - 1;
      SquaredDifferences(xs[..n], y);
      var s, q := SumOf(xs[..n]), SumOfSquares(xs[..n]);
      assert SumOf(xs) == s + xs[n] && SumOfSquares(xs) == q + Square(xs[n]);
      Expand(s, xs[n], y, n as real);
    }
  }

  lemma Expand(s: real, x: real, y: real, n: real)
    ensures Square(x - y) == Square(x) - 2.0 * y * x + Square(y)
    ensures 2.0 * y * (s + x) == 2.0 * y * s + 2.0 * y * x
    ensures (n + 1.0) * Square(y) == n * Square(y) + Square(y)
  {
  }

  /** Lagrange's identity: what the Cauchy-Schwarz inequality leaves over. */
  lemma {:induction false} LagrangeIdentity(xs: seq<real>)
    ensures (|xs| as real) * SumOfSquares(xs) - Square(SumOf(xs)) == Spread(xs)
  {
    if xs != [] {
      var n := |xs| - 1;
      var s, q, x := SumOf(xs[..n]), SumOfSquares(xs[..n]), xs[n];
      LagrangeIdentity(xs[..n]);
      SquaredDifferences(xs[..n], x);
      assert SumOf(xs) == s + x && SumOfSquares(xs) == q + Square(x);
      LagrangeStep(n as real, s, q, x);
    }
  }

  lemma LagrangeStep(n: real, s: real, q: real, x: real)
    ensures (n + 1.0) * (q + Square(x)) - Square(s + x)
         == (n * q - Square(s)) + (q - 2.0 * x * s + n * Square(x))
  {
  }

  ghost predicate AllEqual(xs: seq<real>) {
    forall i, j :: 0 <= i < j < |xs| ==> xs[i] == xs[j]
  }

  /** The spread is never negative, and is zero exactly when all values are equal. */
  lemma {:induction false} SpreadSign(xs: seq<real>)
    ensures Spread(xs) >= 0.0
    ensures Spread(xs) == 0.0 <==> AllEqual(xs)
  {
    if xs != [] {
      var n := |xs| - 1;
      var f := (x: real) => Square(x - xs[n]);
      forall x: real ensures f(x) >= 0.0 && (f(x) == 0.0 <==> x == xs[n]) {
        SquareSign(x - xs[n]);
      }
      SpreadSign(xs[..n]);
      SumNonNegative(f, xs[..n]);
      assert Spread(xs) == Spread(xs[..n]) + SumBy(f, xs[..n]);
      if Spread(xs) == 0.0 {
        forall i, j | 0 <= i < j < |xs| ensures xs[i] == xs[j] {
          assert xs[..n][i] in xs[..n];
          assert f(xs[i]) == 0.0;
          assert xs[i] == xs[n];
          if j < n {
            assert xs[..n][j] in xs[..n];
            assert f(xs[j]) == 0.0;
          }
        }
      } else if AllEqual(xs) {
        SumZero(f, xs[..n]);
      }
    }
  }

  lemma ProductSign(x: real, y: real, product: real)
    requires product == x * y
    ensures x > 0.0 && y > 0.0 ==> product > 0.0
    ensures x < 0.0 && y < 0.0 ==> product > 0.0
  {
  }

  lemma SquareSign(x: real)
    ensures Square(x) >= 0.0
    ensures Square(x) == 0.0 <==> x == 0.0
  {
    ProductSign(x, x, Square(x));
  }

  /** A sum of squares is at most the square of the sum, with equality for one non-zero term. */
  lemma {:induction false} SquaresWithinSquare(xs: seq<real>)
    requires forall x :: x in xs ==> x >= 0.0
    ensures SumOfSquares(xs) <= Square(SumOf(xs)) && SumOf(xs) >= 0.0
    ensures SumOfSquares(xs) == Square(SumOf(xs)) <==> SumOf(xs) == 0.0 || SumOf(xs) in xs
  {
    if xs != [] {
      var n := |xs| - 1;
      var s, q, x := SumOf(xs[..n]), SumOfSquares(xs[..n]), xs[n];
      assert xs == xs[..n] + [x] && x in xs;
      assert forall y :: y in xs[..n] ==> y in xs;
      SquaresWithinSquare(xs[..n]);
      SumNonNegative((y: real) => y, xs[..n]);
      assert SumOf(xs) == s + x && SumOfSquares(xs) == q + Square(x);
      CrossTerm(s, x);
      if s > 0.0 && x > 0.0 {
        assert s + x !in xs[..n];
      }
      if s == 0.0 {
        assert q == 0.0;
      }
    }
  }

  lemma CrossTerm(s: real, x: real)
    requires s >= 0.0 && x >= 0.0
    ensures Square(s + x) == Square(s) + 2.0 * (s * x) + Square(x)
    ensures s * x >= 0.0
    ensures s * x == 0.0 <==> s == 0.0 || x == 0.0
  {
  }

  /** What each authority holds, in dictionary order. */
  function Holdings(inputs: seq<IntelligenceInput>, ks: seq<string>): (hs: seq<real>)
    ensures |hs| == |ks|
    ensures forall i :: 0 <= i < |ks| ==> hs[i] == Held(inputs, ks[i])
  {
    if ks == [] then []
    else Holdings(inputs, ks[..|ks| - 1]) + [Held(inputs, ks[|ks| - 1])]
  }

  function TimesSquare(x: real, y: real): real { x * (y * y) }

  lemma {:induction false} HoldingsSums(inputs: seq<IntelligenceInput>, ks: seq<string>)
    requires Total(inputs) != 0.0
    ensures SumOf(Holdings(inputs, ks)) == SumBy(TotalOf(AuthorityOf, ValueOf, inputs), ks)
    ensures TimesSquare(SumBy(SquaredShare(inputs, Total(inputs)), ks), Total(inputs))
         == SumOfSquares(Holdings(inputs, ks))
  {
    if ks != [] {
      var n := |ks| - 1;
      HoldingsSums(inputs, ks[..n]);
      var hs := Holdings(inputs, ks);
      assert hs[..n] == Holdings(inputs, ks[..n]);
      var h, t := Held(inputs, ks[n]), Total(inputs);
      assert ((h / t) * (h / t)) * Square(t) == Square(h) by {
        Rescale(h, t);
      }
      var r := SumBy(SquaredShare(inputs, Total(inputs)), ks[..n]);
      assert (r + (h / t) * (h / t)) * Square(t) == r * Square(t) + ((h / t) * (h / t)) * Square(t);
    }
  }

  lemma Rescale(h: real, t: real)
    requires t != 0.0
    ensures ((h / t) * (h / t)) * Square(t) == Square(h)
  {
    var u := h / t;
    assert u * t == h;
    assert (u * u) * (t * t) == (u * t) * (u * t);
  }

  lemma HeldNonNegative(inputs: seq<IntelligenceInput>, a: string)
    requires AllValid(inputs)
    ensures 0.0 <= Held(inputs, a) <= Total(inputs)
  {
    forall x | x in inputs ensures 0.0 <= ShareOf(AuthorityOf, ValueOf, a)(x) <= ValueOf(x) {
      assert x.Valid() && AuthorityOf(x) == x.sourceAuthority && ValueOf(x) == x.value;
    }
    SumNonNegative(ShareOf(AuthorityOf, ValueOf, a), inputs);
    SumMonotone(ShareOf(AuthorityOf, ValueOf, a), ValueOf, inputs);
  }

  /** The index times the squared total is the sum of squared holdings of the total. */
  lemma ConcentrationInTotals(inputs: seq<IntelligenceInput>)
    requires AllValid(inputs) && Total(inputs) > 0.0
    ensures var hs := Holdings(inputs, Authorities(inputs));
            && TimesSquare(Concentration(inputs), Total(inputs)) == SumOfSquares(hs)
            && SumOf(hs) == Total(inputs)
            && |hs| == |Authorities(inputs)| > 0
            && forall h :: h in hs ==> h >= 0.0
  {
    var ks := Authorities(inputs);
    var hs := Holdings(inputs, ks);
    HoldingsSums(inputs, ks);
    RegroupingConservesTotal(inputs);
    forall h | h in hs ensures h >= 0.0 {
      var i :| 0 <= i < |hs| && hs[i] == h;
      HeldNonNegative(inputs, ks[i]);
    }
    assert inputs != [];
    KeysAre(AuthorityOf, inputs);
    assert AuthorityOf(inputs[0]) in ks;
  }

  ghost predicate OneHoldsAll(inputs: seq<IntelligenceInput>) {
    exists a :: a in Authorities(inputs) && Held(inputs, a) == Total(inputs)
  }

  ghost predicate AllHoldAlike(inputs: seq<IntelligenceInput>) {
    forall a, b :: a in Authorities(inputs) && b in Authorities(inputs) ==> Held(inputs, a) == Held(inputs, b)
  }

  /** For k authorities with a positive total the index lies between 1/k and 1. */
  lemma ConcentrationBounds(inputs: seq<IntelligenceInput>)
    requires AllValid(inputs) && Total(inputs) > 0.0
    ensures var k := |Authorities(inputs)|;
            k > 0 && 1.0 / (k as real) <= Concentration(inputs) <= 1.0
    ensures Concentration(inputs) == 1.0
            <==> Total(inputs) in Holdings(inputs, Authorities(inputs))
    ensures Concentration(inputs) == 1.0 / (|Authorities(inputs)| as real)
            <==> AllEqual(Holdings(inputs, Authorities(inputs)))
  {
    ConcentrationInTotals(inputs);
    var hs := Holdings(inputs, Authorities(inputs));
    IndexBounds(Concentration(inputs), Total(inputs), |Authorities(inputs)| as real, hs);
  }

  /** The index is zero exactly when no input has any value. */
  lemma ZeroIff(inputs: seq<IntelligenceInput>)
    requires AllValid(inputs)
    ensures Concentration(inputs) == 0.0 <==> forall x :: x in inputs ==> x.value == 0.0
  {
    TotalZeroIff(inputs);
    if Total(inputs) > 0.0 {
      ConcentrationBounds(inputs);
      Reciprocal(|Authorities(inputs)| as real);
    }
  }

  lemma TotalZeroIff(inputs: seq<IntelligenceInput>)
    requires AllValid(inputs)
    ensures Total(inputs) >= 0.0
    ensures Total(inputs) == 0.0 <==> forall x :: x in inputs ==> x.value == 0.0
  {
    forall x | x in inputs ensures ValueOf(x) == x.value >= 0.0 {
      assert x.Valid();
    }
    SumNonNegative(ValueOf, inputs);
    if forall x :: x in inputs ==> x.value == 0.0 {
      SumZero(ValueOf, inputs);
    }
  }

  lemma Reciprocal(k: real)
    requires k > 0.0
    ensures 1.0 / k > 0.0
  {
  }

  /** The index is 1 exactly when one authority holds everything. */
  lemma FullyConcentrated(inputs: seq<IntelligenceInput>)
    requires AllValid(inputs) && Total(inputs) > 0.0
    ensures Concentration(inputs) == 1.0 <==> OneHoldsAll(inputs)
  {
    ConcentrationBounds(inputs);
    HoldingsTotal(inputs);
  }

  /** The index is 1/k exactly when all k authorities hold the same. */
  lemma EvenlySpread(inputs: seq<IntelligenceInput>)
    requires AllValid(inputs) && Total(inputs) > 0.0
    ensures |Authorities(inputs)| > 0
    ensures Concentration(inputs) == 1.0 / (|Authorities(inputs)| as real) <==> AllHoldAlike(inputs)
  {
    ConcentrationBounds(inputs);
    HoldingsAlike(inputs);
  }

  /** The bounds for any non-negative holdings, from Lagrange's identity and its dual. */
  lemma IndexBounds(c: real, t: real, k: real, hs: seq<real>)
    requires t > 0.0 && k == |hs| as real > 0.0 && SumOf(hs) == t
    requires TimesSquare(c, t) == SumOfSquares(hs)
    requires forall h :: h in hs ==> h >= 0.0
    ensures 1.0 / k <= c <= 1.0
    ensures c == 1.0 <==> t in hs
    ensures c == 1.0 / k <==> AllEqual(hs)
  {
    LagrangeIdentity(hs);
    SpreadSign(hs);
    SquaresWithinSquare(hs);
    SquareSign(t);
    CompareScaled(c, Square(t), k, SumOfSquares(hs));
  }

  lemma HoldingsTotal(inputs: seq<IntelligenceInput>)
    ensures Total(inputs) in Holdings(inputs, Authorities(inputs)) <==> OneHoldsAll(inputs)
  {
    var ks := Authorities(inputs);
    var hs := Holdings(inputs, ks);
    if a :| a in ks && Held(inputs, a) == Total(inputs) {
      var i :| 0 <= i < |ks| && ks[i] == a;
      assert hs[i] == Total(inputs);
    }
    if Total(inputs) in hs {
      var i :| 0 <= i < |hs| && hs[i] == Total(inputs);
      assert ks[i] in ks;
    }
  }

  lemma HoldingsAlike(inputs: seq<IntelligenceInput>)
    ensures AllEqual(Holdings(inputs, Authorities(inputs))) <==> AllHoldAlike(inputs)
  {
    var ks := Authorities(inputs);
    var hs := Holdings(inputs, ks);
    if AllEqual(hs) {
      forall a, b | a in ks && b in ks ensures Held(inputs, a) == Held(inputs, b) {
        var i :| 0 <= i < |ks| && ks[i] == a;
        var j :| 0 <= j < |ks| && ks[j] == b;
        assert hs[i] == Held(inputs, a) && hs[j] == Held(inputs, b);
        assert i < j || j < i || i == j;
      }
    } else {
      var i, j :| 0 <= i < j < |hs| && hs[i] != hs[j];
      assert ks[i] in ks && ks[j] in ks;
    }
  }

  lemma CompareScaled(c: real, q: real, k: real, p: real)
    requires q > 0.0 && k > 0.0 && p == c * q
    ensures p <= q <==> c <= 1.0
    ensures p == q <==> c == 1.0
    ensures k * p - q >= 0.0 <==> 1.0 / k <= c
    ensures k * p - q == 0.0 <==> 1.0 / k == c
  {
    Sign(c - 1.0, q, p - q);
    assert k * p - q == (k * c - 1.0) * q;
    Sign(k * c - 1.0, q, k * p - q);
    assert k * (1.0 / k) == 1.0;
    assert k * c - 1.0 == k * (c - 1.0 / k);
    Sign(c - 1.0 / k, k, k * c - 1.0);
  }

  lemma Sign(x: real, q: real, product: real)
    requires q > 0.0 && product == x * q
    ensures product >= 0.0 <==> x >= 0.0
    ensures product <= 0.0 <==> x <= 0.0
  {
  }

  // ----- in the inputs' own values -----

  /** The values of the inputs, added up. */
  function ValueSum(inputs: seq<IntelligenceInput>): real {
    if inputs == [] then 0.0 else ValueSum(inputs[..|inputs| - 1]) + inputs[|inputs| - 1].value
  }

  /** The values of the inputs of one authority, added up. */
  function ValueSumOf(inputs: seq<IntelligenceInput>, authority: string): real {
    if inputs == [] then 0.0
    else
      var last := inputs[|inputs| - 1];
      ValueSumOf(inputs[..|inputs| - 1], authority) + (if last.sourceAuthority == authority then last.value else 0.0)
  }

  /** The products of the values of every two inputs of one authority, both ways, and of each input with itself. */
  function PairSum(inputs: seq<IntelligenceInput>): real {
    if inputs == [] then 0.0
    else
      var rest, last := inputs[..|inputs| - 1], inputs[|inputs| - 1];
      PairSum(rest) + PairsWith(ValueSumOf(rest, last.sourceAuthority), last.value)
  }

  /** The products of a value with earlier ones that add up to `earlier`, both ways, and with itself. */
  function PairsWith(earlier: real, value: real): real {
    2.0 * (earlier * value) + value * value
  }

  lemma {:induction false} ValueSumsAre(inputs: seq<IntelligenceInput>, authority: string)
    ensures Total(inputs) == ValueSum(inputs)
    ensures Held(inputs, authority) == ValueSumOf(inputs, authority)
  {
    if inputs != [] {
      ValueSumsAre(inputs[..|inputs| - 1], authority);
      HeldLast(inputs, authority);
    }
  }

  function SquaredHolding(inputs: seq<IntelligenceInput>): string -> real {
    (a: string) => Square(Held(inputs, a))
  }

  lemma SquareOfSum(x: real, y: real)
    ensures Square(x + y) - Square(x) == PairsWith(x, y)
  {
  }

  /** What the last input adds to the squared holding of each authority. */
  function Gain(inputs: seq<IntelligenceInput>): string -> real
    requires inputs != []
  {
    (a: string) => GainOf(inputs[..|inputs| - 1], inputs[|inputs| - 1], a)
  }

  function GainOf(rest: seq<IntelligenceInput>, last: IntelligenceInput, a: string): real {
    if a == last.sourceAuthority then PairsWith(ValueSumOf(rest, a), last.value) else 0.0
  }

  lemma SquaredHoldingLast(inputs: seq<IntelligenceInput>, a: string)
    requires inputs != []
    ensures SquaredHolding(inputs)(a) == SquaredHolding(inputs[..|inputs| - 1])(a) + Gain(inputs)(a)
  {
    var rest, last := inputs[..|inputs| - 1], inputs[|inputs| - 1];
    HeldLast(inputs, a);
    ValueSumsAre(rest, a);
    SquareOfSum(Held(rest, a), last.value);
  }

  lemma GainsAddUp(inputs: seq<IntelligenceInput>, cover: seq<string>)
    requires inputs != [] && Distinct(cover) && inputs[|inputs| - 1].sourceAuthority in cover
    ensures PairSum(inputs) == PairSum(inputs[..|inputs| - 1]) + SumBy(Gain(inputs), cover)
  {
    SumSingle(cover, Gain(inputs), inputs[|inputs| - 1].sourceAuthority);
  }

  /** Squared holdings, over any duplicate-free list of names that has all authorities. */
  lemma {:induction false} SquaredHoldingsAre(inputs: seq<IntelligenceInput>, cover: seq<string>)
    requires Distinct(cover) && forall x :: x in inputs ==> x.sourceAuthority in cover
    ensures SumBy(SquaredHolding(inputs), cover) == PairSum(inputs)
  {
    if inputs == [] {
      SumZero(SquaredHolding(inputs), cover);
    } else {
      var rest, last := inputs[..|inputs| - 1], inputs[|inputs| - 1];
      assert last in inputs;
      SquaredHoldingsAre(rest, cover);
      GainsAddUp(inputs, cover);
      forall a | a in cover ensures SquaredHolding(inputs)(a) == SquaredHolding(rest)(a) + Gain(inputs)(a) {
        SquaredHoldingLast(inputs, a);
      }
      SumAdd(SquaredHolding(rest), Gain(inputs), SquaredHolding(inputs), cover);
    }
  }

  lemma {:induction false} HoldingsSquared(inputs: seq<IntelligenceInput>, ks: seq<string>)
    ensures SumOfSquares(Holdings(inputs, ks)) == SumBy(SquaredHolding(inputs), ks)
  {
    if ks != [] {
      var n := |ks| - 1;
      assert Holdings(inputs, ks)[..n] == Holdings(inputs, ks[..n]);
      HoldingsSquared(inputs, ks[..n]);
    }
  }

  lemma HoldingsArePairs(inputs: seq<IntelligenceInput>)
    ensures SumOfSquares(Holdings(inputs, Authorities(inputs))) == PairSum(inputs)
  {
    var ks := Authorities(inputs);
    KeysAre(AuthorityOf, inputs);
    HoldingsSquared(inputs, ks);
    forall x | x in inputs ensures x.sourceAuthority in ks {
      assert AuthorityOf(x) == x.sourceAuthority;
    }
    SquaredHoldingsAre(inputs, ks);
  }

  /**
   The index without any grouping: times the square of the summed values it is the sum, over
   every two inputs of one authority, of the product of their values.
   */
  lemma IndexInValues(inputs: seq<IntelligenceInput>)
    requires AllValid(inputs) && ValueSum(inputs) > 0.0
    ensures TimesSquare(Concentration(inputs), ValueSum(inputs)) == PairSum(inputs)
  {
    ValueSumsAre(inputs, "");
    ConcentrationInTotals(inputs);
    HoldingsArePairs(inputs);
  }

  // ----- relabelling -----

  function Relabel(inputs: seq<IntelligenceInput>, from: string, to: string): (r: seq<IntelligenceInput>)
    ensures |r| == |inputs|
    ensures forall i :: 0 <= i < |r| ==>
              r[i] == inputs[i].(sourceAuthority := if inputs[i].sourceAuthority == from then to
                                                    else inputs[i].sourceAuthority)
  {
    if inputs == [] then []
    else
      var n := |inputs| - 1;
      var x := inputs[n];
      Relabel(inputs[..n], from, to)
      + [x.(sourceAuthority := if x.sourceAuthority == from then to else x.sourceAuthority)]
  }

  lemma HeldLast(inputs: seq<IntelligenceInput>, a: string)
    requires inputs != []
    ensures var n := |inputs| - 1;
            Held(inputs, a) == Held(inputs[..n], a)
                               + (if inputs[n].sourceAuthority == a then inputs[n].value else 0.0)
  {
    var f, last := ShareOf(AuthorityOf, ValueOf, a), inputs[|inputs| - 1];
    assert SumBy(f, inputs) == SumBy(f, inputs[..|inputs| - 1]) + f(last);
    assert AuthorityOf(last) == last.sourceAuthority && ValueOf(last) == last.value;
  }

  lemma {:induction false} RelabelHeldAt(inputs: seq<IntelligenceInput>, from: string, to: string, a: string)
    requires from != to
    ensures Held(Relabel(inputs, from, to), a)
         == if a == from then 0.0
            else if a == to then Held(inputs, from) + Held(inputs, to)
            else Held(inputs, a)
  {
    if inputs != [] {
      var n := |inputs| - 1;
      var r := Relabel(inputs, from, to);
      RelabelHeldAt(inputs[..n], from, to, a);
      assert r[..n] == Relabel(inputs[..n], from, to);
      HeldLast(inputs, a);
      HeldLast(inputs, from);
      HeldLast(inputs, to);
      HeldLast(r, a);
    }
  }

  lemma {:induction false} RelabelTotal(inputs: seq<IntelligenceInput>, from: string, to: string)
    ensures Total(Relabel(inputs, from, to)) == Total(inputs)
  {
    if inputs != [] {
      var n := |inputs| - 1;
      RelabelTotal(inputs[..n], from, to);
      assert Relabel(inputs, from, to)[..n] == Relabel(inputs[..n], from, to);
    }
  }

  lemma RelabelHeld(inputs: seq<IntelligenceInput>, from: string, to: string)
    requires from != to
    ensures Total(Relabel(inputs, from, to)) == Total(inputs)
    ensures Held(Relabel(inputs, from, to), from) == 0.0
    ensures Held(Relabel(inputs, from, to), to) == Held(inputs, from) + Held(inputs, to)
    ensures forall a :: a != from && a != to ==> Held(Relabel(inputs, from, to), a) == Held(inputs, a)
  {
    RelabelTotal(inputs, from, to);
    RelabelHeldAt(inputs, from, to, from);
    RelabelHeldAt(inputs, from, to, to);
    forall a | a != from && a != to ensures Held(Relabel(inputs, from, to), a) == Held(inputs, a) {
      RelabelHeldAt(inputs, from, to, a);
    }
  }

  /** The squared shares may be summed over any duplicate-free list covering the authorities. */
  lemma SumOverCover(inputs: seq<IntelligenceInput>, total: real, cover: seq<string>)
    requires Distinct(cover) && forall a :: a in Authorities(inputs) ==> a in cover
    ensures SumBy(SquaredShare(inputs, total), cover) == SumBy(SquaredShare(inputs, total), Authorities(inputs))
  {
    var ks := Authorities(inputs);
    var extra := Without(cover, ks);
    KeysAre(AuthorityOf, inputs);
    WithoutSplits(cover, ks);
    forall a | a in extra ensures SquaredShare(inputs, total)(a) == 0.0 {
      AuthorityUnheld(inputs, a);
    }
    SumZero(SquaredShare(inputs, total), extra);
    SumAppend(SquaredShare(inputs, total), ks, extra);
    SumPermutation(SquaredShare(inputs, total), cover, ks + extra);
  }

  function Without(s: seq<string>, gone: seq<string>): (r: seq<string>)
    ensures forall x :: x in r <==> x in s && x !in gone
    ensures Distinct(s) ==> Distinct(r)
  {
    if s == [] then []
    else
      var n := |s| - 1;
      assert s == s[..n] + [s[n]];
      if s[n] in gone then Without(s[..n], gone) else Without(s[..n], gone) + [s[n]]
  }

  lemma WithoutSplits(cover: seq<string>, ks: seq<string>)
    requires Distinct(cover) && Distinct(ks) && forall a :: a in ks ==> a in cover
    ensures multiset(cover) == multiset(ks + Without(cover, ks))
  {
    var all := ks + Without(cover, ks);
    forall i, j | 0 <= i < j < |all| ensures all[i] != all[j] {
      if i < |ks| <= j {
        assert all[j] in Without(cover, ks);
      }
    }
    DistinctSameMembers(cover, all);
  }

  /**
   Handing all of one authority's inputs to another raises the index by twice the product
   of the two shares, and so never lowers it.
   */
  lemma RelabelRaises(inputs: seq<IntelligenceInput>, from: string, to: string)
    requires AllValid(inputs) && Total(inputs) > 0.0 && from != to
    ensures Concentration(Relabel(inputs, from, to)) == Concentration(inputs) + MergeGain(inputs, from, to)
    ensures MergeGain(inputs, from, to) >= 0.0
  {
    HeldNonNegative(inputs, from);
    HeldNonNegative(inputs, to);
    RelabelHeld(inputs, from, to);
    RelabelSum(inputs, from, to, Total(inputs));
    MergeRaises(inputs, Relabel(inputs, from, to), from, to);
  }

  lemma MergeRaises(inputs: seq<IntelligenceInput>, after: seq<IntelligenceInput>, from: string, to: string)
    requires Total(after) == Total(inputs) > 0.0
    requires Held(inputs, from) >= 0.0 && Held(inputs, to) >= 0.0
    requires Held(after, from) == 0.0 && Held(after, to) == Held(inputs, from) + Held(inputs, to)
    requires SquareSum(after, Total(inputs)) - SquareSum(inputs, Total(inputs))
          == Square(Share(Held(after, from), Total(inputs))) + Square(Share(Held(after, to), Total(inputs)))
             - Square(Share(Held(inputs, from), Total(inputs))) - Square(Share(Held(inputs, to), Total(inputs)))
    ensures Concentration(after) == Concentration(inputs) + MergeGain(inputs, from, to)
    ensures MergeGain(inputs, from, to) >= 0.0
  {
    MergedShares(Held(inputs, from), Held(inputs, to), Held(after, from), Held(after, to), Total(inputs));
  }

  function MergeGain(inputs: seq<IntelligenceInput>, from: string, to: string): real {
    2.0 * (Share(Held(inputs, from), Total(inputs)) * Share(Held(inputs, to), Total(inputs)))
  }

  /** Only the terms of the two authorities change in the sum of squared shares. */
  lemma RelabelSum(inputs: seq<IntelligenceInput>, from: string, to: string, t: real)
    requires from != to
    ensures SquareSum(Relabel(inputs, from, to), t) - SquareSum(inputs, t)
         == Square(Share(Held(Relabel(inputs, from, to), from), t))
            + Square(Share(Held(Relabel(inputs, from, to), to), t))
            - Square(Share(Held(inputs, from), t)) - Square(Share(Held(inputs, to), t))
  {
    var after := Relabel(inputs, from, to);
    var rest := Without(Without(Authorities(inputs), [from]), [to]);
    RelabelCover(inputs, from, to, [from, to] + rest);
    SumOverCover(inputs, t, [from, to] + rest);
    SumOverCover(after, t, [from, to] + rest);
    var f, g := SquaredShare(inputs, t), SquaredShare(after, t);
    SumPairAndRest(f, from, to, rest);
    SumPairAndRest(g, from, to, rest);
    forall a | a in rest ensures f(a) == g(a) {
      assert a != from && a != to;
      RelabelHeld(inputs, from, to);
    }
    SumCongruent(f, g, rest);
  }

  /** Merging two shares squares their sum: the cross term is what the index gains. */
  lemma MergedShares(x: real, y: real, none: real, both: real, total: real)
    requires x >= 0.0 && y >= 0.0 && total > 0.0 && none == 0.0 && both == x + y
    ensures Square(Share(none, total)) + Square(Share(both, total))
            - Square(Share(x, total)) - Square(Share(y, total))
         == 2.0 * (Share(x, total) * Share(y, total)) >= 0.0
  {
    assert Share(both, total) == Share(x, total) + Share(y, total);
    CrossTerm(Share(x, total), Share(y, total));
  }

  lemma SumPairAndRest(f: string -> real, a: string, b: string, rest: seq<string>)
    ensures SumBy(f, [a, b] + rest) == f(a) + f(b) + SumBy(f, rest)
  {
    SumAppend(f, [a, b], rest);
    SumAppend(f, [a], [b]);
    assert [a] + [b] == [a, b];
    assert [a][..0] == [] && [b][..0] == [];
  }

  lemma RelabelCover(inputs: seq<IntelligenceInput>, from: string, to: string, cover: seq<string>)
    requires from != to
    requires cover == [from, to] + Without(Without(Authorities(inputs), [from]), [to])
    ensures Distinct(cover)
    ensures forall a :: a in Authorities(inputs) ==> a in cover
    ensures forall a :: a in Authorities(Relabel(inputs, from, to)) ==> a in cover
  {
    KeysAre(AuthorityOf, inputs);
    CoverDistinct(from, to, cover[2..]);
    forall a ensures a in cover <==> a == from || a == to || a in Authorities(inputs) {
      assert a in cover <==> a in cover[..2] || a in cover[2..];
    }
    forall a | a in Authorities(Relabel(inputs, from, to)) ensures a in cover {
      RelabelledAuthority(inputs, from, to, a);
    }
  }

  lemma CoverDistinct(from: string, to: string, rest: seq<string>)
    requires from != to && Distinct(rest) && from !in rest && to !in rest
    ensures Distinct([from, to] + rest)
  {
    var cover := [from, to] + rest;
    forall i, j | 0 <= i < j < |cover| ensures cover[i] != cover[j] {
      if j >= 2 {
        assert cover[j] == rest[j - 2] && rest[j - 2] in rest;
      }
    }
  }

  lemma RelabelledAuthority(inputs: seq<IntelligenceInput>, from: string, to: string, a: string)
    requires a in Authorities(Relabel(inputs, from, to))
    ensures a == to || a in Authorities(inputs)
  {
    var after := Relabel(inputs, from, to);
    var x := KeyHolder(AuthorityOf, after, a);
    var i :| 0 <= i < |after| && after[i] == x;
    KeysAre(AuthorityOf, inputs);
    assert inputs[i] in inputs && AuthorityOf(inputs[i]) in Authorities(inputs);
  }

  // ----- derived posture -----

  function Rank(p: MeasurementPosture): nat {
    match p case Estimate => 0 case Observed => 1 case Verified => 2
  }

  function DerivedPosture(inputs: seq<IntelligenceInput>): MeasurementPosture {
    if inputs != [] && forall x :: x in inputs ==> x.posture.Verified? then Verified
    else if inputs != [] && forall x :: x in inputs ==> x.posture.Observed? || x.posture.Verified? then Observed
    else Estimate
  }

  /** Aggregation never promotes: the posture is the weakest one among the inputs, and an estimate for none. */
  lemma PostureIsWeakest(inputs: seq<IntelligenceInput>)
    ensures forall x :: x in inputs ==> Rank(DerivedPosture(inputs)) <= Rank(x.posture)
    ensures if inputs == [] then DerivedPosture(inputs) == Estimate
            else exists x :: x in inputs && x.posture == DerivedPosture(inputs)
  {
    if inputs == [] {
    } else if DerivedPosture(inputs) == Verified {
      assert inputs[0] in inputs;
    } else if DerivedPosture(inputs) == Observed {
      var x :| x in inputs && !x.posture.Verified?;
      assert x.posture == Observed;
    } else {
      var x :| x in inputs && !(x.posture.Observed? || x.posture.Verified?);
      assert x.posture == Estimate;
    }
  }
}
