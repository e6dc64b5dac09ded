/** The composition normalizer: rescales a weight map so that its finite
    weights sum to 1, or passes it through unchanged when they sum to 0 or less. */
module Composition {

  /** A JavaScript number as far as normalization can tell them apart:
      a finite value or one of the three non-finite ones. */
  datatype Num = Finite(value: real) | NaN | PosInf | NegInf

  /** What a weight contributes to the sum: non-finite weights count as 0. */
  function FiniteOrZero(x: Num): (r: real)
    ensures r != 0.0 ==> x.Finite? && r == x.value
  {
    if x.Finite? then x.value else 0.0
  }

  /** Division of a number by a positive divisor: finite values are divided,
      NaN and the infinities stay what they are. */
  function DivNum(x: Num, s: real): (r: Num)
    requires s > 0.0
    ensures r.Finite? <==> x.Finite?
    ensures !x.Finite? ==> r == x
  {
    match x
    case Finite(v) => Finite(v / s)
    case _ => x
  }

  /** The sum of the finite weights of a composition, in no particular key order. */
  ghost function SumFinite<K>(m: map<K, Num>): (r: real)
    ensures |m| == 0 ==> r == 0.0
    decreases |m|
  {
    if |m| == 0 then 0.0
    else
      var k := Pick(m);
      assert (m - {k}).Keys < m.Keys;
      FiniteOrZero(m[k]) + SumFinite(m - {k})
  }

  /** Some key of a non-empty map. */
  ghost function Pick<K>(m: map<K, Num>): (k: K)
    requires |m| != 0
    ensures k in m
  {
    var k :| k in m; k
  }

  /** The sum does not depend on which key is taken out first. */
  lemma {:induction false} SumFiniteRemove<K>(m: map<K, Num>, k: K)
    requires k in m
    ensures SumFinite(m) == FiniteOrZero(m[k]) + SumFinite(m - {k})
    decreases |m|
  {
    var j := Pick(m);
    if j != k {
      assert (m - {j}).Keys < m.Keys;
      assert (m - {k}).Keys < m.Keys;
      SumFiniteRemove(m - {j}, k);
      SumFiniteRemove(m - {k}, j);
      assert (m - {j}) - {k} == (m - {k}) - {j};
    }
  }

  /** Every weight divided by a positive divisor; the key set is kept. */
  function Scaled<K>(m: map<K, Num>, s: real): (r: map<K, Num>)
    requires s > 0.0
    ensures r.Keys == m.Keys
  {
    map k | k in m :: DivNum(m[k], s)
  }

  /** normalizeComposition as a value: unchanged when the finite weights sum
      to 0 or less, otherwise every weight divided by that sum. */
  ghost function Normalized<K>(m: map<K, Num>): (r: map<K, Num>)
    ensures r.Keys == m.Keys
    ensures forall k :: k in m && !m[k].Finite? ==> r[k] == m[k]
  {
    var sum := SumFinite(m);
    if sum <= 0.0 then m else Scaled(m, sum)
  }

  /** The reduce that opens normalizeComposition: the finite weights are added
      up key by key, non-finite ones counting as 0. */
  method SumFiniteWeights<K>(comp: map<K, Num>) returns (sum: real)
    ensures sum == SumFinite(comp)
  {
    sum := 0.0;
    var rest := comp.Keys;
    var done: map<K, Num> := map[];
    while rest != {}
      invariant rest <= comp.Keys
      invariant forall j :: j in done <==> j in comp && j !in rest
      invariant forall j :: j in done ==> done[j] == comp[j]
      invariant sum == SumFinite(done)
      decreases rest
    {
      var k :| k in rest;
      var next := done[k := comp[k]];
      SumFiniteRemove(next, k);
      assert next - {k} == done;
      sum := sum + FiniteOrZero(comp[k]);
      done, rest := next, rest - {k};
    }
    assert done == comp;
  }

  /** normalizeComposition: unless the finite weights sum to 0 or less, a fresh
      map is filled key by key with each weight divided by their sum. */
  method NormalizeComposition<K>(comp: map<K, Num>) returns (out: map<K, Num>)
    ensures out == Normalized(comp)
    ensures SumFinite(comp) <= 0.0 ==> out == comp
    ensures SumFinite(comp) > 0.0 ==>
      out.Keys == comp.Keys &&
      forall k :: k in comp ==> out[k] == DivNum(comp[k], SumFinite(comp))
  {
    var sum := SumFiniteWeights(comp);
    if sum <= 0.0 {
      return comp;
    }
    out := map[];
    var rest := comp.Keys;
    while rest != {}
      invariant rest <= comp.Keys
      invariant out.Keys == comp.Keys - rest
      invariant forall k :: k in out ==> out[k] == DivNum(comp[k], sum)
      decreases rest
    {
      var k :| k in rest;
      out := out[k := DivNum(comp[k], sum)];
      rest := rest - {k};
    }
    assert out == Scaled(comp, sum);
  }

  /** Every weight of a composition mapped through g; the key set is kept. */
  ghost function MapValues<K>(m: map<K, Num>, g: Num -> Num): (r: map<K, Num>)
    ensures r.Keys == m.Keys
  {
    map k | k in m :: g(m[k])
  }

  /** f distributes over the sum of a and b. */
  ghost predicate AddsAt(f: real -> real, a: real, b: real)
  {
    f(a + b) == f(a) + f(b)
  }

  /** Taking one key out of a mapped composition. */
  lemma SumFiniteMappedRemove<K>(m: map<K, Num>, g: Num -> Num, k: K)
    requires k in m
    ensures SumFinite(MapValues(m, g)) == FiniteOrZero(g(m[k])) + SumFinite(MapValues(m - {k}, g))
  {
    var n := MapValues(m, g);
    SumFiniteRemove(n, k);
    assert n - {k} == MapValues(m - {k}, g);
  }

  /** Mapping every weight through g, where g acts on the finite contribution
      of a weight as an additive f, maps the finite sum through f. */
  lemma {:induction false} SumFiniteMapped<K>(m: map<K, Num>, g: Num -> Num, f: real -> real)
    requires f(0.0) == 0.0
    requires forall a, b {:trigger AddsAt(f, a, b)} :: AddsAt(f, a, b)
    requires forall x {:trigger g(x)} :: FiniteOrZero(g(x)) == f(FiniteOrZero(x))
    ensures SumFinite(MapValues(m, g)) == f(SumFinite(m))
    decreases |m|
  {
    if |m| != 0 {
      var k := Pick(m);
      var rm := m - {k};
      var a, b := FiniteOrZero(m[k]), SumFinite(rm);
      assert SumFinite(m) == a + b;
      assert AddsAt(f, a, b);
      assert f(SumFinite(m)) == f(a) + f(b);
      SumFiniteMappedRemove(m, g, k);
      assert FiniteOrZero(g(m[k])) == f(a);
      assert rm.Keys < m.Keys;
      SumFiniteMapped(rm, g, f);
    }
  }

  /** Dividing every weight by s divides the finite sum by s. */
  lemma SumFiniteScaled<K>(m: map<K, Num>, s: real)
    requires s > 0.0
    ensures SumFinite(Scaled(m, s)) == SumFinite(m) / s
  {
    var g := (x: Num) => if x.Finite? then Finite(x.value / s) else x;
    var f := (v: real) => v / s;
    assert Scaled(m, s) == MapValues(m, g);
    forall a, b ensures AddsAt(f, a, b) {
      assert (a + b) / s == a / s + b / s;
    }
    SumFiniteMapped(m, g, f);
  }

  /** A positive sum divided by itself is 1; kept apart so that the division
      does not meet the unfolded sums. */
  lemma SelfRatio(s: real)
    requires s > 0.0
    ensures s / s == 1.0
  {
  }

  /** A part of a positive whole, divided by the whole, lies in [0, 1]. */
  lemma RatioInUnit(v: real, s: real)
    requires 0.0 <= v <= s && s > 0.0
    ensures 0.0 <= v / s <= 1.0
  {
  }

  /** When the finite weights sum to something positive, the normalized
      finite weights sum to exactly 1. */
  lemma NormalizedSumsToOne<K>(m: map<K, Num>)
    requires SumFinite(m) > 0.0
    ensures SumFinite(Normalized(m)) == 1.0
  {
    var s := SumFinite(m);
    SumFiniteScaled(m, s);
    assert Normalized(m) == Scaled(m, s);
    SelfRatio(s);
  }

  /** Every weight is finite and not negative. */
  ghost predicate NonNegative<K>(m: map<K, Num>)
  {
    forall k :: k in m ==> m[k].Finite? && m[k].value >= 0.0
  }

  /** With non-negative weights, each weight is at most the sum of all of them. */
  lemma WeightAtMostSum<K>(m: map<K, Num>, k: K)
    requires NonNegative(m) && k in m
    ensures 0.0 <= m[k].value <= SumFinite(m)
    decreases |m|
  {
    SumFiniteRemove(m, k);
    SumFiniteNonNegative(m - {k});
  }

  /** The sum of non-negative weights is not negative. */
  lemma {:induction false} SumFiniteNonNegative<K>(m: map<K, Num>)
    requires NonNegative(m)
    ensures SumFinite(m) >= 0.0
    decreases |m|
  {
    if |m| != 0 {
      var k :| k in m;
      SumFiniteRemove(m, k);
      assert (m - {k}).Keys < m.Keys;
      SumFiniteNonNegative(m - {k});
    }
  }

  /** Raw non-negative weights with a positive sum normalize to a distribution:
      the keys are kept, every weight lands in [0, 1] and they sum to 1. */
  lemma NormalizedIsDistribution<K>(m: map<K, Num>)
    requires NonNegative(m) && SumFinite(m) > 0.0
    ensures Normalized(m).Keys == m.Keys
    ensures forall k :: k in m ==>
      Normalized(m)[k].Finite? && 0.0 <= Normalized(m)[k].value <= 1.0
    ensures SumFinite(Normalized(m)) == 1.0
  {
    var sum := SumFinite(m);
    assert Normalized(m) == Scaled(m, sum);
    forall k | k in m
      ensures Normalized(m)[k].Finite? && 0.0 <= Normalized(m)[k].value <= 1.0
    {
      WeightAtMostSum(m, k);
      RatioInUnit(m[k].value, sum);
    }
    NormalizedSumsToOne(m);
  }

  /** Normalizing an already normalized composition changes nothing, including
      in the degenerate pass-through case. */
  lemma NormalizedIdempotent<K>(m: map<K, Num>)
    ensures Normalized(Normalized(m)) == Normalized(m)
  {
    if SumFinite(m) > 0.0 {
      var n := Normalized(m);
      NormalizedSumsToOne(m);
      assert Scaled(n, 1.0) == n;
    }
  }

  /** An all-zero composition is passed through, not divided by zero. */
  lemma AllZeroUnchanged<K>(m: map<K, Num>)
    requires forall k :: k in m ==> m[k] == Finite(0.0)
    ensures Normalized(m) == m
  {
    ZeroSum(m);
  }

  lemma {:induction false} ZeroSum<K>(m: map<K, Num>)
    requires forall k :: k in m ==> m[k] == Finite(0.0)
    ensures SumFinite(m) == 0.0
    decreases |m|
  {
    if |m| != 0 {
      var k :| k in m;
      SumFiniteRemove(m, k);
      assert (m - {k}).Keys < m.Keys;
      ZeroSum(m - {k});
    }
  }
}
