/** The compatibility scorer: how well a path's core madra types match the
    aura composition of an environment. */
module Match {
  import opened Clamp

  /** The madra a core can hold. Pure madra has no aura counterpart. */
  datatype MadraType =
    | Fire | Water | Earth | Wind | Shadow | Light
    | Sword | Force | Dream | Destruction | Death
    | Pure

  /** The aura an environment can hold: every madra type except Pure. */
  type AuraType = t: MadraType | !t.Pure? witness Fire

  /** What a Pure core type adds, whatever the environment. */
  const PureBaseline: real := 0.05

  /** What one core type adds to the score: the baseline for Pure, otherwise
      the environment's weight for that aura, or 0 when it is absent. */
  function Contribution(envComp: map<AuraType, real>, t: MadraType): (r: real)
    ensures t.Pure? ==> r == PureBaseline
    ensures !t.Pure? ==> r == 0.0 || r in envComp.Values
  {
    if t.Pure? then PureBaseline
    else if t in envComp then envComp[t]
    else 0.0
  }

  /** The unclamped score: the contributions added up from the first core type
      to the last. */
  function RawScore(envComp: map<AuraType, real>, coreTypes: seq<MadraType>): (r: real)
    ensures (forall k :: k in envComp ==> 0.0 <= envComp[k]) ==> 0.0 <= r
    ensures (forall k :: k in envComp ==> envComp[k] <= 1.0) ==> r <= |coreTypes| as real
  {
    if |coreTypes| == 0 then 0.0
    else RawScore(envComp, coreTypes[..|coreTypes| - 1]) + Contribution(envComp, coreTypes[|coreTypes| - 1])
  }

  /** computeMatchScore: accumulates the contributions of the core types in order
      and clamps the total into [0, 1]. */
  method ComputeMatchScore(envComp: map<AuraType, real>, coreTypes: seq<MadraType>) returns (result: real)
    ensures 0.0 <= result <= 1.0
    ensures result == Clamp01(RawScore(envComp, coreTypes))
  {
    var score := 0.0;
    for i := 0 to |coreTypes|
      invariant score == RawScore(envComp, coreTypes[..i])
    {
      var t := coreTypes[i];
      if t.Pure? {
        score := score + 0.05;
      } else {
        score := score + (if t in envComp then envComp[t] else 0.0);
      }
      assert coreTypes[..i + 1][..i] == coreTypes[..i];
    }
    assert coreTypes[..|coreTypes|] == coreTypes;
    result := Clamp01(score);
  }

  /** The raw score of two lists one after the other is the sum of their raw scores. */
  lemma {:induction false} RawScoreAppend(envComp: map<AuraType, real>, a: seq<MadraType>, b: seq<MadraType>)
    ensures RawScore(envComp, a + b) == RawScore(envComp, a) + RawScore(envComp, b)
    decreases |b|
  {
    if |b| == 0 {
      assert a + b == a;
    } else {
      var n := |b| - 1;
      assert (a + b)[..|a + b| - 1] == a + b[..n];
      assert (a + b)[|a + b| - 1] == b[n];
      RawScoreAppend(envComp, a, b[..n]);
    }
  }

  /** Taking one core type out of the list takes exactly its contribution out of the raw score. */
  lemma RawScoreRemove(envComp: map<AuraType, real>, s: seq<MadraType>, j: nat)
    requires j < |s|
    ensures RawScore(envComp, s) == RawScore(envComp, s[..j] + s[j + 1..]) + Contribution(envComp, s[j])
  {
    assert s == s[..j] + [s[j]] + s[j + 1..];
    RawScoreAppend(envComp, s[..j] + [s[j]], s[j + 1..]);
    RawScoreAppend(envComp, s[..j], [s[j]]);
    assert RawScore(envComp, [s[j]]) == Contribution(envComp, s[j]) by {
      assert [s[j]][..0] == [];
    }
    RawScoreAppend(envComp, s[..j], s[j + 1..]);
  }

  /** The score is a sum, so it does not depend on the order of the core types:
      any rearrangement of the list scores the same. */
  lemma {:induction false} RawScoreOrderIndependent(envComp: map<AuraType, real>, a: seq<MadraType>, b: seq<MadraType>)
    requires multiset(a) == multiset(b)
    ensures RawScore(envComp, a) == RawScore(envComp, b)
    decreases |a|
  {
    if |a| == 0 {
      assert |b| == |multiset(b)| == 0;
    } else {
      var n := |a| - 1;
      var x := a[n];
      assert a == a[..n] + [x];
      assert x in multiset(b);
      var j :| 0 <= j < |b| && b[j] == x;
      var b' := b[..j] + b[j + 1..];
      assert b == b[..j] + [x] + b[j + 1..];
      assert multiset(a) == multiset(a[..n]) + multiset{x};
      assert multiset(b) == multiset(b[..j]) + multiset{x} + multiset(b[j + 1..]);
      assert multiset(b') == multiset(b[..j]) + multiset(b[j + 1..]);
      assert multiset(a[..n]) + multiset{x} == multiset(b') + multiset{x};
      assert multiset(a[..n]) == multiset(a[..n]) + multiset{x} - multiset{x};
      assert multiset(a[..n]) == multiset(b');
      RawScoreOrderIndependent(envComp, a[..n], b');
      RawScoreRemove(envComp, b, j);
    }
  }

  /** A non-Pure core type whose aura is absent from the environment contributes
      nothing, wherever it stands in the list. */
  lemma AbsentTypeAddsNothing(envComp: map<AuraType, real>, a: seq<MadraType>, t: MadraType, b: seq<MadraType>)
    requires !t.Pure? && t !in envComp
    ensures RawScore(envComp, a + [t] + b) == RawScore(envComp, a + b)
  {
    RawScoreAppend(envComp, a + [t], b);
    RawScoreAppend(envComp, a, [t]);
    RawScoreAppend(envComp, a, b);
    assert [t][..0] == [];
  }

  /** A non-Pure core type whose aura is present adds exactly its weight in the
      environment, wherever it stands in the list. */
  lemma PresentTypeAddsWeight(envComp: map<AuraType, real>, a: seq<MadraType>, t: AuraType, b: seq<MadraType>)
    requires t in envComp
    ensures RawScore(envComp, a + [t] + b) == RawScore(envComp, a + b) + envComp[t]
  {
    RawScoreAppend(envComp, a + [t], b);
    RawScoreAppend(envComp, a, [t]);
    RawScoreAppend(envComp, a, b);
    assert [t][..0] == [];
  }

  /** Every Pure entry adds exactly the baseline, wherever it stands in the list. */
  lemma PureAddsBaseline(envComp: map<AuraType, real>, a: seq<MadraType>, b: seq<MadraType>)
    ensures RawScore(envComp, a + [Pure] + b) == RawScore(envComp, a + b) + PureBaseline
  {
    RawScoreAppend(envComp, a + [Pure], b);
    RawScoreAppend(envComp, a, [Pure]);
    RawScoreAppend(envComp, a, b);
    assert [Pure][..0] == [];
  }

  /** A core of Pure madra alone scores exactly the baseline, whatever the composition. */
  lemma PureOnlyScore(envComp: map<AuraType, real>)
    ensures Clamp01(RawScore(envComp, [Pure])) == PureBaseline
  {
    assert [Pure][..0] == [];
  }

  /** Scores of catalogue paths in catalogue environments: Twin Stars (Pure and
      Destruction) in Sacred Valley gets only the Pure baseline, Blackflame (Fire
      and Destruction) in the average wilderness gets the Fire weight, and the
      Shadow path in Night Wheel Valley gets the Shadow weight. */
  lemma CatalogueScores()
    ensures Clamp01(RawScore(map[Earth := 0.35, Wind := 0.25, Water := 0.2, Light := 0.2], [Pure, Destruction])) == 0.05
    ensures Clamp01(RawScore(map[Earth := 0.3, Wind := 0.25, Water := 0.2, Fire := 0.15, Light := 0.1], [Fire, Destruction])) == 0.15
    ensures Clamp01(RawScore(map[Shadow := 0.7, Dream := 0.2, Wind := 0.1], [Shadow])) == 0.7
  {
    assert [Pure, Destruction][..1] == [Pure] && [Pure][..0] == [];
    assert [Fire, Destruction][..1] == [Fire] && [Fire][..0] == [];
    assert [Shadow][..0] == [];
  }
}
