# Madra calculator core in Dafny

A model of the numeric core of the Madra cultivation calculator
(`app/MadraCalculatorLayout.tsx`), with proofs about it. The core sits under
the React page and has four routines:

- `clamp01` saturates a number into [0, 1] (module `Clamp`, with the
  `Math.max`/`Math.min` pair it is built from).
- `normalizeComposition` rescales an aura-weight map so that its finite
  weights sum to 1. When they sum to 0 or less, it passes the map through
  unchanged (module `Composition`). A weight is a `Num`: a finite real, NaN,
  or one of the two infinities, so the `Number.isFinite` test is explicit.
  The finite sum is a ghost function over the map, proved independent of the
  order in which keys are taken. Two methods mirror the code: the summing
  `reduce`, and the loop that fills a fresh map key by key.
- `computeMatchScore` adds up what a path's core madra types get from an
  environment: the weight of each aura type, 0 for an absent one, and a fixed
  0.05 for each Pure entry. It then clamps the total (module `Match`).
  `MadraType` is a datatype. `AuraType` is its subset without `Pure`, since
  Pure aura does not exist. The method is the source's accumulating `for`
  loop, proved against the left-fold `RawScore`.
- `simulate` runs the reserve-only cultivation dynamics (module
  `Simulation`):
  - It derives fixed multipliers from the direction, the context, the ease,
    the density and the match score.
  - It then runs a forward-Euler `while` loop. Each turn records a sample
    `(t, reserve, capacity, strain)` and then advances the reserve M by
    regeneration minus loss over `dtMin`, clamped into [0, K].
  - Capacity K and strain D never change.
  - The method is proved against `Samples`, the sequence built from the
    recursive recurrence `ReserveAt`. The time of sample i is `TimeAt`,
    which is `dtMin` added i times as the loop does, and equals
    `i * dtMin`.

All quantities are `real`: exact, unbounded, with no rounding.

## Model

| member | source | states |
|---|---|---|
| Clamp.Max | app/MadraCalculatorLayout.tsx:91 | `Math.max`: the result is one of the two arguments and at least both |
| Clamp.Min | app/MadraCalculatorLayout.tsx:91 | `Math.min`: the result is one of the two arguments and at most both |
| Clamp.ClampTo | app/MadraCalculatorLayout.tsx:154 | `max(lo, min(hi, x))` lies in [lo, hi] whenever lo <= hi, returns x inside the interval, lo below it and hi above it |
| Clamp.Clamp01 | app/MadraCalculatorLayout.tsx:90-92 | the result is always in [0, 1]; x in [0, 1] is returned unchanged, anything below gives 0 and anything above gives 1 |
| Composition.FiniteOrZero | app/MadraCalculatorLayout.tsx:95 | what one weight adds in the reduce: only a finite weight adds anything, and then it adds its own value; NaN and the infinities add 0 |
| Composition.SumFinite | app/MadraCalculatorLayout.tsx:95 | the finite sum of a map: the contribution of some key plus the finite sum of the rest, and 0 for the empty map |
| Composition.DivNum | app/MadraCalculatorLayout.tsx:98 | dividing by a positive sum keeps a finite weight finite, and leaves NaN and the infinities as they are |
| Composition.SumFiniteRemove | app/MadraCalculatorLayout.tsx:95 | the finite sum is the same whichever key is taken out first: the reduce does not depend on key order |
| Composition.Normalized | app/MadraCalculatorLayout.tsx:94-100 | normalization as a value: the input when the finite sum is <= 0, otherwise every weight divided by the sum; the keys are always kept, and non-finite weights come back as they were |
| Composition.SumFiniteWeights | app/MadraCalculatorLayout.tsx:95 | the reduce over the values, with non-finite weights counting as 0, computes exactly the finite sum of the map |
| Composition.Scaled | app/MadraCalculatorLayout.tsx:97-98 | dividing every weight keeps the key set |
| Composition.NormalizeComposition | app/MadraCalculatorLayout.tsx:94-100 | the result is the input itself when the finite sum is <= 0; otherwise it has the same keys, and each value is the input value divided by the finite sum |
| Composition.SumFiniteMapped | app/MadraCalculatorLayout.tsx:95-98 | mapping every weight through a map that acts additively on finite contributions maps the finite sum the same way |
| Composition.SumFiniteScaled | app/MadraCalculatorLayout.tsx:95-98 | dividing every weight by s divides the finite sum by s |
| Composition.NormalizedSumsToOne | app/MadraCalculatorLayout.tsx:94-100 | with a positive finite sum, the normalized finite weights sum to exactly 1 |
| Composition.WeightAtMostSum | app/MadraCalculatorLayout.tsx:95 | with finite non-negative weights, each weight lies between 0 and the sum |
| Composition.SumFiniteNonNegative | app/MadraCalculatorLayout.tsx:95 | finite non-negative weights have a non-negative sum |
| Composition.NormalizedIsDistribution | app/MadraCalculatorLayout.tsx:94-100 | finite non-negative weights with a positive sum normalize to a distribution: same keys, every value finite and in [0, 1], summing to 1 |
| Composition.NormalizedIdempotent | app/MadraCalculatorLayout.tsx:94-100 | normalizing a normalized composition changes nothing, in both the rescaling and the pass-through case |
| Composition.ZeroSum | app/MadraCalculatorLayout.tsx:95 | an all-zero composition has finite sum 0 |
| Composition.AllZeroUnchanged | app/MadraCalculatorLayout.tsx:96 | an all-zero composition is returned unchanged, never divided by 0 |
| Match.Contribution | app/MadraCalculatorLayout.tsx:111-112 | what one core type adds: Pure gives 0.05; any other type gives 0 or a weight present in the environment |
| Match.RawScore | app/MadraCalculatorLayout.tsx:108-113 | the unclamped score, the contributions added from the first core type to the last; never negative when the weights are not, and at most the number of core types when no weight exceeds 1 |
| Match.ComputeMatchScore | app/MadraCalculatorLayout.tsx:104-116 | the score is always in [0, 1] and is the clamped sum of the per-type contributions |
| Match.RawScoreAppend | app/MadraCalculatorLayout.tsx:108-113 | the raw score of two lists in a row is the sum of their raw scores |
| Match.RawScoreRemove | app/MadraCalculatorLayout.tsx:108-113 | removing one core type from anywhere in the list removes exactly its contribution |
| Match.RawScoreOrderIndependent | app/MadraCalculatorLayout.tsx:108-115 | lists that are rearrangements of each other have the same raw score, so the score does not depend on the order of the core types |
| Match.AbsentTypeAddsNothing | app/MadraCalculatorLayout.tsx:112 | a non-Pure type missing from the composition contributes 0 wherever it stands |
| Match.PresentTypeAddsWeight | app/MadraCalculatorLayout.tsx:112 | a non-Pure type present in the composition adds exactly its own weight wherever it stands |
| Match.PureAddsBaseline | app/MadraCalculatorLayout.tsx:111 | each Pure entry contributes exactly 0.05 wherever it stands |
| Match.PureOnlyScore | app/MadraCalculatorLayout.tsx:108-115 | a core of Pure alone scores exactly 0.05 whatever the composition |
| Match.CatalogueScores | app/MadraCalculatorLayout.tsx:48-74 | Twin Stars in Sacred Valley scores 0.05, Blackflame in the average wilderness scores 0.15, and the Shadow path in Night Wheel Valley scores 0.7 |
| Simulation.DirMult | app/MadraCalculatorLayout.tsx:162-165 | the direction multiplier lies in [0.4, 1] and is 1 exactly for Inward |
| Simulation.ContextUptime | app/MadraCalculatorLayout.tsx:168-171 | the context uptime lies in [0.45, 1] and is 1 exactly when resting |
| Simulation.Uptime | app/MadraCalculatorLayout.tsx:174-176 | the uptime lies in [0, 1] |
| Simulation.UptimeUnclamped | app/MadraCalculatorLayout.tsx:174-176 | the clamp on the uptime never bites: the uptime is the context uptime times the ease uptime, and at least 0.1575 |
| Simulation.MatchEff | app/MadraCalculatorLayout.tsx:178 | the match effectiveness lies in [0.15, 1] |
| Simulation.EaseCeilingMult | app/MadraCalculatorLayout.tsx:179 | the ease ceiling multiplier lies in [0.3, 1] |
| Simulation.Ceiling | app/MadraCalculatorLayout.tsx:181-186 | the regeneration ceiling lies in [0, 10], the base intake |
| Simulation.Capacity | app/MadraCalculatorLayout.tsx:153 | K is at least 1 and at least the requested capacity, and is one of the two |
| Simulation.InitialReserve | app/MadraCalculatorLayout.tsx:154 | the starting reserve is exactly the clamped fraction times K, and lies in [0, K] |
| Simulation.Step | app/MadraCalculatorLayout.tsx:193-203 | one Euler step keeps the reserve in [0, K] |
| Simulation.StepLosesAtMostLoss | app/MadraCalculatorLayout.tsx:196-203 | regeneration is never negative, so one step lowers the reserve by at most the proportional loss |
| Simulation.StepAtFull | app/MadraCalculatorLayout.tsx:193-203 | at full capacity regeneration has faded to 0 and the step removes only the loss |
| Simulation.Equilibrium | app/MadraCalculatorLayout.tsx:193-201 | the reserve where regeneration balances loss lies in [0, K] |
| Simulation.EquilibriumIsFixed | app/MadraCalculatorLayout.tsx:193-203 | the step leaves the equilibrium reserve where it is, whatever dt |
| Simulation.ReserveAt | app/MadraCalculatorLayout.tsx:154-203 | the reserve after any number of steps lies in [0, K] |
| Simulation.Samples | app/MadraCalculatorLayout.tsx:188-191 | the recorded run has one sample per turn of the loop |
| Simulation.TimeAt | app/MadraCalculatorLayout.tsx:204 | the time of sample i: `t += dtMin` applied i times from 0 |
| Simulation.Terminates | app/MadraCalculatorLayout.tsx:190 | the inputs on which the loop ends: a positive step, or a bound the first test already fails |
| Simulation.SampleCount | app/MadraCalculatorLayout.tsx:190 | the number of turns of the loop; it is 0 exactly when durationMin + 1e-9 is negative |
| Simulation.TimeAtProduct | app/MadraCalculatorLayout.tsx:204 | adding dtMin i times lands exactly on i * dtMin |
| Simulation.SampleCountSpec | app/MadraCalculatorLayout.tsx:190 | for dtMin > 0, sample i exists exactly when i * dtMin <= durationMin + 1e-9 |
| Simulation.SamplesExtend | app/MadraCalculatorLayout.tsx:191 | the run up to sample i + 1 is the run up to sample i followed by the point recorded at step i |
| Simulation.Simulate | app/MadraCalculatorLayout.tsx:129-208 | the returned samples are exactly the recurrence's samples, and every sample has 0 <= reserve <= capacity, capacity K and strain 0; the loop body's update is the helper method `EulerStep`, proved equal to `Step` |
| Simulation.SamplesInvariant | app/MadraCalculatorLayout.tsx:153-155 | every sample has 0 <= reserve <= capacity, capacity equal to max(1, initialCapacity), strain 0, and time i * dtMin |
| Simulation.NonEmptyIff | app/MadraCalculatorLayout.tsx:190-191 | with dtMin > 0 the run is non-empty exactly when durationMin + 1e-9 >= 0 |
| Simulation.FirstSample | app/MadraCalculatorLayout.tsx:152-154 | when durationMin >= 0 the run is non-empty, and its first sample is (0, clamp01(initialReservePct) * K, K, 0) |
| Simulation.ConsecutiveSamples | app/MadraCalculatorLayout.tsx:190-205 | consecutive samples are dtMin apart in time, and the later reserve is one step of the earlier with the run's fixed K, uptime and ceiling |
| Simulation.DefaultRun | app/MadraCalculatorLayout.tsx:274-302 | the page's opening state records 241 samples ending at t = 120, starts at (0, 35, 100, 0) and drops to 34.8652777375 after one step |

## Left out

- The React component `MadraCalculatorLayout` (lines 272-576): state, memoisation and markup.
- `SimpleSparkline` and `Field` (lines 210-270): SVG and markup rendering only.
- `formatPct` and `format1` (lines 118-124): string formatting with float rounding.
- IEEE-754 behaviour: rounding, overflow, and the drift of `t += dtMin`. Time is accumulated exactly, so sample i sits at exactly i * dtMin.
- Simulation.Simulate: requires that dtMin > 0 or durationMin + 1e-9 < 0. Outside that, the source loop never ends, since t never passes the bound.
- Match.ComputeMatchScore: weights are finite reals, because the scorer has no finiteness test. A NaN or infinite weight would pass through `??` into the sum, and this model does not capture that.
- Convergence of the reserve toward the equilibrium over many steps. Only the per-step recurrence and the fixed point are stated.
- The `PATHS` and `ENVS` catalogues (lines 48-74) are data. They appear only as constants in `Match.CatalogueScores` and `Simulation.DefaultRun`.
- Key order of `Object.keys` and `Object.values`. A Dafny `map` has none, and the sum is proved independent of it.
- The page's own wiring is not modelled: a custom composition is normalized before it is scored, and the match score is passed into `simulate`.
