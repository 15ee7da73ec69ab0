# Reinforcement-learning exercises in Dafny

A Dafny model of the three exercise programs of a Go repository of
reinforcement-learning exercises (after Sutton and Barto), with proofs of the
properties their code relies on:

- **Mountain car with tile coding and TD control** (`mountaincar/env/mountaincar.go`).
  The tile encoder, the car's physics, the shuffled action list, linear Q
  values over the encoded features, greedy and epsilon-greedy selection, the
  weight tables, and one step (and whole episodes) of Q-learning, SARSA and
  SARSA(lambda).
  Modules: `TileCoding`, `MountainCar`, `LinearQ`, `TdControl`, and `Wrappers` for `Option`.
- **Jack's car rental** (`jack/jack.go`): policy iteration over two rental
  locations. Covered: the action clamp, the expected value `getValue`, the
  greedy choice with its 1e-10 tie margin, one `ImprovePolicy` pass with its
  "changed" flag, and one in-place sweep of `EvalPolicy`. It also covers the
  construction of the transition and reward tables from Poisson
  probabilities. Module: `Jack`.
- **The gambler's problem** (`gambler/gambler.go`): value iteration over
  capitals 0..100. Covered: the stake range, `getValue`, the greedy stake and
  one in-place sweep of the main loop. Module: `Gambler`.
- `RealMath` holds `math.Abs` and `math.Max` on reals.

`float64` is modelled as `real` throughout.

Go's `int(f)` is truncation toward zero (`TileCoding.Trunc`).

Whatever the code reads from `math/rand` or `math.Cos` is a parameter:
- the uniform draw of a new car;
- the two index draws of `LegalActions`;
- the epsilon-greedy draws;
- `cos(3x)` in the car's update.

An index out of range, which is a Go panic, is either a `None` result or a
precondition that the callers are proved to meet.

Behaviour of the code that the model keeps, and the proofs make visible:

- With one tiling of resolution 1 the encoder sets bit `2·row + column` of a
  2×2 grid. The top row is reached only at speed exactly 0.07 and the right
  column only at position exactly 0.5 (`TileCoding.EncodeUnitGrid`). So the
  highest tile, bit 3, is set only at the upper corner `(0.5, 0.07)`. Any
  point below it in both coordinates, such as `(0.49, 0.069)`, sets bit 0,
  the same bit as the lowest corner (`TileCoding.EncodeBelowCorner`).
- `SelectActionEGreedy` explores only when `rand.Float64() > 1`, which never
  happens. So every choice is greedy (`LinearQ.SelectEGreedy`,
  `TdControl.Behave`).
- SARSA and SARSA(lambda) choose the next action from the current state `s`,
  not from the successor `sPrime` (`TdControl.SarsaNextIsGreedyAtS`). Their
  targets still bootstrap on the successor state.
- `CopyWeights` sizes every copy by the length of action 0's vector. It
  truncates longer vectors (`LinearQ.CopyWeightsTruncates`) and zero-pads
  shorter ones (`LinearQ.CopyWeightsPads`).
- In the gambler's problem, the goal capital 100 is not absorbing. Its only
  stake is 0, which pays 1 on every heads, so each sweep moves `V[100]` to
  `0.5 + 0.9 * V[100]` (`Gambler.EndsOfRange`).
- Jack's `getValue` sums only over evening states below `LocStates`
  (`Jack.GetValueFrame`). `computeProbs` adds to the tables it is given.
  Its two loops stop at the first Poisson probability at most `theta`, or
  after 1000 values (`Jack.Cutoff`).

## Model

| member | source | states |
|---|---|---|
| `TileCoding.Trunc` | mountaincar/env/mountaincar.go:36-37 | the Go float-to-int conversion: the integer part toward zero, for both signs |
| `TileCoding.Place` | mountaincar/env/mountaincar.go:34-45 | the tiling loop succeeds exactly when every tiling's index is inside the vector, and then sets exactly the bits that some tiling indexes |
| `TileCoding.PlaceInBox` | mountaincar/env/mountaincar.go:34-45 | for an observation in the box, every tiling's index lies inside the vector, so the loop never fails |
| `TileCoding.Encode` | mountaincar/env/mountaincar.go:26-47 | inside the observation box the encoder never panics, and every vector it returns has nTilings·(R+1)² bits |
| `TileCoding.CoordInGrid` | mountaincar/env/mountaincar.go:36-37 | a normalised coordinate in [0, 1] still lands in row/column 0..tilingRes after any tiling's cumulative offset |
| `TileCoding.CellInBlock` | mountaincar/env/mountaincar.go:36-39 | for an observation in the box, every tiling's row, column, cell and index are in range, so `s[idx] = true` never panics |
| `TileCoding.BlocksDisjoint` | mountaincar/env/mountaincar.go:39 | different tilings or cells give different indices `tilesPerTiling*i + cell` |
| `TileCoding.EncodeOneHotBlocks` | mountaincar/env/mountaincar.go:26-47 | the encoded vector has length nTilings·(R+1)² and each tiling's block has exactly one set bit, at that tiling's cell |
| `TileCoding.EncodeActiveCount` | mountaincar/env/mountaincar.go:26-47 | exactly nTilings bits are set for every observation in the box |
| `TileCoding.EncodeLowestCorner` | mountaincar/env/mountaincar.go:32-41 | the lowest corner of the box sets index 0 |
| `TileCoding.EncodeUpperCorner` | mountaincar/env/mountaincar.go:32-41 | with one tiling of resolution 1, the upper corner (0.5, 0.07) sets the highest index 3 |
| `TileCoding.TruncUnit` | mountaincar/env/mountaincar.go:36-37 | `int(f)` of a value in [0, 1] is 0 or 1, and 1 exactly at 1 |
| `TileCoding.EncodeUnitGrid` | mountaincar/env/mountaincar.go:26-47 | with one tiling of resolution 1, the only set bit is 2·[dx = 0.07] + [x = 0.5], so bit 3 is set exactly at (0.5, 0.07) |
| `TileCoding.EncodeBelowCorner` | mountaincar/env/mountaincar.go:26-47 | with one tiling of resolution 1, every point below (0.5, 0.07) in both coordinates, such as (0.49, 0.069), sets bit 0 and not bit 3 |
| `MountainCar.ClampSpeed` | mountaincar/env/mountaincar.go:68-72 | the velocity clamp keeps the speed within ±0.07 and leaves in-range speeds alone |
| `MountainCar.Transition` | mountaincar/env/mountaincar.go:63-86 | for any cosine value the car stays in the box; it moves by its new clamped speed (`MountainCar.NewSpeed`), stops at rest on the left wall when it reaches it, and is placed on the goal with reward 0 when it reaches that; every other step has reward -1 |
| `MountainCar.Terminal` | mountaincar/env/mountaincar.go:88-90 | a car on the goal is finished, and a finished car in the box lies within the last thousandth below the goal |
| `MountainCar.InitialCar` | mountaincar/env/mountaincar.go:103-111 | a new car is at rest in [-0.6, -0.4), inside the box and not terminal |
| `MountainCar.Swap` | mountaincar/env/mountaincar.go:96-98 | the two-element swap exchanges positions i and j and keeps all others |
| `MountainCar.SwapPermutes` | mountaincar/env/mountaincar.go:96-98 | a swap leaves the multiset of actions unchanged |
| `MountainCar.LegalActions` | mountaincar/env/mountaincar.go:92-101 | the shuffled list holds each of the three actions exactly once |
| `MountainCar.LegalActionsInjective` | mountaincar/env/mountaincar.go:95-98 | different index draws give different orders |
| `MountainCar.LegalActionsCoverAll` | mountaincar/env/mountaincar.go:92-101 | every order of the three actions is produced by some draw |
| `LinearQ.MaxQ` | mountaincar/env/mountaincar.go:125-137 | the result is at least every listed action's Q value and equals one of them |
| `LinearQ.SelectGreedy` | mountaincar/env/mountaincar.go:139-153 | the chosen action is listed and its Q value is the maximum |
| `LinearQ.SelectGreedyEarliest` | mountaincar/env/mountaincar.go:139-153 | the chosen action is the first listed one of maximal Q value (strict `>` keeps the earliest) |
| `LinearQ.SelectEGreedy` | mountaincar/env/mountaincar.go:155-162 | the chosen action is listed, and a draw u ≤ 1 (every `rand.Float64`) gives the greedy action |
| `LinearQ.Zeros` | mountaincar/env/mountaincar.go:286-288 | a fresh Go slice: length n, all zeros |
| `LinearQ.CreateWeights` | mountaincar/env/mountaincar.go:281-291 | the table has exactly the three actions, each with an all-zero vector of nTilings·(R+1)² weights |
| `LinearQ.CreateWeightsQZero` | mountaincar/env/mountaincar.go:113-123 | every Q value read from fresh weights is 0 |
| `LinearQ.ShapedFits` | mountaincar/env/mountaincar.go:113-120 | with vectors as long as the state, reading any action's weights at the set bits never panics |
| `LinearQ.Q` | mountaincar/env/mountaincar.go:113-123 | a state with no set bit, or an action whose weights are all zero, has estimate 0 |
| `LinearQ.ActiveSumVanishes` | mountaincar/env/mountaincar.go:116-120 | the sum over the set bits is 0 when no bit is set or every weight is 0 |
| `LinearQ.SubtractActiveSum` | mountaincar/env/mountaincar.go:245-248 | the loop `delta -= ws[i]` over the set bits (`LinearQ.SubtractActive`) subtracts their weight sum, Q(s, a), from `delta` |
| `LinearQ.QOfEncoding` | mountaincar/env/mountaincar.go:113-123 | Q of an encoded observation is the sum, over tilings, of the weight at that tiling's index |
| `LinearQ.ActiveSumSplit` | mountaincar/env/mountaincar.go:116-120 | the sum over the set bits splits at any midpoint |
| `LinearQ.ActiveSumOneHot` | mountaincar/env/mountaincar.go:116-120 | over a range with one set bit, the sum is that bit's weight |
| `LinearQ.CopyInto` | mountaincar/env/mountaincar.go:298-304 | `copy` into a fresh slice of length n keeps the first n source values when the source is long enough, and otherwise the whole source followed by zeros |
| `LinearQ.CopyWeights` | mountaincar/env/mountaincar.go:293-307 | the copy holds exactly the three actions, each sized like action 0's vector |
| `LinearQ.CopyWeightsShaped` | mountaincar/env/mountaincar.go:293-307 | copying well-shaped weights gives an equal table |
| `LinearQ.CopyWeightsTruncates` | mountaincar/env/mountaincar.go:296-304 | a vector longer than action 0's is cut to that length |
| `LinearQ.CopyWeightsPads` | mountaincar/env/mountaincar.go:296-304 | a vector shorter than action 0's is extended with zeros to that length |
| `TdControl.Observe` | mountaincar/env/mountaincar.go:59-61 | the state of a car in the box is a vector of the encoder's length with exactly nTilings set bits |
| `TdControl.Behave` | mountaincar/env/mountaincar.go:155-162 | the behaviour action is a legal action whose weights fit the state, and for every draw u ≤ 1 (every `rand.Float64`) it is the greedy action of the state over the listed order |
| `TdControl.Learn` | mountaincar/env/mountaincar.go:173-181 | adding the change at the set bits of the state touches only that action's vector and keeps the table's shape |
| `TdControl.QLearningStep` | mountaincar/env/mountaincar.go:169-194 | one Q-learning step moves the car, re-observes unless terminal, and adds alpha·(target − Q(s, a)) to the taken action's active weights |
| `TdControl.QLearningTarget` | mountaincar/env/mountaincar.go:171-187 | on termination the target is 0 exactly on the goal and -1 just short of it; otherwise it is -1 + discount · max over the next legal actions of Q(s′, ·) |
| `TdControl.SarsaStart` | mountaincar/env/mountaincar.go:202-204 | an episode starts from the observed state with an epsilon-greedy action |
| `TdControl.SarsaNextAction` | mountaincar/env/mountaincar.go:221 | the next action is a legal action |
| `TdControl.SarsaNextIsGreedyAtS` | mountaincar/env/mountaincar.go:221 | for every draw u ≤ 1 the next action is the greedy action of the current state s, not of the successor s′ |
| `TdControl.SarsaStep` | mountaincar/env/mountaincar.go:205-231 | one SARSA step moves the car, adds alpha·(target − Q(s, a)) at the active weights of the current action, and moves to (s′, a′) unless terminal |
| `TdControl.SarsaTarget` | mountaincar/env/mountaincar.go:206-223 | on termination the target is 0 exactly on the goal and -1 just short of it; otherwise it is -1 + discount · Q(s′, a′) |
| `TdControl.SarsaTargetAtMostQLearning` | mountaincar/env/mountaincar.go:176-223 | from the same pair and draws, SARSA's target never exceeds Q-learning's (non-negative discount), and they agree on termination |
| `TdControl.BootstrapAtMostBest` | mountaincar/env/mountaincar.go:125-137 | any legal action's Q value is at most MaxQ over an order of the actions |
| `TdControl.LambdaStart` | mountaincar/env/mountaincar.go:238-241 | a SARSA(lambda) episode starts like SARSA with all traces zero |
| `TdControl.Bump` | mountaincar/env/mountaincar.go:245-252 | a non-negative active trace grows by one, a negative one is reset to 1; inactive traces are unchanged |
| `TdControl.Decay` | mountaincar/env/mountaincar.go:270-273 | every trace is multiplied by the decay factor |
| `TdControl.LearnTraced` | mountaincar/env/mountaincar.go:254-257 | every weight of the current action moves by alpha·delta times its trace; other actions are unchanged |
| `TdControl.LambdaStep` | mountaincar/env/mountaincar.go:242-277 | one SARSA(lambda) step bumps the traces, updates the weights by the traced TD error, and decays the traces unless terminal |
| `TdControl.AddDiscountedActiveSum` | mountaincar/env/mountaincar.go:264-268 | the loop `delta += discount * wsPrime[i]` over the set bits of s′ (`TdControl.AddDiscountedActive`) adds discount · Q(s′, a′) |
| `TdControl.LambdaDelta` | mountaincar/env/mountaincar.go:243-269 | the `delta` accumulated term by term equals SARSA's TD error r + discount·Q(s′, a′) − Q(s, a), or r − Q(s, a) on termination |
| `TdControl.SameUpdateFromZeroTraces` | mountaincar/env/mountaincar.go:245-257 | from zero traces, the traced update equals SARSA's update of the active weights |
| `TdControl.LambdaStepFromZeroIsSarsaStep` | mountaincar/env/mountaincar.go:236-277 | a SARSA(lambda) step from zero traces is a SARSA step |
| `TdControl.LambdaTraces` | mountaincar/env/mountaincar.go:248-272 | with lambda 0 the traces are zero again after a non-terminal step; non-negative traces stay non-negative |
| `TdControl.DecayTraces` | mountaincar/env/mountaincar.go:272 | decay by 0 clears the traces, and decay by a non-negative factor keeps them non-negative |
| `TdControl.BumpKeepsNonNegative` | mountaincar/env/mountaincar.go:248-251 | bumping keeps non-negative traces non-negative |
| `TdControl.QLearningRun` | mountaincar/env/mountaincar.go:169-195 | the episode loop keeps the state well-formed and does nothing once the car is terminal |
| `TdControl.SarsaRun` | mountaincar/env/mountaincar.go:205-232 | the episode loop keeps the state well-formed and does nothing once the car is terminal |
| `TdControl.LambdaRun` | mountaincar/env/mountaincar.go:242-277 | the episode loop keeps the state well-formed and does nothing once the car is terminal |
| `TdControl.SarsaRunAppend` | mountaincar/env/mountaincar.go:205-232 | running two draw sequences one after the other is running their concatenation |
| `TdControl.LambdaZeroRunIsSarsaRun` | mountaincar/env/mountaincar.go:242-277 | with lambda 0 and zero traces, a SARSA(lambda) episode equals a SARSA episode |
| `TdControl.QLearning` | mountaincar/env/mountaincar.go:164-197 | training keeps the weight table's shape |
| `TdControl.Sarsa` | mountaincar/env/mountaincar.go:199-234 | training keeps the weight table's shape |
| `TdControl.SarsaLambda` | mountaincar/env/mountaincar.go:236-279 | training keeps the weight table's shape |
| `TdControl.SarsaLambdaZeroIsSarsa` | mountaincar/env/mountaincar.go:236-279 | SARSA(lambda) training with lambda 0 gives the same weights as SARSA training |
| `Jack.IntMin` | jack/jack.go:36-42 | the result is the smaller argument |
| `Jack.IntMax` | jack/jack.go:44-50 | the result is the larger argument |
| `Jack.ClampAction` | jack/jack.go:106-107 | the clamped action lies in [-5, 5], and within [max(-5, -m), min(5, n)] whenever that range is not empty |
| `Jack.ClampFixesRange` | jack/jack.go:106-107 | the clamp leaves an action unchanged exactly when it is already in range |
| `Jack.ClampIdempotent` | jack/jack.go:106-107 | clamping twice is clamping once |
| `Jack.SafeOnGrid` | jack/jack.go:105-124 | for evening counts 0..20 every action gives morning counts that index the 26-row tables |
| `Jack.Penalty` | jack/jack.go:110 | the transport cost is never positive |
| `Jack.GetValue` | jack/jack.go:105-127 | the value is at most the expected return from the clamped move's morning counts, since moving cars only costs; with no states it is the transport cost alone |
| `Jack.GetValueClamped` | jack/jack.go:105-107 | only the clamped action matters to `getValue` |
| `Jack.GetValueFrame` | jack/jack.go:122-126 | `getValue` reads the value table only at states below `LocStates` |
| `Jack.GetValueMono` | jack/jack.go:122-126 | with non-negative probabilities and discount, a pointwise larger value table gives a larger value |
| `Jack.ScanBy` | jack/jack.go:149-158 | the scan returns an action of the scanned range |
| `Jack.ScanByIsBest` | jack/jack.go:149-158 | no scanned action beats the choice by more than 1e-10, and the choice moves off the first action only to beat it by more than 1e-10 |
| `Jack.FindPolicyGreedy` | jack/jack.go:145-161 | the choice lies in [max(-5, -m), min(5, n)] whenever that range is not empty |
| `Jack.FindPolicyGreedyIsBest` | jack/jack.go:145-161 | no action of the range has a value more than 1e-10 above the choice's, and the choice is `minA` unless it beats `minA` by more than 1e-10 |
| `Jack.ScanSafeOnGrid` | jack/jack.go:146-153 | every action the greedy scan evaluates at a grid state is safe to evaluate |
| `Jack.ImprovePolicy` | jack/jack.go:131-143 | every visited entry becomes the greedy action, all others are unchanged, and `changed` holds exactly when some visited entry differed from the greedy action |
| `Jack.SweepWith` | jack/jack.go:94-101 | each visited cell, in row-major order, gets the rule applied to the table as it stands then; all other cells keep their value; `diff` is the largest change, or 0 |
| `Jack.EvalSweep` | jack/jack.go:94-101 | each visited `V[n][m]` becomes `getValue(n, m, Policy[n][m])` computed with the earlier cells already new; `diff` is the largest change |
| `Jack.CutoffFrom` | jack/jack.go:53-57 | the loop runs up to the first probability at most theta, or to the end |
| `Jack.Cutoff` | jack/jack.go:70-74 | the loop visits exactly the prefix of probabilities above theta |
| `Jack.Fulfilled` | jack/jack.go:61 | the rentals served are at most the cars present and at most those requested |
| `Jack.Dest` | jack/jack.go:80-81 | the evening count is clamped into 0..20 and is exact when already in range |
| `Jack.Pass` | jack/jack.go:77-84 | one return count adds its probability to each row's destination column, through `Jack.Bump` (`row[d] += x`) |
| `Jack.AddRewards` | jack/jack.go:60-63 | each morning count earns 10 × probability × rentals served (`Jack.Earned`) |
| `Jack.ComputeProbs` | jack/jack.go:52-87 | the tables keep their 26×21 and 26 shapes, so every write stays in bounds |
| `Jack.Returns` | jack/jack.go:70-85 | the return loop keeps the table's row count; `Jack.ReturnsMass` gives the mass it adds |
| `Jack.Rentals` | jack/jack.go:53-86 | the rental loop keeps the table's row count; `Jack.RentalsMass` gives the mass it adds |
| `Jack.Rewards` | jack/jack.go:53-68 | the rental loop keeps the reward table's length; `Jack.RewardsIncome` gives the income it adds |
| `Jack.TotalAdd` | jack/jack.go:83 | adding to one entry raises the row total by that amount |
| `Jack.PassMass` | jack/jack.go:77-84 | each row's total grows by the probability added |
| `Jack.ReturnsMass` | jack/jack.go:70-85 | the return loop adds the rental probability times the visited return mass to each row's total |
| `Jack.RentalsMass` | jack/jack.go:53-86 | the rental loop adds the joint mass of the visited rental and return counts to each row's total |
| `Jack.ComputeProbsMass` | jack/jack.go:52-87 | every row of the transition table gains exactly the total joint probability of the visited counts, so no mass is lost by clamping |
| `Jack.RewardsIncome` | jack/jack.go:53-68 | each row's reward gains the expected income of the visited rental counts |
| `Jack.IncomeMono` | jack/jack.go:60-62 | with non-negative probabilities, more cars in the morning never earn less |
| `Jack.ComputeProbsRewards` | jack/jack.go:52-87 | the reward table gains the expected income for each morning count, and that income is monotone in the count |
| `Gambler.IntMin` | gambler/gambler.go:14-19 | the result is the smaller argument |
| `Gambler.IntMax` | gambler/gambler.go:21-26 | the result is the larger argument |
| `Gambler.ActionRange` | gambler/gambler.go:43-47 | stakes run from 0 to min(s, 100 − s) |
| `Gambler.UpperBounds` | gambler/gambler.go:43-47 | for s in 0..100 the top stake is non-negative, keeps s ± stake in 0..100, and is 0 exactly at s = 0 and s = 100 |
| `Gambler.SafeIff` | gambler/gambler.go:28-30 | the heads and tails successors index `V[101]` exactly when s + a ≥ 0 and s − a ≤ 100 |
| `Gambler.StakeSafe` | gambler/gambler.go:28-30 | every non-negative stake from a capital is safe, and a stake in range is never capped or floored |
| `Gambler.Reward` | gambler/gambler.go:32-35 | the reward is 1 exactly when heads reaches 100, else 0 |
| `Gambler.GetValue` | gambler/gambler.go:37-41 | a non-negative table gives a non-negative value, and a table within [0, 5] gives a value within [0, 5] |
| `Gambler.GetValueOnZeroTable` | gambler/gambler.go:28-41 | on the zero table a stake is worth 0.5 exactly when s + a ≥ 100, else 0 |
| `Gambler.GetValueSplit` | gambler/gambler.go:37-40 | the value is half the reward plus 0.45 times the sum of the two successors' values |
| `Gambler.GetValueMono` | gambler/gambler.go:37-40 | a pointwise larger table gives a larger value |
| `Gambler.GetValueContraction` | gambler/gambler.go:37-40 | tables within e give values within 0.9·e |
| `Gambler.FirstArgmax` | gambler/gambler.go:52-61 | the scan returns a stake of the range |
| `Gambler.FirstArgmaxIsFirstBest` | gambler/gambler.go:52-61 | the scanned stake has maximal value and every earlier stake is strictly worse |
| `Gambler.ArgmaxScan` | gambler/gambler.go:52-61 | the loop with strict `>` ends on the scan's stake and its value |
| `Gambler.Choice` | gambler/gambler.go:49-64 | the greedy stake lies in the action range |
| `Gambler.Best` | gambler/gambler.go:49-64 | no stake of the range has a larger value, and every stake before the chosen one a strictly smaller value |
| `Gambler.ChoiceIsFirstBest` | gambler/gambler.go:49-64 | the greedy stake is the smallest stake of maximal value |
| `Gambler.IterValueGreedy` | gambler/gambler.go:49-64 | maxA is in range, maxV = getValue(s, maxA), no stake has a larger value, and every smaller stake has a strictly smaller one |
| `Gambler.BestMono` | gambler/gambler.go:49-64 | the greedy value is monotone in the table |
| `Gambler.BestContraction` | gambler/gambler.go:49-64 | the greedy value is a 0.9-contraction in the table |
| `Gambler.EndsOfRange` | gambler/gambler.go:28-47 | at 0 and 100 the only stake is 0; V[0] becomes 0.9·V[0] and V[100] becomes 0.5 + 0.9·V[100] |
| `Gambler.Seen` | gambler/gambler.go:73-75 | the in-place table read at capital s holds new values below s and old ones from s on |
| `Gambler.SweepWith` | gambler/gambler.go:72-78 | capitals 0..100 in order each get the rule applied to the table as it stands; `diff` is the largest change, or 0 |
| `Gambler.Sweep` | gambler/gambler.go:72-78 | each `V[s], P[s]` is `iterValueGreedy(s)` on the partially updated table; `diff` is the largest change of a value |

## Left out

- `mountaincar/main.go`: pixel rendering, the window loop and the goroutine/channel hand-off of training. They are UI and concurrency.
- `mdp/mdp.go`: it does not compile and only repeats the SARSA loop.
- `IdentityEncoder` and `GetRawState`: trivial accessors. `GetState` is `TdControl.Observe`.
- IEEE-754 rounding: every `float64` is a `real`, so results the program would round are exact here.
- `math.Cos`, `math/rand`, `factorial` and `poisson`: these are parameters (the cosine value, the draws, the Poisson tables), because their values are floating-point or random.
- The loops that run until a float threshold or the goal is met:
  - Jack's `for diff > theta` in `EvalPolicy` and its policy-iteration loop in `main`;
  - the gambler's `for diff > theta`;
  - the episode loops.

  The first two are modelled as one sweep. The episodes consume a finite sequence of draws, so an episode longer than its draws stops early.
- Printing (`PrintPolicy`, the gambler's output): output only.
- The `R` reward accumulator in `Sarsa`: it is written and never read.
- `MaxMornCars` and `MaxTrans`: the program sets them but never reads them.
- `LinearQ.Q`: reading a missing action key yields an empty vector, as Go's `nil` slice does. A set bit beyond a short vector, which would panic, is excluded by the `Fits` precondition instead of modelled as an error.
- `TileCoding.Valid`: requires `tilingRes ≥ 1`. With 0, Go divides by zero in floating point and the encoder's output is not defined in reals.
- `Jack.GetValue`: requires the morning counts to index the 26-row tables even when `LocStates ≤ 0`, where the Go loop reads no table entry at all.
- `Jack.Bump`: ignores an out-of-range column instead of panicking. `Jack.Dest` proves that the column is always in range, so the guard is never taken.
- `Gambler.Sweep`: applies `iterValueGreedy`'s value and stake through their functional definitions (`Gambler.Best`, `Gambler.Choice`). `Gambler.IterValueGreedy` is proved to return exactly these.
