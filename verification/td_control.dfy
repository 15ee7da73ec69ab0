/** One step of each of the three temporal-difference control algorithms
    driving the mountain car: Q-learning, SARSA and SARSA(lambda).

    A step is the body of the inner episode loop.  Leaving the loop with
    `break` after the terminal update is the same as testing the loop guard
    again, so a state is finished exactly when its car is terminal.  Random
    draws and the gravity term are parameters of each step. */
module TdControl {
  import TileCoding
  import MountainCar
  import opened LinearQ
  import opened RealMath

  /** Encoder configuration and the learning rate, discount and trace decay. */
  datatype Params = Params(cfg: TileCoding.Config, alpha: real, discount: real, lambda: real)

  /** One epsilon-greedy choice: the order `MountainCar.LegalActions`
      returned (any order of the three actions, which its draws reach one
      to one), the uniform draw `u` and the index draw `k` of the exploring
      branch. */
  datatype Choice = Choice(order: seq<real>, u: real, k: nat)

  /** What one step consumes: the action choice, the value of `cos(3x)` in
      the car's update, and the order of the second `LegalActions` call
      Q-learning makes. */
  datatype StepDraws = StepDraws(choice: Choice, cos3x: real, order: seq<real>)

  predicate ValidChoice(c: Choice) {
    MountainCar.IsOrderOfActions(c.order) && c.k < 3
  }

  predicate ValidDraws(d: StepDraws) {
    ValidChoice(d.choice) && MountainCar.IsOrderOfActions(d.order)
  }

  /** `discount * v`. */
  function Discounted(p: Params, v: real): real {
    p.discount * v
  }

  /** `alpha * e`: how far a TD error `e` moves a weight. */
  function Scaled(p: Params, e: real): real {
    p.alpha * e
  }

  /** The factor `discount * lambda` the traces decay by. */
  function TraceDecay(p: Params): real {
    p.discount * p.lambda
  }

  function Features(p: Params): nat {
    TileCoding.FeatureCount(p.cfg)
  }

  /** The car is in its box and the encoded state and weight vectors have
      the encoder's length. */
  predicate Ready(p: Params, car: MountainCar.Car, s: seq<bool>, weights: Weights) {
    && TileCoding.Valid(p.cfg)
    && MountainCar.InBounds(car)
    && |s| == Features(p)
    && Shaped(weights, Features(p))
  }

  /** An order of the actions lists only actions, and each of them. */
  lemma OrderOfActions(o: seq<real>)
    requires MountainCar.IsOrderOfActions(o)
    ensures forall k :: 0 <= k < |o| ==> o[k] in MountainCar.Actions
    ensures forall a :: a in MountainCar.Actions ==> a in o
  {
    assert forall a :: a in MountainCar.Actions ==> a == 0.0 || a == 1.0 || a == -1.0;
  }

  /** `mdp.GetState()`: the tile encoding of the car. */
  function Observe(cfg: TileCoding.Config, car: MountainCar.Car): (s: seq<bool>)
    requires TileCoding.Valid(cfg) && MountainCar.InBounds(car)
    ensures |s| == TileCoding.FeatureCount(cfg)
    ensures TileCoding.Count(s) == cfg.nTilings
  {
    TileCoding.EncodeActiveCount(cfg, car.x, car.dx);
    TileCoding.EncodeOneHotBlocks(cfg, car.x, car.dx);
    TileCoding.Encode(cfg, car.x, car.dx).value
  }

  /** The behaviour policy: epsilon-greedy over freshly shuffled legal actions. */
  function Behave(weights: Weights, s: seq<bool>, c: Choice): (a: real)
    requires Shaped(weights, |s|) && ValidChoice(c)
    ensures a in MountainCar.Actions
    ensures Fits(weights, a, s)
    ensures c.u <= 1.0 ==> a == SelectGreedy(weights, s, c.order)
  {
    OrderOfActions(c.order);
    ShapedFits(weights, |s|, s, c.order);
    SelectEGreedy(weights, s, c.order, c.u, c.k)
  }

  /** `w1` is `w0` with `change` added to action `a`'s weights at the set
      bits of `s`; every other weight is as before. */
  predicate UpdatedAt(w0: Weights, w1: Weights, s: seq<bool>, a: real, change: real) {
    && w1.Keys == w0.Keys
    && (forall b :: b in w0 && b != a ==> w1[b] == w0[b])
    && (a in w0 ==>
          && |w1[a]| == |w0[a]|
          && forall i :: 0 <= i < |w0[a]| ==>
               w1[a][i] == (if i < |s| && s[i] then w0[a][i] + change else w0[a][i]))
  }

  /** Adds `change` at the set bits of `s`. */
  function AddActive(w: seq<real>, s: seq<bool>, change: real): (r: seq<real>)
    requires Covers(w, s)
    ensures |r| == |w|
  {
    seq(|w|, i requires 0 <= i < |w| => if i < |s| && s[i] then w[i] + change else w[i])
  }

  /** Moves every active weight of action `a` by `change`. */
  function Learn(weights: Weights, s: seq<bool>, a: real, change: real): (r: Weights)
    requires Shaped(weights, |s|) && a in MountainCar.Actions
    ensures UpdatedAt(weights, r, s, a, change)
    ensures Shaped(r, |s|)
  {
    weights[a := AddActive(weights[a], s, change)]
  }

  // ---------------------------------------------------------------------------
  // Q-learning.

  datatype QState = QState(car: MountainCar.Car, s: seq<bool>, weights: Weights)

  predicate QReady(p: Params, st: QState) {
    Ready(p, st.car, st.s, st.weights)
  }

  /** The action Q-learning takes in this step. */
  function QLearningAction(st: QState, d: StepDraws): (a: real)
    requires Shaped(st.weights, |st.s|) && ValidDraws(d)
    ensures a in MountainCar.Actions && Fits(st.weights, a, st.s)
  {
    Behave(st.weights, st.s, d.choice)
  }

  /** Where the car ends up and the reward it gets. */
  function QLearningOutcome(st: QState, d: StepDraws): (o: MountainCar.Outcome)
    requires Shaped(st.weights, |st.s|) && ValidDraws(d)
    ensures MountainCar.InBounds(o.car)
  {
    MountainCar.Transition(st.car, QLearningAction(st, d), d.cos3x)
  }

  /** Q-learning's target: the reward alone on termination, else the reward
      plus the discounted best estimate of the successor state over freshly
      listed legal actions.  On termination the target is 0 exactly when
      the car stands on the goal and -1 otherwise; off the goal the step
      costs 1. */
  function QLearningTarget(p: Params, st: QState, d: StepDraws): (r: real)
    requires QReady(p, st) && ValidDraws(d)
    ensures MountainCar.Terminal(QLearningOutcome(st, d).car) ==>
              (r == 0.0 || r == -1.0) && (r == 0.0 <==> QLearningOutcome(st, d).car.x == MountainCar.Goal)
    ensures !MountainCar.Terminal(QLearningOutcome(st, d).car) ==>
              && AllFit(st.weights, Observe(p.cfg, QLearningOutcome(st, d).car), d.order)
              && r == -1.0 + Discounted(p, MaxQ(st.weights, Observe(p.cfg, QLearningOutcome(st, d).car), d.order))
  {
    var o := QLearningOutcome(st, d);
    if MountainCar.Terminal(o.car) then o.reward
    else
      var s' := Observe(p.cfg, o.car);
      OrderOfActions(d.order);
      ShapedFits(st.weights, |s'|, s', d.order);
      o.reward + Discounted(p, MaxQ(st.weights, s', d.order))
  }

  /** The TD error of a Q-learning step: target minus the current estimate. */
  function QLearningError(p: Params, st: QState, d: StepDraws): real
    requires QReady(p, st) && ValidDraws(d)
  {
    QLearningTarget(p, st, d) - Q(st.weights, st.s, QLearningAction(st, d))
  }

  /** One iteration of the Q-learning episode loop: every active weight of
      the action taken moves by `alpha * (target - Q(s, a))`, nothing else
      changes. */
  function QLearningStep(p: Params, st: QState, d: StepDraws): (r: QState)
    requires QReady(p, st) && ValidDraws(d)
    ensures QReady(p, r)
    ensures r.car == QLearningOutcome(st, d).car
    ensures MountainCar.Terminal(r.car) ==> r.s == st.s
    ensures !MountainCar.Terminal(r.car) ==> r.s == Observe(p.cfg, r.car)
    ensures UpdatedAt(st.weights, r.weights, st.s, QLearningAction(st, d), Scaled(p, QLearningError(p, st, d)))
  {
    var o := QLearningOutcome(st, d);
    var w := Learn(st.weights, st.s, QLearningAction(st, d), Scaled(p, QLearningError(p, st, d)));
    var s' := if MountainCar.Terminal(o.car) then st.s else Observe(p.cfg, o.car);
    QState(o.car, s', w)
  }

  // ---------------------------------------------------------------------------
  // SARSA.

  datatype SarsaState = SarsaState(car: MountainCar.Car, s: seq<bool>, a: real, weights: Weights)

  predicate SarsaReady(p: Params, st: SarsaState) {
    Ready(p, st.car, st.s, st.weights) && st.a in MountainCar.Actions
  }

  /** Start of a SARSA episode: observe the car and choose the first action. */
  function SarsaStart(p: Params, car: MountainCar.Car, weights: Weights, c: Choice): (r: SarsaState)
    requires TileCoding.Valid(p.cfg) && MountainCar.InBounds(car)
    requires Shaped(weights, Features(p)) && ValidChoice(c)
    ensures SarsaReady(p, r) && r.car == car && r.weights == weights
    ensures r.s == Observe(p.cfg, car)
  {
    var s := Observe(p.cfg, car);
    SarsaState(car, s, Behave(weights, s, c), weights)
  }

  /** Where the car ends up under the current action, and the reward. */
  function SarsaOutcome(st: SarsaState, d: StepDraws): (o: MountainCar.Outcome)
    ensures MountainCar.InBounds(o.car)
  {
    MountainCar.Transition(st.car, st.a, d.cos3x)
  }

  /** The next action SARSA bootstraps on.  As written it is chosen from the
      current state `s`, not from the successor state. */
  function SarsaNextAction(st: SarsaState, d: StepDraws): (a: real)
    requires Shaped(st.weights, |st.s|) && ValidDraws(d)
    ensures a in MountainCar.Actions
  {
    Behave(st.weights, st.s, d.choice)
  }

  /** For every draw of `rand.Float64` (at most 1) the next action is the
      greedy action of the current state `s` over the listed order, whatever
      the successor state is. */
  lemma SarsaNextIsGreedyAtS(st: SarsaState, d: StepDraws)
    requires Shaped(st.weights, |st.s|) && ValidDraws(d) && d.choice.u <= 1.0
    ensures AllFit(st.weights, st.s, d.choice.order)
    ensures SarsaNextAction(st, d) == SelectGreedy(st.weights, st.s, d.choice.order)
  {
    OrderOfActions(d.choice.order);
    ShapedFits(st.weights, |st.s|, st.s, d.choice.order);
  }

  /** SARSA's target: the reward alone on termination, else the reward plus
      the discounted estimate of the successor state under the next action. */
  function SarsaTarget(p: Params, st: SarsaState, d: StepDraws): (r: real)
    requires SarsaReady(p, st) && ValidDraws(d)
    ensures MountainCar.Terminal(SarsaOutcome(st, d).car) ==>
              (r == 0.0 || r == -1.0) && (r == 0.0 <==> SarsaOutcome(st, d).car.x == MountainCar.Goal)
    ensures !MountainCar.Terminal(SarsaOutcome(st, d).car) ==>
              r == -1.0 + Discounted(p, Q(st.weights, Observe(p.cfg, SarsaOutcome(st, d).car), SarsaNextAction(st, d)))
  {
    var o := SarsaOutcome(st, d);
    if MountainCar.Terminal(o.car) then o.reward
    else o.reward + Discounted(p, Q(st.weights, Observe(p.cfg, o.car), SarsaNextAction(st, d)))
  }

  /** The TD error of a SARSA step: target minus the current estimate. */
  function SarsaError(p: Params, st: SarsaState, d: StepDraws): real
    requires SarsaReady(p, st) && ValidDraws(d)
  {
    SarsaTarget(p, st, d) - Q(st.weights, st.s, st.a)
  }

  /** One iteration of the SARSA episode loop. */
  function SarsaStep(p: Params, st: SarsaState, d: StepDraws): (r: SarsaState)
    requires SarsaReady(p, st) && ValidDraws(d)
    ensures SarsaReady(p, r)
    ensures r.car == SarsaOutcome(st, d).car
    ensures MountainCar.Terminal(r.car) ==> r.s == st.s && r.a == st.a
    ensures !MountainCar.Terminal(r.car) ==>
              r.s == Observe(p.cfg, r.car) && r.a == SarsaNextAction(st, d)
    ensures UpdatedAt(st.weights, r.weights, st.s, st.a, Scaled(p, SarsaError(p, st, d)))
  {
    var o := SarsaOutcome(st, d);
    var w := Learn(st.weights, st.s, st.a, Scaled(p, SarsaError(p, st, d)));
    if MountainCar.Terminal(o.car) then SarsaState(o.car, st.s, st.a, w)
    else SarsaState(o.car, Observe(p.cfg, o.car), SarsaNextAction(st, d), w)
  }

  // ---------------------------------------------------------------------------
  // SARSA(lambda).

  /** A SARSA state together with one eligibility trace per feature. */
  datatype LambdaState = LambdaState(base: SarsaState, zs: seq<real>)

  predicate LambdaReady(p: Params, st: LambdaState) {
    SarsaReady(p, st.base) && |st.zs| == |st.base.s|
  }

  predicate AllZero(zs: seq<real>) {
    forall i :: 0 <= i < |zs| ==> zs[i] == 0.0
  }

  predicate NonNegative(zs: seq<real>) {
    forall i :: 0 <= i < |zs| ==> zs[i] >= 0.0
  }

  /** Start of a SARSA(lambda) episode: the SARSA start with zero traces. */
  function LambdaStart(p: Params, car: MountainCar.Car, weights: Weights, c: Choice): (r: LambdaState)
    requires TileCoding.Valid(p.cfg) && MountainCar.InBounds(car)
    requires Shaped(weights, Features(p)) && ValidChoice(c)
    ensures LambdaReady(p, r) && AllZero(r.zs)
    ensures r.base == SarsaStart(p, car, weights, c)
  {
    var b := SarsaStart(p, car, weights, c);
    LambdaState(b, Zeros(|b.s|))
  }

  /** Trace bump at the active features: `z + 1`, raised to at least 1, so
      a non-negative trace grows by one and a negative one is reset to 1. */
  function Bump(zs: seq<real>, s: seq<bool>): (r: seq<real>)
    requires |zs| == |s|
    ensures |r| == |zs|
    ensures forall i :: 0 <= i < |zs| && s[i] ==> r[i] >= 1.0 && r[i] >= zs[i] + 1.0
    ensures forall i :: 0 <= i < |zs| && s[i] && zs[i] >= 0.0 ==> r[i] == zs[i] + 1.0
    ensures forall i :: 0 <= i < |zs| && s[i] && zs[i] < 0.0 ==> r[i] == 1.0
    ensures forall i :: 0 <= i < |zs| && !s[i] ==> r[i] == zs[i]
  {
    seq(|zs|, i requires 0 <= i < |zs| =>
      if s[i] then (var z := zs[i] + 1.0; if z < 1.0 then 1.0 else z) else zs[i])
  }

  /** Trace decay `z[i] *= f`. */
  function Decay(zs: seq<real>, f: real): (r: seq<real>)
    ensures |r| == |zs|
    ensures forall i :: 0 <= i < |zs| ==> r[i] == zs[i] * f
  {
    seq(|zs|, i requires 0 <= i < |zs| => zs[i] * f)
  }

  /** `w1` is `w0` with `c * zs[i]` added to action `a`'s weight `i` for
      every trace index `i`; every other weight is as before. */
  predicate ScaledAt(w0: Weights, w1: Weights, a: real, zs: seq<real>, c: real) {
    && w1.Keys == w0.Keys
    && (forall b :: b in w0 && b != a ==> w1[b] == w0[b])
    && (a in w0 ==>
          && |w1[a]| == |w0[a]|
          && forall i :: 0 <= i < |w0[a]| ==>
               w1[a][i] == (if i < |zs| then w0[a][i] + c * zs[i] else w0[a][i]))
  }

  /** `w[i] += c * z[i]` for every trace index. */
  function AddScaled(w: seq<real>, zs: seq<real>, c: real): (r: seq<real>)
    requires |zs| <= |w|
    ensures |r| == |w|
  {
    seq(|w|, i requires 0 <= i < |w| => if i < |zs| then w[i] + c * zs[i] else w[i])
  }

  /** Moves action `a`'s weights along the traces. */
  function LearnTraced(weights: Weights, a: real, zs: seq<real>, c: real): (r: Weights)
    requires Shaped(weights, |zs|) && a in MountainCar.Actions
    ensures ScaledAt(weights, r, a, zs, c)
    ensures Shaped(r, |zs|)
  {
    weights[a := AddScaled(weights[a], zs, c)]
  }

  /** The loop `delta += discount * w[j]` over the set bits `j` of `s` below
      `k`, in index order, starting from `d`. */
  function AddDiscountedActive(p: Params, d: real, w: seq<real>, s: seq<bool>, k: nat): real
    requires k <= |s| && Covers(w, s)
  {
    if k == 0 then d
    else
      var e := AddDiscountedActive(p, d, w, s, k - 1);
      if s[k - 1] then e + Discounted(p, w[k - 1]) else e
  }

  /** Adding the discounted active weights one by one adds the discounted
      sum. */
  lemma {:induction false} AddDiscountedActiveSum(p: Params, d: real, w: seq<real>, s: seq<bool>, k: nat)
    requires k <= |s| && Covers(w, s)
    ensures AddDiscountedActive(p, d, w, s, k) == d + Discounted(p, ActiveSum(w, s, 0, k))
  {
    if k > 0 {
      AddDiscountedActiveSum(p, d, w, s, k - 1);
      var a := ActiveSum(w, s, 0, k - 1);
      var x := if s[k - 1] then w[k - 1] else 0.0;
      assert p.discount * (a + x) == p.discount * a + p.discount * x;
    }
  }

  /** The TD error of a SARSA(lambda) step, accumulated as the loop does:
      start from the reward, subtract each active weight of the current
      action, and unless terminal add each discounted active weight of the
      next action at the successor state.  It comes to SARSA's error,
      target minus the current estimate. */
  function LambdaDelta(p: Params, st: LambdaState, d: StepDraws): (r: real)
    requires LambdaReady(p, st) && ValidDraws(d)
    ensures r == SarsaError(p, st.base, d)
  {
    var b := st.base;
    var o := SarsaOutcome(b, d);
    SubtractActiveSum(o.reward, Vec(b.weights, b.a), b.s, |b.s|);
    var delta := SubtractActive(o.reward, Vec(b.weights, b.a), b.s, |b.s|);
    if MountainCar.Terminal(o.car) then delta
    else
      var s' := Observe(p.cfg, o.car);
      var a' := SarsaNextAction(b, d);
      AddDiscountedActiveSum(p, delta, Vec(b.weights, a'), s', |s'|);
      AddDiscountedActive(p, delta, Vec(b.weights, a'), s', |s'|)
  }

  /** One iteration of the SARSA(lambda) episode loop: bump the traces of the
      active features, move every weight of the acted-on action by
      `alpha * delta * z[i]`, and unless terminal decay the traces by
      `discount * lambda` and move on. */
  function LambdaStep(p: Params, st: LambdaState, d: StepDraws): (r: LambdaState)
    requires LambdaReady(p, st) && ValidDraws(d)
    ensures LambdaReady(p, r)
    ensures r.base.car == SarsaOutcome(st.base, d).car
    ensures MountainCar.Terminal(r.base.car) ==>
              && r.base.s == st.base.s && r.base.a == st.base.a
              && r.zs == Bump(st.zs, st.base.s)
    ensures !MountainCar.Terminal(r.base.car) ==>
              && r.base.s == Observe(p.cfg, r.base.car) && r.base.a == SarsaNextAction(st.base, d)
              && r.zs == Decay(Bump(st.zs, st.base.s), TraceDecay(p))
    ensures ScaledAt(st.base.weights, r.base.weights, st.base.a, Bump(st.zs, st.base.s),
                     Scaled(p, LambdaDelta(p, st, d)))
  {
    var b := st.base;
    var o := SarsaOutcome(b, d);
    var z := Bump(st.zs, b.s);
    var w := LearnTraced(b.weights, b.a, z, Scaled(p, LambdaDelta(p, st, d)));
    if MountainCar.Terminal(o.car) then LambdaState(SarsaState(o.car, b.s, b.a, w), z)
    else LambdaState(SarsaState(o.car, Observe(p.cfg, o.car), SarsaNextAction(b, d), w),
                     Decay(z, TraceDecay(p)))
  }

  // ---------------------------------------------------------------------------
  // How the three updates relate.

  /** The state Q-learning would be in at the same car, encoding and weights. */
  function AsQ(st: SarsaState): QState {
    QState(st.car, st.s, st.weights)
  }

  /** From the same pair and the same draws, SARSA's target never exceeds
      Q-learning's when the discount is non-negative: Q-learning bootstraps
      on the best action, SARSA on one of them.  On termination the two
      agree. */
  lemma SarsaTargetAtMostQLearning(p: Params, st: SarsaState, d: StepDraws)
    requires SarsaReady(p, st) && ValidDraws(d) && p.discount >= 0.0
    requires st.a == QLearningAction(AsQ(st), d)
    ensures SarsaTarget(p, st, d) <= QLearningTarget(p, AsQ(st), d)
    ensures MountainCar.Terminal(SarsaOutcome(st, d).car) ==>
              SarsaTarget(p, st, d) == QLearningTarget(p, AsQ(st), d)
  {
    var o := SarsaOutcome(st, d);
    assert o == QLearningOutcome(AsQ(st), d);
    if !MountainCar.Terminal(o.car) {
      var s' := Observe(p.cfg, o.car);
      var a' := SarsaNextAction(st, d);
      BootstrapAtMostBest(st.weights, s', a', d.order);
      BootstrapOrder(p, -1.0, Q(st.weights, s', a'), MaxQ(st.weights, s', d.order));
    }
  }

  lemma BootstrapOrder(p: Params, r: real, x: real, m: real)
    requires p.discount >= 0.0 && x <= m
    ensures r + Discounted(p, x) <= r + Discounted(p, m)
  {
    MulLeftMono(p.discount, x, m);
  }

  /** The estimate of any action is at most the best over a shuffled list. */
  lemma BootstrapAtMostBest(weights: Weights, s: seq<bool>, a: real, order: seq<real>)
    requires Shaped(weights, |s|) && a in MountainCar.Actions && MountainCar.IsOrderOfActions(order)
    ensures AllFit(weights, s, order)
    ensures Q(weights, s, a) <= MaxQ(weights, s, order)
  {
    OrderOfActions(order);
    ShapedFits(weights, |s|, s, order);
  }

  /** With all traces zero, a SARSA(lambda) step is a SARSA step: the bumped
      traces are one exactly at the active features, so every active weight
      moves by `alpha * delta`, and `delta` is SARSA's target minus the
      current estimate. */
  lemma LambdaStepFromZeroIsSarsaStep(p: Params, st: LambdaState, d: StepDraws)
    requires LambdaReady(p, st) && ValidDraws(d) && AllZero(st.zs)
    ensures LambdaStep(p, st, d).base == SarsaStep(p, st.base, d)
  {
    var b := st.base;
    var r := LambdaStep(p, st, d).base;
    var q := SarsaStep(p, b, d);
    SameUpdateFromZeroTraces(b.weights, r.weights, q.weights, b.s, b.a, st.zs,
                             Scaled(p, SarsaError(p, b, d)));
  }

  /** From zero traces, moving along the bumped traces by `c` is moving
      every active weight by `c`. */
  lemma SameUpdateFromZeroTraces(w0: Weights, w1: Weights, w2: Weights, s: seq<bool>, a: real, zs: seq<real>, c: real)
    requires |zs| == |s| && AllZero(zs) && Shaped(w0, |s|) && a in MountainCar.Actions
    requires ScaledAt(w0, w1, a, Bump(zs, s), c)
    requires UpdatedAt(w0, w2, s, a, c)
    ensures w1 == w2
  {
    var z := Bump(zs, s);
    forall i | 0 <= i < |w0[a]|
      ensures w1[a][i] == w2[a][i]
    {
      if s[i] {
        assert z[i] == 1.0;
      } else {
        assert z[i] == 0.0;
      }
    }
    assert w1[a] == w2[a];
    assert forall b :: b in w1 ==> w1[b] == w2[b];
  }

  /** With `lambda = 0` the traces are cleared whenever the episode goes on,
      and with `discount * lambda >= 0` they never turn negative. */
  lemma LambdaTraces(p: Params, st: LambdaState, d: StepDraws)
    requires LambdaReady(p, st) && ValidDraws(d)
    ensures var r := LambdaStep(p, st, d);
            p.lambda == 0.0 && !MountainCar.Terminal(r.base.car) ==> AllZero(r.zs)
    ensures var r := LambdaStep(p, st, d);
            TraceDecay(p) >= 0.0 && NonNegative(st.zs) ==> NonNegative(r.zs)
  {
    var r := LambdaStep(p, st, d);
    var z := Bump(st.zs, st.base.s);
    BumpKeepsNonNegative(st.zs, st.base.s);
    DecayTraces(z, TraceDecay(p));
    NoLambdaNoDecay(p);
    if MountainCar.Terminal(r.base.car) {
      assert r.zs == z;
    } else {
      assert r.zs == Decay(z, TraceDecay(p));
    }
  }

  lemma BumpKeepsNonNegative(zs: seq<real>, s: seq<bool>)
    requires |zs| == |s|
    ensures NonNegative(zs) ==> NonNegative(Bump(zs, s))
  {
  }

  lemma NoLambdaNoDecay(p: Params)
    ensures p.lambda == 0.0 ==> TraceDecay(p) == 0.0
  {
  }

  lemma DecayTraces(zs: seq<real>, f: real)
    ensures f == 0.0 ==> AllZero(Decay(zs, f))
    ensures f >= 0.0 && NonNegative(zs) ==> NonNegative(Decay(zs, f))
  {
    if f >= 0.0 && NonNegative(zs) {
      forall i | 0 <= i < |zs|
        ensures Decay(zs, f)[i] >= 0.0
      {
        MulLeftMono(f, 0.0, zs[i]);
      }
    }
  }

  // ---------------------------------------------------------------------------
  // Episodes and training.

  predicate ValidSteps(ds: seq<StepDraws>) {
    forall i :: 0 <= i < |ds| ==> ValidDraws(ds[i])
  }

  /** Q-learning steps until the car is terminal, one step per draw record;
      the episode loop itself runs until termination, which the supplied
      draws bound. */
  function QLearningRun(p: Params, st: QState, ds: seq<StepDraws>): (r: QState)
    requires QReady(p, st) && ValidSteps(ds)
    ensures QReady(p, r)
    ensures MountainCar.Terminal(st.car) ==> r == st
    decreases |ds|
  {
    if MountainCar.Terminal(st.car) || |ds| == 0 then st
    else QLearningRun(p, QLearningStep(p, st, ds[0]), ds[1..])
  }

  function SarsaRun(p: Params, st: SarsaState, ds: seq<StepDraws>): (r: SarsaState)
    requires SarsaReady(p, st) && ValidSteps(ds)
    ensures SarsaReady(p, r)
    ensures MountainCar.Terminal(st.car) ==> r == st
    decreases |ds|
  {
    if MountainCar.Terminal(st.car) || |ds| == 0 then st
    else SarsaRun(p, SarsaStep(p, st, ds[0]), ds[1..])
  }

  function LambdaRun(p: Params, st: LambdaState, ds: seq<StepDraws>): (r: LambdaState)
    requires LambdaReady(p, st) && ValidSteps(ds)
    ensures LambdaReady(p, r)
    ensures MountainCar.Terminal(st.base.car) ==> r == st
    decreases |ds|
  {
    if MountainCar.Terminal(st.base.car) || |ds| == 0 then st
    else LambdaRun(p, LambdaStep(p, st, ds[0]), ds[1..])
  }

  /** Running on `ds` and then on `es` is running on `ds + es`: a run that
      reaches the goal early ignores the remaining draws. */
  lemma ValidStepsAppend(ds: seq<StepDraws>, es: seq<StepDraws>)
    requires ValidSteps(ds) && ValidSteps(es)
    ensures ValidSteps(ds + es)
  {
    forall i | 0 <= i < |ds + es|
      ensures ValidDraws((ds + es)[i])
    {
      if i < |ds| { assert (ds + es)[i] == ds[i]; } else { assert (ds + es)[i] == es[i - |ds|]; }
    }
  }

  lemma {:induction false} SarsaRunAppend(p: Params, st: SarsaState, ds: seq<StepDraws>, es: seq<StepDraws>)
    requires SarsaReady(p, st) && ValidSteps(ds) && ValidSteps(es)
    ensures ValidSteps(ds + es)
    ensures SarsaRun(p, st, ds + es) == SarsaRun(p, SarsaRun(p, st, ds), es)
    decreases |ds|
  {
    ValidStepsAppend(ds, es);
    if |ds| == 0 {
      assert ds + es == es;
    } else if !MountainCar.Terminal(st.car) {
      assert (ds + es)[0] == ds[0];
      assert (ds + es)[1..] == ds[1..] + es;
      SarsaRunAppend(p, SarsaStep(p, st, ds[0]), ds[1..], es);
    }
  }

  /** A SARSA(lambda) run with `lambda = 0` from zero traces makes the same
      moves and the same weight updates as a SARSA run on the same draws. */
  lemma {:induction false} LambdaZeroRunIsSarsaRun(p: Params, st: LambdaState, ds: seq<StepDraws>)
    requires LambdaReady(p, st) && ValidSteps(ds) && p.lambda == 0.0 && AllZero(st.zs)
    ensures LambdaRun(p, st, ds).base == SarsaRun(p, st.base, ds)
    decreases |ds|
  {
    if !(MountainCar.Terminal(st.base.car) || |ds| == 0) {
      var r := LambdaStep(p, st, ds[0]);
      LambdaStepFromZeroIsSarsaStep(p, st, ds[0]);
      LambdaTraces(p, st, ds[0]);
      if !MountainCar.Terminal(r.base.car) {
        LambdaZeroRunIsSarsaRun(p, r, ds[1..]);
      }
    }
  }

  /** The draws of one episode: the start position, the first action's
      choice (unused by Q-learning) and one record per step. */
  datatype EpisodeDraws = EpisodeDraws(u: real, first: Choice, steps: seq<StepDraws>)

  predicate ValidEpisode(e: EpisodeDraws) {
    0.0 <= e.u < 1.0 && ValidChoice(e.first) && ValidSteps(e.steps)
  }

  predicate ValidEpisodes(es: seq<EpisodeDraws>) {
    forall i :: 0 <= i < |es| ==> ValidEpisode(es[i])
  }

  /** Weights after training with Q-learning for `|es|` episodes, each from a
      fresh car. */
  function QLearning(p: Params, weights: Weights, es: seq<EpisodeDraws>): (r: Weights)
    requires TileCoding.Valid(p.cfg) && Shaped(weights, Features(p)) && ValidEpisodes(es)
    ensures Shaped(r, Features(p))
    decreases |es|
  {
    if |es| == 0 then weights
    else
      var car := MountainCar.InitialCar(es[0].u);
      var w := QLearningRun(p, QState(car, Observe(p.cfg, car), weights), es[0].steps).weights;
      QLearning(p, w, es[1..])
  }

  /** Weights after training with SARSA for `|es|` episodes. */
  function Sarsa(p: Params, weights: Weights, es: seq<EpisodeDraws>): (r: Weights)
    requires TileCoding.Valid(p.cfg) && Shaped(weights, Features(p)) && ValidEpisodes(es)
    ensures Shaped(r, Features(p))
    decreases |es|
  {
    if |es| == 0 then weights
    else
      var car := MountainCar.InitialCar(es[0].u);
      var w := SarsaRun(p, SarsaStart(p, car, weights, es[0].first), es[0].steps).weights;
      Sarsa(p, w, es[1..])
  }

  /** Weights after training with SARSA(lambda) for `|es|` episodes. */
  function SarsaLambda(p: Params, weights: Weights, es: seq<EpisodeDraws>): (r: Weights)
    requires TileCoding.Valid(p.cfg) && Shaped(weights, Features(p)) && ValidEpisodes(es)
    ensures Shaped(r, Features(p))
    decreases |es|
  {
    if |es| == 0 then weights
    else
      var car := MountainCar.InitialCar(es[0].u);
      var w := LambdaRun(p, LambdaStart(p, car, weights, es[0].first), es[0].steps).base.weights;
      SarsaLambda(p, w, es[1..])
  }

  /** SARSA(0) is SARSA: training with `lambda = 0` on the same draws ends
      with the same weights. */
  lemma {:induction false} SarsaLambdaZeroIsSarsa(p: Params, weights: Weights, es: seq<EpisodeDraws>)
    requires TileCoding.Valid(p.cfg) && Shaped(weights, Features(p)) && ValidEpisodes(es)
    requires p.lambda == 0.0
    ensures SarsaLambda(p, weights, es) == Sarsa(p, weights, es)
    decreases |es|
  {
    if |es| > 0 {
      var car := MountainCar.InitialCar(es[0].u);
      var st := LambdaStart(p, car, weights, es[0].first);
      LambdaZeroRunIsSarsaRun(p, st, es[0].steps);
      SarsaLambdaZeroIsSarsa(p, LambdaRun(p, st, es[0].steps).base.weights, es[1..]);
    }
  }
}
