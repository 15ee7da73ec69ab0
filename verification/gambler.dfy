/** The gambler's problem solved by value iteration: with capital `s` in
    `0..100` the gambler stakes `a` on a fair coin, reaching `s + a` on heads
    and `s - a` on tails, and is paid 1 whenever heads lands on 100.

    `float64` is `real`; the value table `V` is a sequence of 101 reals. */
module Gambler {
  import opened RealMath

  /** The capital the gambler plays for; the value table has `Goal + 1`
      entries. */
  const Goal: int := 100

  const HeadsP: real := 0.5
  const Discount: real := 0.9

  function IntMin(a: int, b: int): (r: int)
    ensures r <= a && r <= b
    ensures r == a || r == b
  {
    if a < b then a else b
  }

  function IntMax(a: int, b: int): (r: int)
    ensures r >= a && r >= b
    ensures r == a || r == b
  {
    if a > b then a else b
  }

  /** A value table indexed by capital. */
  predicate IsTable(v: seq<real>) {
    |v| == Goal + 1
  }

  predicate IsCapital(s: int) {
    0 <= s <= Goal
  }

  // ---------------------------------------------------------------------------
  // Stakes.

  /** `getActionRange`: the stakes run from `lower` to `upper`. */
  function ActionRange(s: int): (r: (int, int))
    ensures r.0 == 0
    ensures r.1 <= s && r.1 <= Goal - s
    ensures r.1 == s || r.1 == Goal - s
  {
    (0, IntMin(s, Goal - s))
  }

  function Upper(s: int): int {
    ActionRange(s).1
  }

  /** On a capital, the largest stake is not negative and neither outcome
      leaves `0..Goal`; only the two ends of the range leave no stake but 0. */
  lemma UpperBounds(s: int)
    requires IsCapital(s)
    ensures 0 <= Upper(s)
    ensures s + Upper(s) <= Goal && s - Upper(s) >= 0
    ensures Upper(s) == 0 <==> s == 0 || s == Goal
  {
  }

  /** The capital after heads, capped at the goal. */
  function Heads(s: int, a: int): int {
    IntMin(s + a, Goal)
  }

  /** The capital after tails, floored at zero. */
  function Tails(s: int, a: int): int {
    IntMax(s - a, 0)
  }

  /** Both successors index the value table; otherwise `getValue` panics. */
  predicate Safe(s: int, a: int) {
    0 <= Heads(s, a) <= Goal && 0 <= Tails(s, a) <= Goal
  }

  /** The successors index the table exactly when heads does not fall below
      zero and tails does not rise above the goal. */
  lemma SafeIff(s: int, a: int)
    ensures Safe(s, a) <==> s + a >= 0 && s - a <= Goal
  {
  }

  /** From any capital, every non-negative stake is safe, and a stake in
      the action range is never capped or floored. */
  lemma StakeSafe(s: int, a: int)
    requires IsCapital(s) && 0 <= a
    ensures Safe(s, a)
    ensures a <= Upper(s) ==> Heads(s, a) == s + a && Tails(s, a) == s - a
  {
  }

  /** Reward of a stake: 1 when heads reaches the goal. */
  function Reward(s: int, a: int): (r: real)
    ensures r == 1.0 <==> s + a >= Goal
    ensures r == 0.0 <==> s + a < Goal
  {
    if Heads(s, a) == Goal then 1.0 else 0.0
  }

  // ---------------------------------------------------------------------------
  // One-step value.

  /** `getValue`: the expected discounted return of staking `a` at `s`.
      A table of values in `[0, 5]` gives a value in `[0, 5]`: the most a
      stake can earn is half a unit now plus nine tenths of the best value,
      and `5 = 0.5 + 0.9 * 5`. */
  function GetValue(s: int, a: int, v: seq<real>): (r: real)
    requires IsTable(v) && Safe(s, a)
    ensures (forall i :: 0 <= i < |v| ==> v[i] >= 0.0) ==> r >= 0.0
    ensures (forall i :: 0 <= i < |v| ==> 0.0 <= v[i] <= 5.0) ==> 0.0 <= r <= 5.0
  {
    HeadsP * (Reward(s, a) + Discount * v[Heads(s, a)])
      + (1.0 - HeadsP) * Discount * v[Tails(s, a)]
  }

  /** On the all-zero table only the immediate reward counts: half a unit
      when heads reaches the goal, nothing otherwise. */
  lemma GetValueOnZeroTable(s: int, a: int, v: seq<real>)
    requires IsTable(v) && Safe(s, a)
    requires forall i :: 0 <= i < |v| ==> v[i] == 0.0
    ensures GetValue(s, a, v) == if s + a >= Goal then 0.5 else 0.0
  {
  }

  /** The value is the reward of heads plus the discounted average of the two
      successors' values. */
  lemma GetValueSplit(s: int, a: int, v: seq<real>)
    requires IsTable(v) && Safe(s, a)
    ensures GetValue(s, a, v) == 0.5 * Reward(s, a) + 0.45 * (v[Heads(s, a)] + v[Tails(s, a)])
  {
  }

  /** A pointwise larger table gives a larger value. */
  lemma GetValueMono(s: int, a: int, v: seq<real>, w: seq<real>)
    requires IsTable(v) && IsTable(w) && Safe(s, a)
    requires forall i :: 0 <= i < |v| ==> v[i] <= w[i]
    ensures GetValue(s, a, v) <= GetValue(s, a, w)
  {
    assert v[Heads(s, a)] <= w[Heads(s, a)];
    assert v[Tails(s, a)] <= w[Tails(s, a)];
  }

  /** Tables within `e` of each other give values within `Discount * e`. */
  lemma GetValueContraction(s: int, a: int, v: seq<real>, w: seq<real>, e: real)
    requires IsTable(v) && IsTable(w) && Safe(s, a)
    requires forall i :: 0 <= i < |v| ==> Abs(v[i] - w[i]) <= e
    ensures Abs(GetValue(s, a, v) - GetValue(s, a, w)) <= Discount * e
  {
    assert Abs(v[Heads(s, a)] - w[Heads(s, a)]) <= e;
    assert Abs(v[Tails(s, a)] - w[Tails(s, a)]) <= e;
  }

  // ---------------------------------------------------------------------------
  // Greedy stake.

  /** The scan of `iterValueGreedy` over stakes `0..hi` valued by `val`: a
      later stake replaces the best so far only when its value is strictly
      larger. */
  function FirstArgmax(val: int -> real, hi: nat): (best: nat)
    ensures best <= hi
  {
    if hi == 0 then 0
    else
      var b := FirstArgmax(val, hi - 1);
      if val(hi) > val(b) then hi else b
  }

  /** The scan's stake has the largest value of `0..hi`, and every earlier
      stake is strictly worse, so it is the smallest maximiser. */
  lemma {:induction false} FirstArgmaxIsFirstBest(val: int -> real, hi: nat)
    ensures forall a :: 0 <= a <= hi ==> val(a) <= val(FirstArgmax(val, hi))
    ensures forall a :: 0 <= a < FirstArgmax(val, hi) ==> val(a) < val(FirstArgmax(val, hi))
  {
    if hi > 0 {
      FirstArgmaxIsFirstBest(val, hi - 1);
    }
  }

  /** The value of each stake of the range at `s`. */
  function StakeValue(s: int, v: seq<real>): int -> real
    requires IsCapital(s) && IsTable(v)
  {
    a => if 0 <= a <= Upper(s) then GetValue(s, a, v) else 0.0
  }

  /** The stake `iterValueGreedy` picks. */
  function Choice(s: int, v: seq<real>): (a: nat)
    requires IsCapital(s) && IsTable(v)
    ensures a <= Upper(s)
  {
    FirstArgmax(StakeValue(s, v), Upper(s))
  }

  /** The value `iterValueGreedy` returns: no stake of the range does
      better, and every stake before the chosen one does strictly worse. */
  function Best(s: int, v: seq<real>): (r: real)
    requires IsCapital(s) && IsTable(v)
    ensures forall a :: 0 <= a <= Upper(s) ==> GetValue(s, a, v) <= r
    ensures forall a :: 0 <= a < Choice(s, v) ==> GetValue(s, a, v) < r
  {
    ChoiceIsFirstBest(s, v);
    GetValue(s, Choice(s, v), v)
  }

  /** The chosen stake is the smallest stake of largest value. */
  lemma ChoiceIsFirstBest(s: int, v: seq<real>)
    requires IsCapital(s) && IsTable(v)
    ensures forall a :: 0 <= a <= Upper(s) ==> GetValue(s, a, v) <= GetValue(s, Choice(s, v), v)
    ensures forall a :: 0 <= a < Choice(s, v) ==> GetValue(s, a, v) < GetValue(s, Choice(s, v), v)
  {
    var val := StakeValue(s, v);
    var c := Choice(s, v);
    FirstArgmaxIsFirstBest(val, Upper(s));
    forall a | 0 <= a <= Upper(s)
      ensures GetValue(s, a, v) <= GetValue(s, c, v)
    {
      assert val(a) <= val(c);
    }
    forall a | 0 <= a < c
      ensures GetValue(s, a, v) < GetValue(s, c, v)
    {
      assert val(a) < val(c);
    }
  }

  /** The loop of `iterValueGreedy` over stakes `0..hi` valued by `val`:
      start from stake 0 and move to a later stake only when it is strictly
      better. */
  method ArgmaxScan(val: int -> real, hi: nat) returns (maxV: real, maxA: int)
    ensures maxA == FirstArgmax(val, hi) && maxV == val(maxA)
  {
    maxA := 0;
    maxV := val(maxA);
    var a := 1;
    while a <= hi
      invariant 1 <= a <= hi + 1
      invariant maxA == FirstArgmax(val, a - 1) && maxV == val(maxA)
    {
      var x := val(a);
      if x > maxV {
        maxA := a;
        maxV := x;
      }
      a := a + 1;
    }
  }

  /** `iterValueGreedy`: the best value at `s` and the first stake that
      reaches it. */
  method IterValueGreedy(s: int, v: seq<real>) returns (maxV: real, maxA: int)
    requires IsCapital(s) && IsTable(v)
    ensures 0 <= maxA <= Upper(s)
    ensures maxV == GetValue(s, maxA, v)
    ensures forall a :: 0 <= a <= Upper(s) ==> GetValue(s, a, v) <= maxV
    ensures forall a :: 0 <= a < maxA ==> GetValue(s, a, v) < maxV
    ensures maxA == Choice(s, v) && maxV == Best(s, v)
  {
    var upperA := ActionRange(s).1;
    UpperBounds(s);
    maxV, maxA := ArgmaxScan(StakeValue(s, v), upperA);
    ChoiceIsFirstBest(s, v);
  }

  /** A pointwise larger table gives a larger best value. */
  lemma BestMono(s: int, v: seq<real>, w: seq<real>)
    requires IsCapital(s) && IsTable(v) && IsTable(w)
    requires forall i :: 0 <= i < |v| ==> v[i] <= w[i]
    ensures Best(s, v) <= Best(s, w)
  {
    ChoiceIsFirstBest(s, w);
    GetValueMono(s, Choice(s, v), v, w);
  }

  /** The best value is a contraction: tables within `e` of each other give
      best values within `Discount * e`. */
  lemma BestContraction(s: int, v: seq<real>, w: seq<real>, e: real)
    requires IsCapital(s) && IsTable(v) && IsTable(w)
    requires forall i :: 0 <= i < |v| ==> Abs(v[i] - w[i]) <= e
    ensures Abs(Best(s, v) - Best(s, w)) <= Discount * e
  {
    ChoiceIsFirstBest(s, v);
    ChoiceIsFirstBest(s, w);
    GetValueContraction(s, Choice(s, v), v, w, e);
    GetValueContraction(s, Choice(s, w), v, w, e);
  }

  /** Ruin and the goal both leave only stake 0, and the goal is not
      absorbing: it pays 1 on every heads, so its value grows by half a unit
      on top of the discounted old value. */
  lemma EndsOfRange(v: seq<real>)
    requires IsTable(v)
    ensures Choice(0, v) == 0 && Best(0, v) == Discount * v[0]
    ensures Choice(Goal, v) == 0 && Best(Goal, v) == 0.5 + Discount * v[Goal]
  {
    UpperBounds(0);
    UpperBounds(Goal);
  }

  // ---------------------------------------------------------------------------
  // One sweep of value iteration.

  /** The table the sweep reads at capital `s`: new values below `s`, old
      ones from `s` on. */
  function Seen(v0: seq<real>, v: seq<real>, s: int): (t: seq<real>)
    requires IsTable(v0) && IsTable(v) && IsCapital(s)
    ensures IsTable(t)
    ensures forall i :: 0 <= i < s ==> t[i] == v[i]
    ensures forall i :: s <= i <= Goal ==> t[i] == v0[i]
  {
    v[..s] + v0[s..]
  }

  /** A backup rule: the new value and stake of capital `s`, read from a
      table. */
  type Backup = (seq<real>, int) -> (real, int)

  /** The sweep with rule `f` has written capitals below `s`, each from the
      table as it stood then, and left the rest of `v0`. */
  ghost predicate SweptTo(f: Backup, v0: seq<real>, v: seq<real>, p: seq<int>, s: int)
    requires IsTable(v0) && IsTable(v) && 0 <= s <= Goal + 1
  {
    && |p| == s
    && (forall i :: 0 <= i < s ==> v[i] == f(Seen(v0, v, i), i).0 && p[i] == f(Seen(v0, v, i), i).1)
    && (forall i :: s <= i <= Goal ==> v[i] == v0[i])
  }

  /** Writing capital `s` leaves the tables read for capitals `0..s` as
      they were. */
  lemma SeenUpdate(v0: seq<real>, v: seq<real>, s: int, x: real, i: int)
    requires IsTable(v0) && IsTable(v) && 0 <= i <= s <= Goal
    ensures Seen(v0, v[s := x], i) == Seen(v0, v, i)
  {
    var a := Seen(v0, v[s := x], i);
    var b := Seen(v0, v, i);
    assert forall k :: 0 <= k < |a| ==> a[k] == b[k];
  }

  lemma SweptStep(f: Backup, v0: seq<real>, v: seq<real>, p: seq<int>, s: int)
    requires IsTable(v0) && IsTable(v) && 0 <= s <= Goal
    requires SweptTo(f, v0, v, p, s)
    ensures v[s] == v0[s]
    ensures SweptTo(f, v0, v[s := f(v, s).0], p + [f(v, s).1], s + 1)
  {
    var t := Seen(v0, v, s);
    assert forall k :: 0 <= k < |v| ==> v[k] == t[k];
    var v' := v[s := f(v, s).0];
    var p' := p + [f(v, s).1];
    forall i | 0 <= i < s + 1
      ensures v'[i] == f(Seen(v0, v', i), i).0 && p'[i] == f(Seen(v0, v', i), i).1
    {
      SeenUpdate(v0, v, s, f(v, s).0, i);
      if i < s {
        assert v'[i] == v[i] && p'[i] == p[i];
      } else {
        assert Seen(v0, v', i) == v;
      }
    }
  }

  /** `diff` is the largest change among capitals below `s`, or zero. */
  ghost predicate LargestChange(v0: seq<real>, v: seq<real>, diff: real, s: int)
    requires IsTable(v0) && IsTable(v) && 0 <= s <= Goal + 1
  {
    && (forall i :: 0 <= i < s ==> Abs(v[i] - v0[i]) <= diff)
    && (diff == 0.0 || exists i :: 0 <= i < s && diff == Abs(v[i] - v0[i]))
  }

  lemma LargestChangeStep(v0: seq<real>, v: seq<real>, diff: real, s: int, x: real)
    requires IsTable(v0) && IsTable(v) && 0 <= s <= Goal && v[s] == v0[s]
    requires LargestChange(v0, v, diff, s)
    ensures LargestChange(v0, v[s := x], MaxReal(diff, Abs(x - v[s])), s + 1)
  {
    var v' := v[s := x];
    var diff' := MaxReal(diff, Abs(x - v[s]));
    forall i | 0 <= i < s + 1
      ensures Abs(v'[i] - v0[i]) <= diff'
    {
      if i < s {
        assert v'[i] == v[i];
      }
    }
    if diff' != 0.0 && diff' != Abs(x - v[s]) {
      var i :| 0 <= i < s && diff == Abs(v[i] - v0[i]);
      assert v'[i] == v[i];
    }
  }

  /** Writing capital `s` keeps both loop invariants, one capital further. */
  lemma SweepStep(f: Backup, v0: seq<real>, v: seq<real>, p: seq<int>, diff: real, s: int)
    requires IsTable(v0) && IsTable(v) && 0 <= s <= Goal
    requires SweptTo(f, v0, v, p, s) && LargestChange(v0, v, diff, s)
    ensures IsTable(v[s := f(v, s).0])
    ensures SweptTo(f, v0, v[s := f(v, s).0], p + [f(v, s).1], s + 1)
    ensures LargestChange(v0, v[s := f(v, s).0], MaxReal(diff, Abs(f(v, s).0 - v[s])), s + 1)
  {
    SweptStep(f, v0, v, p, s);
    LargestChangeStep(v0, v, diff, s, f(v, s).0);
  }

  /** An in-place sweep with rule `f` over capitals `0..Goal` in order;
      `diff` is the largest change of a value. */
  method SweepWith(f: Backup, v0: seq<real>) returns (v: seq<real>, p: seq<int>, diff: real)
    requires IsTable(v0)
    ensures IsTable(v) && |p| == Goal + 1
    ensures forall s :: IsCapital(s) ==>
              v[s] == f(Seen(v0, v, s), s).0 && p[s] == f(Seen(v0, v, s), s).1
    ensures forall s :: IsCapital(s) ==> Abs(v[s] - v0[s]) <= diff
    ensures diff == 0.0 || exists s :: IsCapital(s) && diff == Abs(v[s] - v0[s])
  {
    v := v0;
    p := [];
    diff := 0.0;
    var s := 0;
    while s <= Goal
      invariant 0 <= s <= Goal + 1 && IsTable(v)
      invariant SweptTo(f, v0, v, p, s) && LargestChange(v0, v, diff, s)
    {
      var r := f(v, s);
      SweepStep(f, v0, v, p, diff, s);
      v, p, diff := v[s := r.0], p + [r.1], MaxReal(diff, Abs(r.0 - v[s]));
      s := s + 1;
    }
  }

  /** The rule of the main loop: `iterValueGreedy`'s value and stake. */
  function GreedyRule(): Backup {
    (t: seq<real>, s: int) =>
      if IsTable(t) && IsCapital(s) then (Best(s, t), Choice(s, t)) else (0.0, 0)
  }

  /** One pass of the main loop: capitals `0..Goal` in order, each
      `V[s], P[s]` set by `iterValueGreedy` on the table as it stands;
      `diff` is the largest change of a value. */
  method Sweep(v0: seq<real>) returns (v: seq<real>, p: seq<int>, diff: real)
    requires IsTable(v0)
    ensures IsTable(v) && |p| == Goal + 1
    ensures forall s :: IsCapital(s) ==>
              v[s] == Best(s, Seen(v0, v, s)) && p[s] == Choice(s, Seen(v0, v, s))
    ensures forall s :: IsCapital(s) ==> Abs(v[s] - v0[s]) <= diff
    ensures diff == 0.0 || exists s :: IsCapital(s) && diff == Abs(v[s] - v0[s])
  {
    v, p, diff := SweepWith(GreedyRule(), v0);
    forall s | IsCapital(s)
      ensures v[s] == Best(s, Seen(v0, v, s)) && p[s] == Choice(s, Seen(v0, v, s))
    {
      assert GreedyRule()(Seen(v0, v, s), s) == (Best(s, Seen(v0, v, s)), Choice(s, Seen(v0, v, s)));
    }
  }
}
