/** Jack's car rental: policy iteration over two rental locations holding at
    most 20 cars each, with at most 5 cars moved overnight.

    `float64` is `real`.  The Poisson probabilities are given tables: the
    probability of `k` rentals (or returns) is the `k`-th entry. */
module Jack {
  import opened RealMath

  /** Convergence threshold, also the Poisson tail cutoff. */
  const Theta: real := 0.0000001

  /** Margin by which a later action must beat the best one so far. */
  const Tolerance: real := 0.0000000001

  /** Bound of the rental and return loops of the table construction. */
  const Limit: nat := 1000

  /** Rows of the transition tables: morning counts 0..25. */
  const MornRows: nat := 26

  /** Columns of the transition tables and sides of the value and policy
      tables: evening counts 0..20. */
  const Side: nat := 21

  function IntMin(a: int, b: int): (r: int)
    ensures r <= a && r <= b
    ensures r == a || r == b
  {
    if a > b then b else a
  }

  function IntMax(a: int, b: int): (r: int)
    ensures r >= a && r >= b
    ensures r == a || r == b
  {
    if a < b then b else a
  }

  // ---------------------------------------------------------------------------
  // State.

  /** The solver's state.  `maxMornCars` and `maxTrans` are set by the
      program but never read. */
  datatype Jack = Jack(
    locStates: int, maxMornCars: int, maxTrans: int,
    discount: real,
    policy: seq<seq<int>>,
    v: seq<seq<real>>,
    p1: seq<seq<real>>, p2: seq<seq<real>>,
    r1: seq<real>, r2: seq<real>)

  predicate Grid<T>(t: seq<seq<T>>, rows: nat, cols: nat) {
    |t| == rows && forall i :: 0 <= i < rows ==> |t[i]| == cols
  }

  /** The fixed array sizes of the Go struct, and at most 21 states per
      location so that every loop over `locStates` stays inside them. */
  predicate Shaped(j: Jack) {
    && j.locStates <= Side
    && Grid(j.policy, Side, Side)
    && Grid(j.v, Side, Side)
    && Grid(j.p1, MornRows, Side) && Grid(j.p2, MornRows, Side)
    && |j.r1| == MornRows && |j.r2| == MornRows
  }

  // ---------------------------------------------------------------------------
  // Actions.

  /** The fewest cars that can be moved from the first location to the
      second (negative: moved the other way). */
  function MinAction(m: int): int {
    IntMax(-5, -m)
  }

  function MaxAction(n: int): int {
    IntMin(5, n)
  }

  /** The two clamps `getValue` applies to its action. */
  function ClampAction(n: int, m: int, a: int): (r: int)
    ensures -5 <= r <= 5
    ensures MinAction(m) <= MaxAction(n) ==> MinAction(m) <= r <= MaxAction(n)
  {
    var a := IntMax(IntMin(a, n), -m);
    IntMax(IntMin(a, 5), -5)
  }

  /** The clamp fixes exactly the actions of the range. */
  lemma ClampFixesRange(n: int, m: int, a: int)
    requires MinAction(m) <= MaxAction(n)
    ensures ClampAction(n, m, a) == a <==> MinAction(m) <= a <= MaxAction(n)
  {
  }

  lemma ClampIdempotent(n: int, m: int, a: int)
    requires MinAction(m) <= MaxAction(n)
    ensures ClampAction(n, m, ClampAction(n, m, a)) == ClampAction(n, m, a)
  {
    ClampFixesRange(n, m, ClampAction(n, m, a));
  }

  /** The morning counts after moving the clamped action index rows 0..25
      of the transition tables. */
  predicate Safe(n: int, m: int, a: int) {
    var c := ClampAction(n, m, a);
    0 <= n - c < MornRows && 0 <= m + c < MornRows
  }

  /** Every action is safe at an evening state of the grid. */
  lemma SafeOnGrid(n: int, m: int, a: int)
    requires 0 <= n < Side && 0 <= m < Side
    ensures Safe(n, m, a)
  {
  }

  // ---------------------------------------------------------------------------
  // Expected value of an action.

  /** Cost of moving `a` cars: 2 per car, either way. */
  function Penalty(a: int): (r: real)
    ensures r <= 0.0
  {
    -2.0 * Abs(a as real)
  }

  /** Term of the expected return for a move ending at `(x, y)` from the
      morning counts `(mN, mM)`. */
  function Term(j: Jack, mN: nat, mM: nat, x: nat, y: nat): real
    requires Shaped(j) && mN < MornRows && mM < MornRows && x < Side && y < Side
  {
    j.p1[mN][x] * j.p2[mM][y] * (j.r1[mN] + j.r2[mM] + j.discount * j.v[x][y])
  }

  /** Sum of `Term` over `y < k`. */
  function RowSum(j: Jack, mN: nat, mM: nat, x: nat, k: int): real
    requires Shaped(j) && mN < MornRows && mM < MornRows && x < Side && k <= Side
    decreases k
  {
    if k <= 0 then 0.0 else RowSum(j, mN, mM, x, k - 1) + Term(j, mN, mM, x, k - 1)
  }

  /** Sum of `Term` over `x < k` and `y < locStates`. */
  function Expected(j: Jack, mN: nat, mM: nat, k: int): real
    requires Shaped(j) && mN < MornRows && mM < MornRows && k <= Side
    decreases k
  {
    if k <= 0 then 0.0 else Expected(j, mN, mM, k - 1) + RowSum(j, mN, mM, k - 1, j.locStates)
  }

  /** `getValue`: the transfer penalty of the clamped action plus the
      probability-weighted reward and discounted value of every evening
      state `(x, y)` with `x, y < locStates`. */
  function GetValue(j: Jack, n: int, m: int, a: int): (r: real)
    requires Shaped(j) && Safe(n, m, a)
    ensures r <= Expected(j, n - ClampAction(n, m, a), m + ClampAction(n, m, a), j.locStates)
    ensures j.locStates <= 0 ==> r == Penalty(ClampAction(n, m, a))
  {
    var c := ClampAction(n, m, a);
    Penalty(c) + Expected(j, n - c, m + c, j.locStates)
  }

  /** Only the clamped action matters. */
  lemma GetValueClamped(j: Jack, n: int, m: int, a: int)
    requires Shaped(j) && Safe(n, m, a) && MinAction(m) <= MaxAction(n)
    ensures Safe(n, m, ClampAction(n, m, a))
    ensures GetValue(j, n, m, ClampAction(n, m, a)) == GetValue(j, n, m, a)
  {
    ClampIdempotent(n, m, a);
  }

  /** `v` and `w` agree on the states `x, y < k`. */
  predicate AgreeBelow(v: seq<seq<real>>, w: seq<seq<real>>, k: int) {
    && Grid(v, Side, Side) && Grid(w, Side, Side)
    && forall x, y :: 0 <= x < k && 0 <= y < k && x < Side && y < Side ==> v[x][y] == w[x][y]
  }

  /** `v` is nowhere above `w` on the states `x, y < k`. */
  predicate BelowOn(v: seq<seq<real>>, w: seq<seq<real>>, k: int) {
    && Grid(v, Side, Side) && Grid(w, Side, Side)
    && forall x, y :: 0 <= x < k && 0 <= y < k && x < Side && y < Side ==> v[x][y] <= w[x][y]
  }

  lemma {:induction false} RowSumFrame(j: Jack, w: seq<seq<real>>, mN: nat, mM: nat, x: nat, k: int)
    requires Shaped(j) && mN < MornRows && mM < MornRows && x < Side && k <= Side
    requires Grid(w, Side, Side)
    requires forall y :: 0 <= y < k ==> w[x][y] == j.v[x][y]
    ensures Shaped(j.(v := w))
    ensures RowSum(j.(v := w), mN, mM, x, k) == RowSum(j, mN, mM, x, k)
    decreases k
  {
    if k > 0 {
      RowSumFrame(j, w, mN, mM, x, k - 1);
    }
  }

  lemma {:induction false} ExpectedFrame(j: Jack, w: seq<seq<real>>, mN: nat, mM: nat, k: int)
    requires Shaped(j) && mN < MornRows && mM < MornRows && k <= Side
    requires AgreeBelow(w, j.v, j.locStates) && k <= j.locStates
    ensures Shaped(j.(v := w))
    ensures Expected(j.(v := w), mN, mM, k) == Expected(j, mN, mM, k)
    decreases k
  {
    if k > 0 {
      ExpectedFrame(j, w, mN, mM, k - 1);
      RowSumFrame(j, w, mN, mM, k - 1, j.locStates);
    }
  }

  /** `getValue` reads the value table only at the states `x, y <
      locStates`. */
  lemma GetValueFrame(j: Jack, w: seq<seq<real>>, n: int, m: int, a: int)
    requires Shaped(j) && Safe(n, m, a) && AgreeBelow(w, j.v, j.locStates)
    ensures Shaped(j.(v := w))
    ensures GetValue(j.(v := w), n, m, a) == GetValue(j, n, m, a)
  {
    var c := ClampAction(n, m, a);
    if j.locStates > 0 {
      ExpectedFrame(j, w, n - c, m + c, j.locStates);
    }
  }

  /** Probabilities are non-negative. */
  predicate Stochastic(j: Jack) {
    && Grid(j.p1, MornRows, Side) && Grid(j.p2, MornRows, Side)
    && (forall i, k :: 0 <= i < MornRows && 0 <= k < Side ==> j.p1[i][k] >= 0.0)
    && (forall i, k :: 0 <= i < MornRows && 0 <= k < Side ==> j.p2[i][k] >= 0.0)
  }

  lemma TermMono(p: real, q: real, r: real, g: real, v: real, w: real)
    requires p >= 0.0 && q >= 0.0 && g >= 0.0 && v <= w
    ensures p * q * (r + g * v) <= p * q * (r + g * w)
  {
    MulNonNeg(p, q);
    MulLeftMono(g, v, w);
    MulLeftMono(p * q, r + g * v, r + g * w);
  }

  lemma {:induction false} RowSumMono(j: Jack, w: seq<seq<real>>, mN: nat, mM: nat, x: nat, k: int)
    requires Shaped(j) && Stochastic(j) && j.discount >= 0.0
    requires mN < MornRows && mM < MornRows && x < Side && k <= Side
    requires Grid(w, Side, Side)
    requires forall y :: 0 <= y < k ==> j.v[x][y] <= w[x][y]
    ensures Shaped(j.(v := w))
    ensures RowSum(j, mN, mM, x, k) <= RowSum(j.(v := w), mN, mM, x, k)
    decreases k
  {
    if k > 0 {
      RowSumMono(j, w, mN, mM, x, k - 1);
      var y := k - 1;
      var j' := j.(v := w);
      TermMono(j.p1[mN][x], j.p2[mM][y], j.r1[mN] + j.r2[mM], j.discount, j.v[x][y], w[x][y]);
      assert Term(j, mN, mM, x, y) <= Term(j', mN, mM, x, y);
    }
  }

  lemma {:induction false} ExpectedMono(j: Jack, w: seq<seq<real>>, mN: nat, mM: nat, k: int)
    requires Shaped(j) && Stochastic(j) && j.discount >= 0.0
    requires mN < MornRows && mM < MornRows && k <= j.locStates
    requires BelowOn(j.v, w, j.locStates)
    ensures Shaped(j.(v := w))
    ensures Expected(j, mN, mM, k) <= Expected(j.(v := w), mN, mM, k)
    decreases k
  {
    if k > 0 {
      ExpectedMono(j, w, mN, mM, k - 1);
      RowSumMono(j, w, mN, mM, k - 1, j.locStates);
    }
  }

  /** With non-negative probabilities and discount, raising the value table
      never lowers the value of an action. */
  lemma GetValueMono(j: Jack, w: seq<seq<real>>, n: int, m: int, a: int)
    requires Shaped(j) && Stochastic(j) && j.discount >= 0.0 && Safe(n, m, a)
    requires BelowOn(j.v, w, j.locStates)
    ensures Shaped(j.(v := w))
    ensures GetValue(j, n, m, a) <= GetValue(j.(v := w), n, m, a)
  {
    var c := ClampAction(n, m, a);
    if j.locStates > 0 {
      ExpectedMono(j, w, n - c, m + c, j.locStates);
    }
  }

  // ---------------------------------------------------------------------------
  // Greedy improvement.

  /** `findPolicyGreedy` evaluates every action of its range. */
  predicate ScanSafe(n: int, m: int) {
    && Safe(n, m, MinAction(m))
    && forall a :: MinAction(m) < a <= MaxAction(n) ==> Safe(n, m, a)
  }

  /** Last action the scan reaches. */
  function ScanEnd(n: int, m: int): int {
    IntMax(MinAction(m), MaxAction(n))
  }

  /** The scan of `findPolicyGreedy` over actions `lo..hi` valued by `val`:
      a later action replaces the best so far only when its value is larger
      by more than `Tolerance`. */
  function ScanBy(val: int -> real, lo: int, hi: int): (best: int)
    requires lo <= hi
    ensures lo <= best <= hi
    decreases hi - lo
  {
    if hi == lo then lo
    else
      var b := ScanBy(val, lo, hi - 1);
      if val(hi) > val(b) + Tolerance then hi else b
  }

  /** No action up to `hi` beats the scan's choice by more than `Tolerance`,
      and the choice is `lo` unless it beats `lo` by more than `Tolerance`. */
  lemma {:induction false} ScanByIsBest(val: int -> real, lo: int, hi: int)
    requires lo <= hi
    ensures forall a :: lo <= a <= hi ==> val(a) <= val(ScanBy(val, lo, hi)) + Tolerance
    ensures ScanBy(val, lo, hi) == lo || val(ScanBy(val, lo, hi)) > val(lo) + Tolerance
    decreases hi - lo
  {
    if hi > lo {
      ScanByIsBest(val, lo, hi - 1);
    }
  }

  /** The value `findPolicyGreedy` compares for action `a` at `(n, m)`. */
  function ActionValue(j: Jack, n: int, m: int): int -> real
    requires Shaped(j) && ScanSafe(n, m)
  {
    a => if MinAction(m) <= a <= ScanEnd(n, m) then GetValue(j, n, m, a) else 0.0
  }

  /** `findPolicyGreedy`: the first action of `[MinAction(m), MaxAction(n)]`
      that no later action beats by more than `Tolerance`. */
  function FindPolicyGreedy(j: Jack, n: int, m: int): (best: int)
    requires Shaped(j) && ScanSafe(n, m)
    ensures MinAction(m) <= best <= ScanEnd(n, m)
    ensures MinAction(m) <= MaxAction(n) ==> best <= MaxAction(n)
  {
    ScanBy(ActionValue(j, n, m), MinAction(m), ScanEnd(n, m))
  }

  /** The greedy choice is within `Tolerance` of every action's value, and
      it is the first action unless it beats that one by more than
      `Tolerance`. */
  lemma FindPolicyGreedyIsBest(j: Jack, n: int, m: int)
    requires Shaped(j) && ScanSafe(n, m)
    ensures forall a :: MinAction(m) <= a <= MaxAction(n) ==>
              GetValue(j, n, m, a) <= GetValue(j, n, m, FindPolicyGreedy(j, n, m)) + Tolerance
    ensures FindPolicyGreedy(j, n, m) == MinAction(m) ||
            GetValue(j, n, m, FindPolicyGreedy(j, n, m)) > GetValue(j, n, m, MinAction(m)) + Tolerance
  {
    var val := ActionValue(j, n, m);
    var best := FindPolicyGreedy(j, n, m);
    ScanByIsBest(val, MinAction(m), ScanEnd(n, m));
    assert val(best) == GetValue(j, n, m, best);
    assert val(MinAction(m)) == GetValue(j, n, m, MinAction(m));
    forall a | MinAction(m) <= a <= MaxAction(n)
      ensures GetValue(j, n, m, a) <= GetValue(j, n, m, best) + Tolerance
    {
      assert val(a) <= val(best) + Tolerance;
    }
  }

  lemma ScanSafeOnGrid(n: int, m: int)
    requires 0 <= n < Side && 0 <= m < Side
    ensures ScanSafe(n, m)
  {
  }

  /** The policy entry `ImprovePolicy` writes at `(n, m)`. */
  function Improved(j: Jack, n: int, m: int): int
    requires Shaped(j) && 0 <= n < Side && 0 <= m < Side
  {
    ScanSafeOnGrid(n, m);
    FindPolicyGreedy(j, n, m)
  }

  /** `(x, y)` lies in the `k` by `k` corner the sweeps visit. */
  predicate InBox(k: int, x: int, y: int) {
    0 <= x < k && 0 <= y < k
  }

  /** `(x, y)` is one of the states the sweeps visit. */
  predicate InRange(j: Jack, x: int, y: int) {
    InBox(j.locStates, x, y)
  }

  /** `(x, y)` comes before `(n, m)` in the row-major order of the sweeps. */
  predicate Before(x: int, y: int, n: int, m: int) {
    x < n || (x == n && y < m)
  }

  // Sweeps that overwrite the visited cells with given values.

  /** `p` holds `g` at the visited cells before `(n, m)` and `p0` at every
      other cell. */
  ghost predicate Overwriting(p0: seq<seq<int>>, g: seq<seq<int>>, k: int, p: seq<seq<int>>, n: int, m: int) {
    && Grid(p0, Side, Side) && Grid(g, Side, Side) && Grid(p, Side, Side)
    && forall x, y :: 0 <= x < Side && 0 <= y < Side ==>
         p[x][y] == if InBox(k, x, y) && Before(x, y, n, m) then g[x][y] else p0[x][y]
  }

  /** Some visited cell before `(n, m)` differs between `p0` and `g`. */
  ghost predicate ChangedIn(p0: seq<seq<int>>, g: seq<seq<int>>, k: int, n: int, m: int)
    requires Grid(p0, Side, Side) && Grid(g, Side, Side) && k <= Side
  {
    exists x, y :: InBox(k, x, y) && Before(x, y, n, m) && p0[x][y] != g[x][y]
  }

  lemma OverwriteStep(p0: seq<seq<int>>, g: seq<seq<int>>, k: int, p: seq<seq<int>>, n: int, m: int)
    requires k <= Side && InBox(k, n, m) && Overwriting(p0, g, k, p, n, m)
    ensures p[n][m] == p0[n][m]
    ensures Overwriting(p0, g, k, p[n := p[n][m := g[n][m]]], n, m + 1)
    ensures ChangedIn(p0, g, k, n, m + 1) <==> ChangedIn(p0, g, k, n, m) || p0[n][m] != g[n][m]
  {
    if ChangedIn(p0, g, k, n, m + 1) {
      var x, y :| InBox(k, x, y) && Before(x, y, n, m + 1) && p0[x][y] != g[x][y];
      if x != n || y != m {
        assert Before(x, y, n, m);
      }
    }
    if ChangedIn(p0, g, k, n, m) {
      var x, y :| InBox(k, x, y) && Before(x, y, n, m) && p0[x][y] != g[x][y];
      assert Before(x, y, n, m + 1);
    }
  }

  lemma OverwriteRowEnd(p0: seq<seq<int>>, g: seq<seq<int>>, k: int, p: seq<seq<int>>, n: int)
    requires k <= Side && Overwriting(p0, g, k, p, n, k)
    ensures Overwriting(p0, g, k, p, n + 1, 0)
    ensures ChangedIn(p0, g, k, n, k) <==> ChangedIn(p0, g, k, n + 1, 0)
  {
    if ChangedIn(p0, g, k, n + 1, 0) {
      var x, y :| InBox(k, x, y) && Before(x, y, n + 1, 0) && p0[x][y] != g[x][y];
      assert Before(x, y, n, k);
    }
  }

  /** The greedy action of every state of the grid. */
  ghost function GreedyTable(j: Jack): (g: seq<seq<int>>)
    requires Shaped(j)
    ensures Grid(g, Side, Side)
    ensures forall x, y :: 0 <= x < Side && 0 <= y < Side ==> g[x][y] == Improved(j, x, y)
  {
    seq(Side, x requires 0 <= x < Side => seq(Side, y requires 0 <= y < Side => Improved(j, x, y)))
  }

  /** `ImprovePolicy`: every visited entry becomes the greedy action, every
      other entry is kept, and `changed` says whether any visited entry
      differs from its greedy action. */
  method ImprovePolicy(j: Jack) returns (policy: seq<seq<int>>, changed: bool)
    requires Shaped(j)
    ensures Grid(policy, Side, Side)
    ensures forall x, y :: InRange(j, x, y) ==> policy[x][y] == Improved(j, x, y)
    ensures forall x, y :: 0 <= x < Side && 0 <= y < Side && !InRange(j, x, y) ==>
              policy[x][y] == j.policy[x][y]
    ensures changed <==> exists x, y :: InRange(j, x, y) && j.policy[x][y] != Improved(j, x, y)
  {
    ghost var g := GreedyTable(j);
    var k := j.locStates;
    policy := j.policy;
    changed := false;
    var n := 0;
    while n < k
      invariant 0 <= n <= IntMax(k, 0)
      invariant Overwriting(j.policy, g, k, policy, n, 0)
      invariant changed <==> ChangedIn(j.policy, g, k, n, 0)
    {
      var m := 0;
      while m < k
        invariant 0 <= m <= k
        invariant Overwriting(j.policy, g, k, policy, n, m)
        invariant changed <==> ChangedIn(j.policy, g, k, n, m)
      {
        OverwriteStep(j.policy, g, k, policy, n, m);
        var a := Improved(j, n, m);
        if policy[n][m] != a {
          changed := true;
        }
        policy := policy[n := policy[n][m := a]];
        m := m + 1;
      }
      OverwriteRowEnd(j.policy, g, k, policy, n);
      n := n + 1;
    }
    if changed {
      ghost var x, y :| InBox(k, x, y) && Before(x, y, n, 0) && j.policy[x][y] != g[x][y];
      assert InRange(j, x, y) && j.policy[x][y] != Improved(j, x, y);
    }
  }

  // ---------------------------------------------------------------------------
  // Policy evaluation.

  /** The table the sweep reads at `(n, m)`: new values before `(n, m)`, old
      values from `(n, m)` on. */
  function Mix(v0: seq<seq<real>>, v1: seq<seq<real>>, n: int, m: int): (r: seq<seq<real>>)
    requires Grid(v0, Side, Side) && Grid(v1, Side, Side)
    ensures Grid(r, Side, Side)
    ensures forall x, y :: 0 <= x < Side && 0 <= y < Side ==>
              r[x][y] == if Before(x, y, n, m) then v1[x][y] else v0[x][y]
  {
    seq(Side, x requires 0 <= x < Side =>
      seq(Side, y requires 0 <= y < Side => if Before(x, y, n, m) then v1[x][y] else v0[x][y]))
  }

  lemma GridEq(a: seq<seq<real>>, b: seq<seq<real>>)
    requires Grid(a, Side, Side) && Grid(b, Side, Side)
    requires forall x, y :: 0 <= x < Side && 0 <= y < Side ==> a[x][y] == b[x][y]
    ensures a == b
  {
    forall x | 0 <= x < Side
      ensures a[x] == b[x]
    {
      assert forall y :: 0 <= y < Side ==> a[x][y] == b[x][y];
    }
  }

  /** Mixing depends only on the new values before `(n, m)`. */
  lemma MixAgrees(v0: seq<seq<real>>, v1: seq<seq<real>>, v2: seq<seq<real>>, n: int, m: int)
    requires Grid(v0, Side, Side) && Grid(v1, Side, Side) && Grid(v2, Side, Side)
    requires forall x, y :: 0 <= x < Side && 0 <= y < Side && Before(x, y, n, m) ==> v1[x][y] == v2[x][y]
    ensures Mix(v0, v1, n, m) == Mix(v0, v2, n, m)
  {
    GridEq(Mix(v0, v1, n, m), Mix(v0, v2, n, m));
  }

  /** A table that still holds the old values from `(n, m)` on is its own
      mix. */
  lemma MixSelf(v0: seq<seq<real>>, v: seq<seq<real>>, n: int, m: int)
    requires Grid(v0, Side, Side) && Grid(v, Side, Side)
    requires forall x, y :: 0 <= x < Side && 0 <= y < Side && !Before(x, y, n, m) ==> v[x][y] == v0[x][y]
    ensures Mix(v0, v, n, m) == v
  {
    GridEq(Mix(v0, v, n, m), v);
  }

  /** Writing `(n, m)` leaves unchanged the table any cell up to `(n, m)`
      was computed from. */
  lemma MixUpdate(v0: seq<seq<real>>, v: seq<seq<real>>, n: int, m: int, val: real, x: int, y: int)
    requires Grid(v0, Side, Side) && Grid(v, Side, Side) && 0 <= n < Side && 0 <= m < Side
    requires !Before(n, m, x, y)
    ensures Grid(v[n := v[n][m := val]], Side, Side)
    ensures Mix(v0, v[n := v[n][m := val]], x, y) == Mix(v0, v, x, y)
  {
    var v' := v[n := v[n][m := val]];
    forall a, b | 0 <= a < Side && 0 <= b < Side && Before(a, b, x, y)
      ensures v'[a][b] == v[a][b]
    {
      assert a != n || b != m;
    }
    MixAgrees(v0, v', v, x, y);
  }

  /** A backup rule: the new value of `(x, y)` computed from a table. */
  type Backup = (seq<seq<real>>, int, int) -> real

  /** The cells of an in-place sweep with rule `f` on reaching `(n, m)`:
      every visited cell before `(n, m)` holds `f` of the table as it stood
      when the sweep reached it, every other cell its old value. */
  ghost predicate Swept(f: Backup, v0: seq<seq<real>>, k: int, v: seq<seq<real>>, n: int, m: int) {
    && k <= Side && Grid(v0, Side, Side) && Grid(v, Side, Side)
    && (forall x, y :: InBox(k, x, y) && Before(x, y, n, m) ==> v[x][y] == f(Mix(v0, v, x, y), x, y))
    && (forall x, y :: 0 <= x < Side && 0 <= y < Side && !(InBox(k, x, y) && Before(x, y, n, m)) ==>
          v[x][y] == v0[x][y])
  }

  /** `diff` is the largest change among the visited cells before `(n, m)`,
      or zero. */
  ghost predicate LargestChange(v0: seq<seq<real>>, k: int, v: seq<seq<real>>, diff: real, n: int, m: int)
    requires k <= Side && Grid(v0, Side, Side) && Grid(v, Side, Side)
  {
    && (forall x, y :: InBox(k, x, y) && Before(x, y, n, m) ==> Abs(v[x][y] - v0[x][y]) <= diff)
    && (diff == 0.0 || exists x, y :: InBox(k, x, y) && Before(x, y, n, m) && diff == Abs(v[x][y] - v0[x][y]))
  }

  lemma SweptStep(f: Backup, v0: seq<seq<real>>, k: int, v: seq<seq<real>>, n: int, m: int)
    requires InBox(k, n, m) && Swept(f, v0, k, v, n, m)
    ensures v[n][m] == v0[n][m]
    ensures Swept(f, v0, k, v[n := v[n][m := f(v, n, m)]], n, m + 1)
  {
    var val := f(v, n, m);
    var v' := v[n := v[n][m := val]];
    forall x, y | InBox(k, x, y) && Before(x, y, n, m + 1)
      ensures v'[x][y] == f(Mix(v0, v', x, y), x, y)
    {
      MixUpdate(v0, v, n, m, val, x, y);
      if x == n && y == m {
        MixSelf(v0, v, n, m);
      } else {
        assert Before(x, y, n, m);
      }
    }
  }

  lemma LargestChangeStep(v0: seq<seq<real>>, k: int, v: seq<seq<real>>, diff: real, n: int, m: int, val: real)
    requires k <= Side && Grid(v0, Side, Side) && Grid(v, Side, Side) && InBox(k, n, m)
    requires v[n][m] == v0[n][m]
    requires LargestChange(v0, k, v, diff, n, m)
    ensures LargestChange(v0, k, v[n := v[n][m := val]], MaxReal(diff, Abs(val - v[n][m])), n, m + 1)
  {
    var v' := v[n := v[n][m := val]];
    var diff' := MaxReal(diff, Abs(val - v[n][m]));
    forall x, y | InBox(k, x, y) && Before(x, y, n, m + 1)
      ensures Abs(v'[x][y] - v0[x][y]) <= diff'
    {
      if x != n || y != m {
        assert Before(x, y, n, m) && v'[x][y] == v[x][y];
      }
    }
    if diff' != 0.0 && diff' != Abs(val - v[n][m]) {
      var x, y :| InBox(k, x, y) && Before(x, y, n, m) && diff == Abs(v[x][y] - v0[x][y]);
      assert Before(x, y, n, m + 1) && v'[x][y] == v[x][y];
    }
  }

  lemma SweepRowEnd(f: Backup, v0: seq<seq<real>>, k: int, v: seq<seq<real>>, diff: real, n: int)
    requires Swept(f, v0, k, v, n, k) && LargestChange(v0, k, v, diff, n, k)
    ensures Swept(f, v0, k, v, n + 1, 0) && LargestChange(v0, k, v, diff, n + 1, 0)
  {
    if diff != 0.0 {
      var x, y :| InBox(k, x, y) && Before(x, y, n, k) && diff == Abs(v[x][y] - v0[x][y]);
      assert Before(x, y, n + 1, 0);
    }
  }

  /** The value the sweep writes at `(x, y)` when it reads `table`. */
  function Backed(j: Jack, table: seq<seq<real>>, x: int, y: int): real
    requires Shaped(j) && Grid(table, Side, Side) && 0 <= x < Side && 0 <= y < Side
  {
    SafeOnGrid(x, y, j.policy[x][y]);
    GetValue(j.(v := table), x, y, j.policy[x][y])
  }

  /** `Backed` as a rule for any table and state (zero outside the grid). */
  function EvalRule(j: Jack): Backup {
    (t: seq<seq<real>>, x: int, y: int) =>
      if Shaped(j) && Grid(t, Side, Side) && 0 <= x < Side && 0 <= y < Side then Backed(j, t, x, y) else 0.0
  }

  /** An in-place, row-major sweep of the `k` by `k` corner of `v0` with
      rule `f`: each visited cell becomes `f` of the table as it stands when
      the sweep reaches it; `diff` is the largest change. */
  method SweepWith(f: Backup, v0: seq<seq<real>>, k: int) returns (v: seq<seq<real>>, diff: real)
    requires k <= Side && Grid(v0, Side, Side)
    ensures Grid(v, Side, Side)
    ensures forall x, y :: InBox(k, x, y) ==> v[x][y] == f(Mix(v0, v, x, y), x, y)
    ensures forall x, y :: 0 <= x < Side && 0 <= y < Side && !InBox(k, x, y) ==> v[x][y] == v0[x][y]
    ensures forall x, y :: InBox(k, x, y) ==> Abs(v[x][y] - v0[x][y]) <= diff
    ensures diff == 0.0 || exists x, y :: InBox(k, x, y) && diff == Abs(v[x][y] - v0[x][y])
  {
    v := v0;
    diff := 0.0;
    var n := 0;
    while n < k
      invariant 0 <= n <= IntMax(k, 0)
      invariant Swept(f, v0, k, v, n, 0) && LargestChange(v0, k, v, diff, n, 0)
    {
      var m := 0;
      while m < k
        invariant 0 <= m <= k
        invariant Swept(f, v0, k, v, n, m) && LargestChange(v0, k, v, diff, n, m)
      {
        var val := f(v, n, m);
        SweptStep(f, v0, k, v, n, m);
        LargestChangeStep(v0, k, v, diff, n, m, val);
        diff := MaxReal(diff, Abs(val - v[n][m]));
        v := v[n := v[n][m := val]];
        m := m + 1;
      }
      SweepRowEnd(f, v0, k, v, diff, n);
      n := n + 1;
    }
    assert forall x, y :: InBox(k, x, y) ==> Before(x, y, n, 0);
  }

  /** One sweep of `EvalPolicy`, in place and in row-major order: each
      visited `V[x][y]` becomes the policy's value computed on the table as
      it stands, with the earlier cells already new; `diff` is the largest
      change. */
  method EvalSweep(j: Jack) returns (v: seq<seq<real>>, diff: real)
    requires Shaped(j)
    ensures Grid(v, Side, Side)
    ensures forall x, y :: InRange(j, x, y) ==> v[x][y] == Backed(j, Mix(j.v, v, x, y), x, y)
    ensures forall x, y :: 0 <= x < Side && 0 <= y < Side && !InRange(j, x, y) ==> v[x][y] == j.v[x][y]
    ensures forall x, y :: InRange(j, x, y) ==> Abs(v[x][y] - j.v[x][y]) <= diff
    ensures diff == 0.0 || exists x, y :: InRange(j, x, y) && diff == Abs(v[x][y] - j.v[x][y])
  {
    v, diff := SweepWith(EvalRule(j), j.v, j.locStates);
    forall x, y | InRange(j, x, y)
      ensures v[x][y] == Backed(j, Mix(j.v, v, x, y), x, y)
    {
      assert v[x][y] == EvalRule(j)(Mix(j.v, v, x, y), x, y);
    }
  }

  // ---------------------------------------------------------------------------
  // Transition and reward tables.

  /** Index of the first probability at or below `Theta` from `i` on, or the
      table's length: where the Poisson loops `break`. */
  function CutoffFrom(ps: seq<real>, i: nat): (c: nat)
    requires i <= |ps|
    ensures i <= c <= |ps|
    ensures forall k :: i <= k < c ==> ps[k] > Theta
    ensures c < |ps| ==> ps[c] <= Theta
    decreases |ps| - i
  {
    if i == |ps| then i
    else if ps[i] <= Theta then i
    else CutoffFrom(ps, i + 1)
  }

  function Cutoff(ps: seq<real>): (c: nat)
    ensures c <= |ps|
    ensures forall k :: 0 <= k < c ==> ps[k] > Theta
    ensures c < |ps| ==> ps[c] <= Theta
  {
    CutoffFrom(ps, 0)
  }

  /** Rentals that can actually be served from `n` cars. */
  function Fulfilled(rent: nat, n: int): (f: int)
    ensures f <= n && f <= rent
    ensures n >= 0 ==> 0 <= f
  {
    IntMin(rent, n)
  }

  /** Cars in the evening after `rent` requests and `ret` returns on `n`
      morning cars, capped to the 0..20 a location can hold. */
  function Dest(n: int, rent: nat, ret: nat): (d: int)
    ensures 0 <= d < Side
    ensures 0 <= n + ret - Fulfilled(rent, n) < Side ==> d == n + ret - Fulfilled(rent, n)
  {
    IntMin(IntMax(n + ret - Fulfilled(rent, n), 0), 20)
  }

  /** `row[d] += x`.  The destination is always a column of a 21-column row
      (`Dest`), so the guard only matters for rows of another width. */
  function Bump(row: seq<real>, d: nat, x: real): (r: seq<real>)
    ensures |r| == |row|
  {
    if d < |row| then row[d := row[d] + x] else row
  }

  /** The innermost loop for one (rental, return) pair: every morning count
      `n` adds `x` to its capped destination.  The rows are independent, so
      the loop is the row-wise map below. */
  function Pass(t: seq<seq<real>>, rent: nat, ret: nat, x: real): (r: seq<seq<real>>)
    ensures |r| == |t|
    ensures forall n :: 0 <= n < |t| ==> r[n] == Bump(t[n], Dest(n, rent, ret), x)
  {
    seq(|t|, n requires 0 <= n < |t| => Bump(t[n], Dest(n, rent, ret), x))
  }

  /** `rentProb * retProb`: the chance of one (rental, return) pair. */
  function Joint(rentProb: real, retProb: real): real {
    rentProb * retProb
  }

  /** The return loop for one rental count, over returns `ret < k`. */
  function Returns(t: seq<seq<real>>, rent: nat, rentProb: real, retP: seq<real>, k: nat): (r: seq<seq<real>>)
    requires k <= |retP|
    ensures |r| == |t|
    decreases k
  {
    if k == 0 then t
    else Pass(Returns(t, rent, rentProb, retP, k - 1), rent, k - 1, Joint(rentProb, retP[k - 1]))
  }

  /** The rental loop's effect on the transition table, over `rent < k`; the
      return loop stops at the same cutoff for every rental count. */
  function Rentals(t: seq<seq<real>>, rentP: seq<real>, retP: seq<real>, k: nat): (r: seq<seq<real>>)
    requires k <= |rentP|
    ensures |r| == |t|
    decreases k
  {
    if k == 0 then t
    else Returns(Rentals(t, rentP, retP, k - 1), k - 1, rentP[k - 1], retP, Cutoff(retP))
  }

  /** `10 * p * f`: the expected income of `f` served rentals at
      probability `p`. */
  function Earned(p: real, f: int): real {
    10.0 * p * f as real
  }

  /** The reward loop for one rental count: every morning count `n` earns
      the income of the rentals it can serve. */
  function AddRewards(rews: seq<real>, rent: nat, rentProb: real): (r: seq<real>)
    ensures |r| == |rews|
    ensures forall n :: 0 <= n < |rews| ==> r[n] == rews[n] + Earned(rentProb, Fulfilled(rent, n))
  {
    seq(|rews|, n requires 0 <= n < |rews| => rews[n] + Earned(rentProb, Fulfilled(rent, n)))
  }

  /** The rental loop's effect on the reward table, over `rent < k`. */
  function Rewards(rews: seq<real>, rentP: seq<real>, k: nat): (r: seq<real>)
    requires k <= |rentP|
    ensures |r| == |rews|
    decreases k
  {
    if k == 0 then rews
    else AddRewards(Rewards(rews, rentP, k - 1), k - 1, rentP[k - 1])
  }

  datatype Tables = Tables(probs: seq<seq<real>>, rews: seq<real>)

  /** `computeProbs`: add the transition probabilities and expected rewards
      of one location to `probs` and `rews`, for every rental count before
      the rental cutoff and every return count before the return cutoff.
      The two arrays are written by separate inner loops, so they are
      computed by separate folds. */
  function ComputeProbs(probs: seq<seq<real>>, rews: seq<real>, rentP: seq<real>, retP: seq<real>): (r: Tables)
    requires Grid(probs, MornRows, Side) && |rews| == MornRows
    requires |rentP| == Limit && |retP| == Limit
    ensures Grid(r.probs, MornRows, Side) && |r.rews| == MornRows
  {
    var c := Cutoff(rentP);
    var r := Tables(Rentals(probs, rentP, retP, c), Rewards(rews, rentP, c));
    forall n | 0 <= n < MornRows
      ensures |r.probs[n]| == Side
    {
      RentalsMass(probs, rentP, retP, c, n);
    }
    r
  }

  // Mass conservation.

  /** Sum of the first `k` entries of a row. */
  function Sum(row: seq<real>, k: nat): real
    requires k <= |row|
    decreases k
  {
    if k == 0 then 0.0 else Sum(row, k - 1) + row[k - 1]
  }

  /** Sum of a row. */
  function Total(row: seq<real>): real {
    Sum(row, |row|)
  }

  lemma {:induction false} SumAdd(row: seq<real>, d: nat, x: real, k: nat)
    requires d < |row| && k <= |row|
    ensures Sum(row[d := row[d] + x], k) == Sum(row, k) + (if d < k then x else 0.0)
    decreases k
  {
    if k > 0 {
      SumAdd(row, d, x, k - 1);
    }
  }

  lemma TotalAdd(row: seq<real>, d: nat, x: real)
    requires d < |row|
    ensures Total(row[d := row[d] + x]) == Total(row) + x
  {
    SumAdd(row, d, x, |row|);
  }

  /** One pass adds `x` to each 21-column row, in exactly one column. */
  lemma PassMass(t: seq<seq<real>>, rent: nat, ret: nat, x: real, n: nat)
    requires n < |t| && |t[n]| == Side
    ensures |Pass(t, rent, ret, x)[n]| == Side
    ensures Total(Pass(t, rent, ret, x)[n]) == Total(t[n]) + x
  {
    var d := Dest(n, rent, ret);
    assert Pass(t, rent, ret, x)[n] == t[n][d := t[n][d] + x];
    TotalAdd(t[n], d, x);
  }

  /** Sum of `Joint(rentProb, retP[ret])` over `ret < k`. */
  function ReturnMass(rentProb: real, retP: seq<real>, k: nat): real
    requires k <= |retP|
    decreases k
  {
    if k == 0 then 0.0 else ReturnMass(rentProb, retP, k - 1) + Joint(rentProb, retP[k - 1])
  }

  /** Sum over `rent < k` of the return mass up to the return cutoff. */
  function PairMass(rentP: seq<real>, retP: seq<real>, k: nat): real
    requires k <= |rentP|
    decreases k
  {
    if k == 0 then 0.0 else PairMass(rentP, retP, k - 1) + ReturnMass(rentP[k - 1], retP, Cutoff(retP))
  }

  lemma {:induction false} ReturnsMass(t: seq<seq<real>>, rent: nat, rentProb: real, retP: seq<real>, k: nat, n: nat)
    requires k <= |retP| && n < |t| && |t[n]| == Side
    ensures |Returns(t, rent, rentProb, retP, k)[n]| == Side
    ensures Total(Returns(t, rent, rentProb, retP, k)[n]) == Total(t[n]) + ReturnMass(rentProb, retP, k)
    decreases k
  {
    if k > 0 {
      var prev := Returns(t, rent, rentProb, retP, k - 1);
      var x := Joint(rentProb, retP[k - 1]);
      assert Returns(t, rent, rentProb, retP, k) == Pass(prev, rent, k - 1, x);
      assert ReturnMass(rentProb, retP, k) == ReturnMass(rentProb, retP, k - 1) + x;
      ReturnsMass(t, rent, rentProb, retP, k - 1, n);
      PassMass(prev, rent, k - 1, x, n);
    }
  }

  lemma RentalsMassStep(t: seq<seq<real>>, rentP: seq<real>, retP: seq<real>, k: nat, n: nat)
    requires 0 < k <= |rentP| && n < |t|
    requires |Rentals(t, rentP, retP, k - 1)[n]| == Side
    ensures |Rentals(t, rentP, retP, k)[n]| == Side
    ensures Total(Rentals(t, rentP, retP, k)[n])
         == Total(Rentals(t, rentP, retP, k - 1)[n]) + ReturnMass(rentP[k - 1], retP, Cutoff(retP))
  {
    var prev := Rentals(t, rentP, retP, k - 1);
    var c := Cutoff(retP);
    assert Rentals(t, rentP, retP, k) == Returns(prev, k - 1, rentP[k - 1], retP, c);
    ReturnsMass(prev, k - 1, rentP[k - 1], retP, c, n);
  }

  lemma {:induction false} RentalsMass(t: seq<seq<real>>, rentP: seq<real>, retP: seq<real>, k: nat, n: nat)
    requires k <= |rentP| && n < |t| && |t[n]| == Side
    ensures |Rentals(t, rentP, retP, k)[n]| == Side
    ensures Total(Rentals(t, rentP, retP, k)[n]) == Total(t[n]) + PairMass(rentP, retP, k)
    decreases k
  {
    if k > 0 {
      RentalsMass(t, rentP, retP, k - 1, n);
      RentalsMassStep(t, rentP, retP, k, n);
    }
  }

  /** Every row of the transition table gains the same mass: the joint
      probability of all the (rental, return) pairs before the cutoffs, as
      each pair lands in exactly one capped destination. */
  lemma ComputeProbsMass(probs: seq<seq<real>>, rews: seq<real>, rentP: seq<real>, retP: seq<real>, n: nat)
    requires Grid(probs, MornRows, Side) && |rews| == MornRows
    requires |rentP| == Limit && |retP| == Limit && n < MornRows
    ensures Total(ComputeProbs(probs, rews, rentP, retP).probs[n])
         == Total(probs[n]) + PairMass(rentP, retP, Cutoff(rentP))
  {
    RentalsMass(probs, rentP, retP, Cutoff(rentP), n);
  }

  // Rewards grow with the cars on hand.

  /** Sum over `rent < k` of the expected income from `n` cars. */
  function Income(rentP: seq<real>, n: int, k: nat): real
    requires k <= |rentP|
    decreases k
  {
    if k == 0 then 0.0 else Income(rentP, n, k - 1) + Earned(rentP[k - 1], Fulfilled(k - 1, n))
  }

  lemma {:induction false} RewardsIncome(rews: seq<real>, rentP: seq<real>, k: nat, n: nat)
    requires |rews| == MornRows && k <= |rentP| && n < MornRows
    ensures Rewards(rews, rentP, k)[n] == rews[n] + Income(rentP, n, k)
    decreases k
  {
    if k > 0 {
      RewardsIncome(rews, rentP, k - 1, n);
    }
  }

  lemma EarnedMono(p: real, f: int, g: int)
    requires p >= 0.0 && f <= g
    ensures Earned(p, f) <= Earned(p, g)
  {
    MulNonNeg(10.0, p);
    MulLeftMono(10.0 * p, f as real, g as real);
  }

  lemma {:induction false} IncomeMono(rentP: seq<real>, n: int, k: nat)
    requires k <= |rentP|
    requires forall i :: 0 <= i < |rentP| ==> rentP[i] >= 0.0
    ensures Income(rentP, n, k) <= Income(rentP, n + 1, k)
    decreases k
  {
    if k > 0 {
      IncomeMono(rentP, n, k - 1);
      EarnedMono(rentP[k - 1], Fulfilled(k - 1, n), Fulfilled(k - 1, n + 1));
    }
  }

  /** The reward table gains the expected income of each morning count,
      and with non-negative probabilities one more car never earns less. */
  lemma ComputeProbsRewards(probs: seq<seq<real>>, rews: seq<real>, rentP: seq<real>, retP: seq<real>, n: nat)
    requires Grid(probs, MornRows, Side) && |rews| == MornRows
    requires |rentP| == Limit && |retP| == Limit && n < MornRows
    ensures ComputeProbs(probs, rews, rentP, retP).rews[n] == rews[n] + Income(rentP, n, Cutoff(rentP))
    ensures (forall i :: 0 <= i < |rentP| ==> rentP[i] >= 0.0) ==>
              Income(rentP, n, Cutoff(rentP)) <= Income(rentP, n + 1, Cutoff(rentP))
  {
    RewardsIncome(rews, rentP, Cutoff(rentP), n);
    if forall i :: 0 <= i < |rentP| ==> rentP[i] >= 0.0 {
      IncomeMono(rentP, n, Cutoff(rentP));
    }
  }
}
