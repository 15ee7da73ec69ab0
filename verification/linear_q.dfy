/** The linear action-value approximator: one weight vector per action, and
    the value of an action in an encoded state is the sum of that action's
    weights at the state's set bits.  Also greedy action selection and the
    construction and copying of the weight table. */
module LinearQ {
  import TileCoding
  import MountainCar

  /** Action -> weight vector.  Actions are the reals 0, 1 and -1. */
  type Weights = map<real, seq<real>>

  /** Go's map lookup: a missing key reads as an empty (nil) slice. */
  function Vec(weights: Weights, a: real): seq<real> {
    if a in weights then weights[a] else []
  }

  /** Every set bit of `s` indexes into `w`. */
  predicate Covers(w: seq<real>, s: seq<bool>) {
    forall i :: 0 <= i < |s| && s[i] ==> i < |w|
  }

  /** Reading action `a`'s weights at the set bits of `s` stays in bounds. */
  predicate Fits(weights: Weights, a: real, s: seq<bool>) {
    Covers(Vec(weights, a), s)
  }

  predicate AllFit(weights: Weights, s: seq<bool>, actions: seq<real>) {
    forall k :: 0 <= k < |actions| ==> Fits(weights, actions[k], s)
  }

  /** The table holds the three actions, each with a vector of length `n`. */
  predicate Shaped(weights: Weights, n: nat) {
    && 0.0 in weights && 1.0 in weights && -1.0 in weights
    && |weights[0.0]| == n && |weights[1.0]| == n && |weights[-1.0]| == n
  }

  /** Sum of `w[j]` over the set bits `j` of `s` in `[lo, hi)`. */
  function ActiveSum(w: seq<real>, s: seq<bool>, lo: nat, hi: nat): real
    requires lo <= hi <= |s| && Covers(w, s)
    decreases hi - lo
  {
    if hi == lo then 0.0
    else ActiveSum(w, s, lo, hi - 1) + (if s[hi - 1] then w[hi - 1] else 0.0)
  }

  /** The loop `delta -= ws[j]` over the set bits `j` of `s` below `k`, in
      index order, starting from `d`. */
  function SubtractActive(d: real, w: seq<real>, s: seq<bool>, k: nat): real
    requires k <= |s| && Covers(w, s)
  {
    if k == 0 then d
    else
      var e := SubtractActive(d, w, s, k - 1);
      if s[k - 1] then e - w[k - 1] else e
  }

  /** Subtracting the active weights one by one subtracts their sum. */
  lemma {:induction false} SubtractActiveSum(d: real, w: seq<real>, s: seq<bool>, k: nat)
    requires k <= |s| && Covers(w, s)
    ensures SubtractActive(d, w, s, k) == d - ActiveSum(w, s, 0, k)
  {
    if k > 0 {
      SubtractActiveSum(d, w, s, k - 1);
    }
  }

  /** Estimated value of action `a` in the encoded state `s`. */
  function Q(weights: Weights, s: seq<bool>, a: real): (r: real)
    requires Fits(weights, a, s)
    ensures (forall j :: 0 <= j < |s| ==> !s[j]) ==> r == 0.0
    ensures (forall j :: 0 <= j < |Vec(weights, a)| ==> Vec(weights, a)[j] == 0.0) ==> r == 0.0
  {
    ActiveSumVanishes(Vec(weights, a), s);
    ActiveSum(Vec(weights, a), s, 0, |s|)
  }

  /** Largest estimate over a non-empty list of actions. */
  function MaxQ(weights: Weights, s: seq<bool>, actions: seq<real>): (m: real)
    requires |actions| > 0 && AllFit(weights, s, actions)
    ensures forall k :: 0 <= k < |actions| ==> Q(weights, s, actions[k]) <= m
    ensures exists k :: 0 <= k < |actions| && m == Q(weights, s, actions[k])
    decreases |actions|
  {
    var last := actions[|actions| - 1];
    if |actions| == 1 then Q(weights, s, last)
    else
      var m := MaxQ(weights, s, actions[..|actions| - 1]);
      var q := Q(weights, s, last);
      if q > m then q else m
  }

  /** The greedy action: a strict `>` scan from the front, so among equal
      estimates the earliest listed action wins. */
  function SelectGreedy(weights: Weights, s: seq<bool>, actions: seq<real>): (b: real)
    requires |actions| > 0 && AllFit(weights, s, actions)
    ensures b in actions
    ensures Q(weights, s, b) == MaxQ(weights, s, actions)
    decreases |actions|
  {
    var last := actions[|actions| - 1];
    if |actions| == 1 then last
    else
      var b := SelectGreedy(weights, s, actions[..|actions| - 1]);
      if Q(weights, s, last) > Q(weights, s, b) then last else b
  }

  /** Epsilon-greedy as written: explore only when a uniform draw `u` in
      [0, 1) exceeds 1, which never happens; `k` is the index draw the
      exploring branch would use. */
  function SelectEGreedy(weights: Weights, s: seq<bool>, actions: seq<real>, u: real, k: nat): (b: real)
    requires |actions| > 0 && AllFit(weights, s, actions) && k < |actions|
    ensures u <= 1.0 ==> b == SelectGreedy(weights, s, actions)
    ensures b in actions
  {
    if u > 1.0 then actions[k] else SelectGreedy(weights, s, actions)
  }

  function Zeros(n: nat): (z: seq<real>)
    ensures |z| == n && forall i :: 0 <= i < n ==> z[i] == 0.0
  {
    seq(n, _ => 0.0)
  }

  /** A fresh table: the three actions, all weights zero. */
  function CreateWeights(cfg: TileCoding.Config): (w: Weights)
    ensures w.Keys == {1.0, 0.0, -1.0}
    ensures Shaped(w, TileCoding.FeatureCount(cfg))
    ensures forall a, i :: a in w && 0 <= i < |w[a]| ==> w[a][i] == 0.0
  {
    var n := TileCoding.FeatureCount(cfg);
    map[1.0 := Zeros(n), 0.0 := Zeros(n), -1.0 := Zeros(n)]
  }

  /** Go's `copy(make([]float64, n), src)`: the first `min(n, |src|)` entries
      of `src`, padded with zeros to length `n`. */
  function CopyInto(n: nat, src: seq<real>): (r: seq<real>)
    ensures |r| == n
    ensures n <= |src| ==> r == src[..n]
    ensures |src| <= n ==> r == src + Zeros(n - |src|)
  {
    seq(n, i requires 0 <= i < n => if i < |src| then src[i] else 0.0)
  }

  /** A snapshot of the table; every vector is sized after action 0's. */
  function CopyWeights(ws: Weights): (r: Weights)
    ensures r.Keys == {1.0, 0.0, -1.0}
    ensures Shaped(r, |Vec(ws, 0.0)|)
  {
    var n := |Vec(ws, 0.0)|;
    map[1.0 := CopyInto(n, Vec(ws, 1.0)), 0.0 := CopyInto(n, Vec(ws, 0.0)), -1.0 := CopyInto(n, Vec(ws, -1.0))]
  }

  // ---------------------------------------------------------------------------
  // Lemmas.

  lemma ShapedFits(weights: Weights, n: nat, s: seq<bool>, actions: seq<real>)
    requires Shaped(weights, n) && |s| == n
    requires forall k :: 0 <= k < |actions| ==> actions[k] in MountainCar.Actions
    ensures AllFit(weights, s, actions)
  {
  }

  /** When every vector already has action 0's length, the snapshot holds the
      same vectors for the three actions. */
  lemma CopyWeightsShaped(ws: Weights, n: nat)
    requires Shaped(ws, n)
    ensures Shaped(CopyWeights(ws), n)
    ensures forall a :: a in CopyWeights(ws) ==> a in ws && CopyWeights(ws)[a] == ws[a]
  {
    var r := CopyWeights(ws);
    assert ws[1.0][..n] == ws[1.0];
    assert ws[0.0][..n] == ws[0.0];
    assert ws[-1.0][..n] == ws[-1.0];
  }

  /** A vector longer than action 0's is cut to action 0's length. */
  lemma CopyWeightsTruncates(ws: Weights)
    requires 0.0 in ws && 1.0 in ws && |ws[1.0]| > |ws[0.0]|
    ensures |CopyWeights(ws)[1.0]| < |ws[1.0]|
    ensures CopyWeights(ws)[1.0] == ws[1.0][..|ws[0.0]|]
  {
  }

  /** A vector shorter than action 0's is padded with zeros to its length. */
  lemma CopyWeightsPads(ws: Weights)
    requires 0.0 in ws && 1.0 in ws && |ws[1.0]| < |ws[0.0]|
    ensures |CopyWeights(ws)[1.0]| > |ws[1.0]|
    ensures CopyWeights(ws)[1.0] == ws[1.0] + Zeros(|ws[0.0]| - |ws[1.0]|)
  {
  }

  /** No set bit, or no non-zero weight, gives a zero sum. */
  lemma ActiveSumVanishes(w: seq<real>, s: seq<bool>)
    requires Covers(w, s)
    ensures (forall j :: 0 <= j < |s| ==> !s[j]) ==> ActiveSum(w, s, 0, |s|) == 0.0
    ensures (forall j :: 0 <= j < |w| ==> w[j] == 0.0) ==> ActiveSum(w, s, 0, |s|) == 0.0
  {
    if forall j :: 0 <= j < |s| ==> !s[j] {
      ActiveSumNone(w, s, 0, |s|);
    }
    if forall j :: 0 <= j < |w| ==> w[j] == 0.0 {
      ActiveSumZero(w, s, 0, |s|);
    }
  }

  lemma {:induction false} ActiveSumNone(w: seq<real>, s: seq<bool>, lo: nat, hi: nat)
    requires lo <= hi <= |s| && Covers(w, s)
    requires forall j :: lo <= j < hi ==> !s[j]
    ensures ActiveSum(w, s, lo, hi) == 0.0
    decreases hi - lo
  {
    if hi > lo {
      ActiveSumNone(w, s, lo, hi - 1);
    }
  }

  /** With all weights zero every estimate is zero. */
  lemma {:induction false} ActiveSumZero(w: seq<real>, s: seq<bool>, lo: nat, hi: nat)
    requires lo <= hi <= |s| && Covers(w, s)
    requires forall j :: 0 <= j < |w| ==> w[j] == 0.0
    ensures ActiveSum(w, s, lo, hi) == 0.0
    decreases hi - lo
  {
    if hi > lo {
      ActiveSumZero(w, s, lo, hi - 1);
    }
  }

  lemma {:induction false} ActiveSumSplit(w: seq<real>, s: seq<bool>, lo: nat, mid: nat, hi: nat)
    requires lo <= mid <= hi <= |s| && Covers(w, s)
    ensures ActiveSum(w, s, lo, hi) == ActiveSum(w, s, lo, mid) + ActiveSum(w, s, mid, hi)
    decreases hi - mid
  {
    if hi > mid {
      ActiveSumSplit(w, s, lo, mid, hi - 1);
    }
  }

  /** A range with a single set bit `p` sums to `w[p]`. */
  lemma {:induction false} ActiveSumOneHot(w: seq<real>, s: seq<bool>, lo: nat, hi: nat, p: nat)
    requires lo <= p < hi <= |s| && p < |w| && Covers(w, s)
    requires forall j :: lo <= j < hi ==> (s[j] <==> j == p)
    ensures ActiveSum(w, s, lo, hi) == w[p]
    decreases hi - lo
  {
    if hi - 1 == p {
      ActiveSumNone(w, s, lo, hi - 1);
    } else {
      ActiveSumOneHot(w, s, lo, hi - 1, p);
    }
  }

  /** A freshly created table estimates zero for every action and state. */
  lemma CreateWeightsQZero(cfg: TileCoding.Config, s: seq<bool>, a: real)
    requires a in CreateWeights(cfg) && |s| == TileCoding.FeatureCount(cfg)
    ensures Fits(CreateWeights(cfg), a, s)
    ensures Q(CreateWeights(cfg), s, a) == 0.0
  {
    var w := Vec(CreateWeights(cfg), a);
    ActiveSumZero(w, s, 0, |s|);
  }

  /** Sum of `w` at the bits tilings `0 .. k-1` set: the estimate computed
      from the active indices only. */
  function TileSum(w: seq<real>, cfg: TileCoding.Config, x: real, dx: real, k: nat): real
    requires TileCoding.Valid(cfg) && TileCoding.InRange(x, dx) && k <= cfg.nTilings
    requires |w| == TileCoding.FeatureCount(cfg)
  {
    if k == 0 then 0.0
    else
      TileCoding.CellInBlock(cfg, x, dx, k - 1);
      TileSum(w, cfg, x, dx, k - 1) + w[TileCoding.TileIndex(cfg, x, dx, k - 1)]
  }

  /** Extending the summed prefix over a block with one set bit `p` adds
      that bit's weight. */
  lemma ActiveSumBlock(w: seq<real>, s: seq<bool>, lo: nat, hi: nat, p: nat)
    requires lo <= p < hi <= |s| && Covers(w, s)
    requires forall j :: lo <= j < hi ==> (s[j] <==> j == p)
    ensures p < |w|
    ensures ActiveSum(w, s, 0, hi) == ActiveSum(w, s, 0, lo) + w[p]
  {
    ActiveSumSplit(w, s, 0, lo, hi);
    ActiveSumOneHot(w, s, lo, hi, p);
  }

  /** On an encoded observation the estimate is the sum of the action's
      weights at the `nTilings` active indices, one per tiling. */
  lemma QOfEncoding(weights: Weights, cfg: TileCoding.Config, x: real, dx: real, a: real)
    requires TileCoding.Valid(cfg) && TileCoding.InRange(x, dx)
    requires |Vec(weights, a)| == TileCoding.FeatureCount(cfg)
    ensures TileCoding.Encode(cfg, x, dx).Some?
    ensures Fits(weights, a, TileCoding.Encode(cfg, x, dx).value)
    ensures Q(weights, TileCoding.Encode(cfg, x, dx).value, a) == TileSum(Vec(weights, a), cfg, x, dx, cfg.nTilings)
  {
    TileCoding.EncodeOneHotBlocks(cfg, x, dx);
    BlocksSum(Vec(weights, a), TileCoding.Encode(cfg, x, dx).value, cfg, x, dx);
  }

  /** Summing the weights at the set bits block by block: a vector with one
      set bit per tiling, at that tiling's cell, sums to `TileSum`. */
  lemma BlocksSum(w: seq<real>, v: seq<bool>, cfg: TileCoding.Config, x: real, dx: real)
    requires TileCoding.Valid(cfg) && TileCoding.InRange(x, dx)
    requires |w| == TileCoding.FeatureCount(cfg) && |v| == |w|
    requires forall i :: 0 <= i < cfg.nTilings ==>
               TileCoding.OneHotAt(TileCoding.Block(cfg, v, i), TileCoding.Cell(cfg, x, dx, i))
    ensures Covers(w, v)
    ensures ActiveSum(w, v, 0, |v|) == TileSum(w, cfg, x, dx, cfg.nTilings)
  {
    var t := TileCoding.TilesPerTiling(cfg);
    var k: nat, lo: nat := 0, 0;
    while k < cfg.nTilings
      invariant k <= cfg.nTilings && lo == t * k && lo <= |v|
      invariant ActiveSum(w, v, 0, lo) == TileSum(w, cfg, x, dx, k)
    {
      TileCoding.BlockBound(cfg, k);
      assert t * (k + 1) == lo + t;
      TileSumStep(w, v, cfg, x, dx, k, lo);
      k, lo := k + 1, lo + t;
    }
  }

  /** One tiling's block adds the weight at that tiling's index. */
  lemma TileSumStep(w: seq<real>, v: seq<bool>, cfg: TileCoding.Config, x: real, dx: real, k: nat, lo: nat)
    requires TileCoding.Valid(cfg) && TileCoding.InRange(x, dx) && k < cfg.nTilings
    requires |w| == TileCoding.FeatureCount(cfg) && |v| == |w|
    requires lo == TileCoding.TilesPerTiling(cfg) * k && lo + TileCoding.TilesPerTiling(cfg) <= |v|
    requires TileCoding.OneHotAt(TileCoding.Block(cfg, v, k), TileCoding.Cell(cfg, x, dx, k))
    requires ActiveSum(w, v, 0, lo) == TileSum(w, cfg, x, dx, k)
    ensures ActiveSum(w, v, 0, lo + TileCoding.TilesPerTiling(cfg)) == TileSum(w, cfg, x, dx, k + 1)
  {
    var t := TileCoding.TilesPerTiling(cfg);
    TileCoding.CellInBlock(cfg, x, dx, k);
    var c := TileCoding.Cell(cfg, x, dx, k);
    assert TileCoding.Block(cfg, v, k) == TileCoding.Chunk(v, t, k);
    TileCoding.ChunkOneHot(v, t, k, c);
    assert t * (k + 1) == lo + t;
    ActiveSumBlock(w, v, lo, lo + t, lo + c);
    assert TileCoding.TileIndex(cfg, x, dx, k) == lo + c;
  }

  /** The greedy choice is the earliest listed action whose estimate equals
      the maximum: every action before it estimates strictly less. */
  lemma {:induction false} SelectGreedyEarliest(weights: Weights, s: seq<bool>, actions: seq<real>)
    requires |actions| > 0 && AllFit(weights, s, actions)
    ensures exists k :: 0 <= k < |actions| && actions[k] == SelectGreedy(weights, s, actions)
              && forall j :: 0 <= j < k ==> Q(weights, s, actions[j]) < MaxQ(weights, s, actions)
    decreases |actions|
  {
    var b := SelectGreedy(weights, s, actions);
    var n := |actions|;
    if n == 1 {
      assert actions[0] == b;
    } else {
      var init := actions[..n - 1];
      assert AllFit(weights, s, init);
      SelectGreedyEarliest(weights, s, init);
      var b' := SelectGreedy(weights, s, init);
      var k' :| 0 <= k' < |init| && init[k'] == b'
                && forall j :: 0 <= j < k' ==> Q(weights, s, init[j]) < MaxQ(weights, s, init);
      if Q(weights, s, actions[n - 1]) > Q(weights, s, b') {
        forall j | 0 <= j < n - 1
          ensures Q(weights, s, actions[j]) < MaxQ(weights, s, actions)
        {
          assert actions[j] == init[j];
        }
      } else {
        forall j | 0 <= j < k'
          ensures Q(weights, s, actions[j]) < MaxQ(weights, s, actions)
        {
          assert actions[j] == init[j];
        }
        assert actions[k'] == b;
      }
    }
  }
}
