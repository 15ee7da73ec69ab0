/** Tile coding of the mountain-car observation (position, velocity).

    Each of `nTilings` grids has `(tilingRes + 1)^2` cells; grid `i` is shifted by
    `i / nTilings` of a tile width along both normalised axes.  The extra row and
    column (the `+ 1`) absorb that shift, so every grid cell index stays in its
    own block of the concatenated feature vector. */
module TileCoding {
  import opened Wrappers

  datatype Config = Config(nTilings: nat, tilingRes: nat)

  /** A resolution of zero would divide by zero when the tile width is computed. */
  predicate Valid(cfg: Config) {
    cfg.tilingRes >= 1
  }

  /** Bounds of the observation box of the environment. */
  const MinX: real := -1.2
  const MaxX: real := 0.5
  const MaxSpeed: real := 0.07

  predicate InRange(x: real, dx: real) {
    MinX <= x <= MaxX && -MaxSpeed <= dx <= MaxSpeed
  }

  function Stride(cfg: Config): nat {
    cfg.tilingRes + 1
  }

  function TilesPerTiling(cfg: Config): nat {
    Stride(cfg) * Stride(cfg)
  }

  /** Length of every feature vector (and of every weight vector). */
  function FeatureCount(cfg: Config): nat {
    cfg.nTilings * TilesPerTiling(cfg)
  }

  /** Go's conversion `int(f)` of a float: truncation toward zero. */
  function Trunc(r: real): (n: int)
    ensures r >= 0.0 ==> n as real <= r < n as real + 1.0
    ensures r < 0.0 ==> n as real - 1.0 < r <= n as real
  {
    if r >= 0.0 then r.Floor else -((-r).Floor)
  }

  function NormX(x: real): real {
    (x + 1.2) / 1.7
  }

  function NormY(dx: real): real {
    (dx + 0.07) / 0.14
  }

  /** Shift of one tiling against the previous one, in normalised units. */
  function Offset(cfg: Config): real
    requires Valid(cfg) && cfg.nTilings >= 1
  {
    (1.0 / cfg.tilingRes as real) / cfg.nTilings as real
  }

  /** Grid coordinate of a normalised value `u` in tiling `i`; the shift is the
      sum of `i` offsets the encoder adds before reaching tiling `i`. */
  function Coord(cfg: Config, u: real, i: nat): int
    requires Valid(cfg) && i < cfg.nTilings
  {
    Trunc((u + i as real * Offset(cfg)) * cfg.tilingRes as real)
  }

  function Row(cfg: Config, x: real, dx: real, i: nat): int
    requires Valid(cfg) && i < cfg.nTilings
  {
    Coord(cfg, NormY(dx), i)
  }

  function Col(cfg: Config, x: real, dx: real, i: nat): int
    requires Valid(cfg) && i < cfg.nTilings
  {
    Coord(cfg, NormX(x), i)
  }

  /** Cell inside tiling `i`'s block. */
  function Cell(cfg: Config, x: real, dx: real, i: nat): int
    requires Valid(cfg) && i < cfg.nTilings
  {
    Row(cfg, x, dx, i) * Stride(cfg) + Col(cfg, x, dx, i)
  }

  /** Position in the whole feature vector of the bit tiling `i` sets. */
  function TileIndex(cfg: Config, x: real, dx: real, i: nat): int
    requires Valid(cfg) && i < cfg.nTilings
  {
    TilesPerTiling(cfg) * i + Cell(cfg, x, dx, i)
  }

  /** The encoder's loop after its first `k` iterations: a fresh all-false
      vector with the bits of tilings `0 .. k-1` set, or `None` once a bit
      index falls outside the vector. */
  function Place(cfg: Config, x: real, dx: real, k: nat): (r: Option<seq<bool>>)
    requires Valid(cfg) && k <= cfg.nTilings
    ensures r.Some? <==> forall i :: 0 <= i < k ==> 0 <= TileIndex(cfg, x, dx, i) < FeatureCount(cfg)
    ensures r.Some? ==> |r.value| == FeatureCount(cfg)
    ensures r.Some? ==> forall j :: 0 <= j < |r.value| ==>
              (r.value[j] <==> exists i :: 0 <= i < k && TileIndex(cfg, x, dx, i) == j)
  {
    if k == 0 then
      Some(seq(FeatureCount(cfg), _ => false))
    else
      match Place(cfg, x, dx, k - 1)
      case None => None
      case Some(v) =>
        var idx := TileIndex(cfg, x, dx, k - 1);
        if 0 <= idx < |v| then Some(v[idx := true]) else None
  }

  /** The state encoder built by `CreateTileEncoder(nTilings, tilingRes)`:
      inside the observation box it never panics, and every vector it
      returns has one bit per tile of every tiling. */
  function Encode(cfg: Config, x: real, dx: real): (r: Option<seq<bool>>)
    requires Valid(cfg)
    ensures InRange(x, dx) ==> r.Some?
    ensures r.Some? ==> |r.value| == FeatureCount(cfg)
  {
    PlaceInBox(cfg, x, dx);
    Place(cfg, x, dx, cfg.nTilings)
  }

  /** Inside the box every tiling's bit index lies in the vector. */
  lemma PlaceInBox(cfg: Config, x: real, dx: real)
    requires Valid(cfg)
    ensures InRange(x, dx) ==> Place(cfg, x, dx, cfg.nTilings).Some?
  {
    if InRange(x, dx) {
      forall i | 0 <= i < cfg.nTilings
        ensures 0 <= TileIndex(cfg, x, dx, i) < FeatureCount(cfg)
      {
        CellInBlock(cfg, x, dx, i);
      }
    }
  }

  /** The `i`-th run of `t` consecutive bits. */
  function Chunk(v: seq<bool>, t: nat, i: nat): seq<bool>
    requires t * (i + 1) <= |v|
  {
    MulMono(i, i + 1, t);
    v[t * i .. t * (i + 1)]
  }

  /** A one-hot chunk pins down the bits of `v` over the chunk's range. */
  lemma ChunkOneHot(v: seq<bool>, t: nat, i: nat, c: int)
    requires t * (i + 1) <= |v| && OneHotAt(Chunk(v, t, i), c)
    ensures forall j :: t * i <= j < t * (i + 1) ==> (v[j] <==> j == t * i + c)
  {
    var lo, hi := t * i, t * (i + 1);
    MulMono(i, i + 1, t);
    var b := Chunk(v, t, i);
    assert b == v[lo..hi];
    forall j | lo <= j < hi
      ensures v[j] <==> j == lo + c
    {
      assert v[j] == b[j - lo];
    }
  }

  /** Tiling `i`'s block of a feature vector. */
  function Block(cfg: Config, v: seq<bool>, i: nat): seq<bool>
    requires i < cfg.nTilings && |v| == FeatureCount(cfg)
  {
    BlockBound(cfg, i);
    Chunk(v, TilesPerTiling(cfg), i)
  }

  /** `b` has exactly the one bit `c` set. */
  predicate OneHotAt(b: seq<bool>, c: int) {
    0 <= c < |b| && forall k :: 0 <= k < |b| ==> (b[k] <==> k == c)
  }

  /** Number of set bits. */
  function Count(s: seq<bool>): nat {
    if |s| == 0 then 0 else Count(s[..|s| - 1]) + (if s[|s| - 1] then 1 else 0)
  }

  // ---------------------------------------------------------------------------
  // Arithmetic facts about the grid.

  lemma MulMono(a: int, b: int, c: nat)
    requires a <= b
    ensures a * c <= b * c
  {
  }

  lemma BlockBound(cfg: Config, i: nat)
    requires i < cfg.nTilings
    ensures TilesPerTiling(cfg) * (i + 1) <= FeatureCount(cfg)
  {
    MulMono(i + 1, cfg.nTilings, TilesPerTiling(cfg));
  }

  /** A value in [0, R+1) truncates to a grid coordinate in [0, R]. */
  lemma CoordInGrid(cfg: Config, u: real, i: nat)
    requires Valid(cfg) && i < cfg.nTilings
    requires 0.0 <= u <= 1.0
    ensures 0 <= Coord(cfg, u, i) <= cfg.tilingRes
  {
    var R := cfg.tilingRes as real;
    var N := cfg.nTilings as real;
    var t := i as real * Offset(cfg);
    assert Offset(cfg) * R == 1.0 / N;
    assert t * R == i as real / N;
    assert i as real / N < 1.0 by {
      assert (i as real / N) * N == i as real;
    }
    assert 0.0 <= i as real / N;
    assert u * R <= R;
    var scaled := (u + t) * R;
    assert scaled == u * R + i as real / N;
    assert 0.0 <= scaled < R + 1.0;
  }

  /** Two bits in different blocks never coincide. */
  lemma BlocksDisjoint(t: nat, i: nat, c: int, i': nat, c': int)
    requires 0 <= c < t && 0 <= c' < t
    requires t * i + c == t * i' + c'
    ensures i == i' && c == c'
  {
    if i < i' {
      MulMono(i + 1, i', t);
      assert false;
    } else if i' < i {
      MulMono(i' + 1, i, t);
      assert false;
    }
  }

  /** Inside the observation box every row and column index is a grid
      coordinate in [0, R], so each tiling's bit lands in its own block. */
  lemma CellInBlock(cfg: Config, x: real, dx: real, i: nat)
    requires Valid(cfg) && i < cfg.nTilings && InRange(x, dx)
    ensures 0 <= Row(cfg, x, dx, i) <= cfg.tilingRes
    ensures 0 <= Col(cfg, x, dx, i) <= cfg.tilingRes
    ensures 0 <= Cell(cfg, x, dx, i) < TilesPerTiling(cfg)
    ensures 0 <= TileIndex(cfg, x, dx, i) < FeatureCount(cfg)
  {
    CoordInGrid(cfg, NormY(dx), i);
    CoordInGrid(cfg, NormX(x), i);
    GridCellBound(Row(cfg, x, dx, i), Col(cfg, x, dx, i), cfg.tilingRes);
    BlockBound(cfg, i);
  }

  /** A (row, column) pair of an (R+1) x (R+1) grid flattens into [0, (R+1)^2). */
  lemma GridCellBound(row: int, col: int, res: nat)
    requires 0 <= row <= res && 0 <= col <= res
    ensures 0 <= row * (res + 1) + col < (res + 1) * (res + 1)
  {
    MulMono(row, res, res + 1);
    assert (res + 1) * (res + 1) == res * (res + 1) + res + 1;
  }

  // ---------------------------------------------------------------------------
  // Counting lemmas.

  lemma {:induction false} CountAppend(a: seq<bool>, b: seq<bool>)
    ensures Count(a + b) == Count(a) + Count(b)
    decreases |b|
  {
    if |b| == 0 {
      assert a + b == a;
    } else {
      var b' := b[..|b| - 1];
      assert (a + b)[..|a + b| - 1] == a + b';
      CountAppend(a, b');
    }
  }

  lemma {:induction false} CountNone(s: seq<bool>)
    requires forall k :: 0 <= k < |s| ==> !s[k]
    ensures Count(s) == 0
    decreases |s|
  {
    if |s| > 0 {
      CountNone(s[..|s| - 1]);
    }
  }

  lemma {:induction false} CountOneHot(b: seq<bool>, c: int)
    requires OneHotAt(b, c)
    ensures Count(b) == 1
    decreases |b|
  {
    var p := b[..|b| - 1];
    if c == |b| - 1 {
      CountNone(p);
    } else {
      assert OneHotAt(p, c);
      CountOneHot(p, c);
    }
  }

  // ---------------------------------------------------------------------------
  // The encoder's guarantees.

  /** A vector of `|cells|` blocks of width `t` whose set bits are exactly
      the positions `t * i + cells[i]` is one-hot in every block. */
  lemma OneHotFromIndices(v: seq<bool>, t: nat, cells: seq<int>)
    requires |v| == |cells| * t
    requires forall i :: 0 <= i < |cells| ==> 0 <= cells[i] < t
    requires forall j :: 0 <= j < |v| ==> (v[j] <==> exists i :: 0 <= i < |cells| && t * i + cells[i] == j)
    ensures forall i :: 0 <= i < |cells| ==> t * (i + 1) <= |v| && OneHotAt(Chunk(v, t, i), cells[i])
  {
    forall i | 0 <= i < |cells|
      ensures t * (i + 1) <= |v| && OneHotAt(Chunk(v, t, i), cells[i])
    {
      MulMono(i + 1, |cells|, t);
      var b := Chunk(v, t, i);
      forall k | 0 <= k < |b|
        ensures b[k] <==> k == cells[i]
      {
        assert b[k] == v[t * i + k];
        if b[k] {
          var i' :| 0 <= i' < |cells| && t * i' + cells[i'] == t * i + k;
          BlocksDisjoint(t, i', cells[i'], i, k);
        }
      }
    }
  }

  /** A vector made of `n` one-hot blocks has `n` set bits. */
  lemma CountBlocks(v: seq<bool>, t: nat, cells: seq<int>)
    requires |v| == |cells| * t
    requires forall i :: 0 <= i < |cells| ==> t * (i + 1) <= |v| && OneHotAt(Chunk(v, t, i), cells[i])
    ensures Count(v) == |cells|
  {
    var k := 0;
    assert v[..0] == [];
    while k < |cells|
      invariant k <= |cells|
      invariant t * k <= |v|
      invariant Count(v[..t * k]) == k
    {
      var b := Chunk(v, t, k);
      assert v[..t * (k + 1)] == v[..t * k] + b;
      CountAppend(v[..t * k], b);
      CountOneHot(b, cells[k]);
      k := k + 1;
    }
    assert v[..t * |cells|] == v;
  }

  /** Tiling cells of one observation, in tiling order. */
  function Cells(cfg: Config, x: real, dx: real): (cs: seq<int>)
    requires Valid(cfg)
    ensures |cs| == cfg.nTilings
    ensures forall i :: 0 <= i < |cs| ==> cs[i] == Cell(cfg, x, dx, i)
  {
    seq(cfg.nTilings, i requires 0 <= i < cfg.nTilings => Cell(cfg, x, dx, i))
  }

  /** Inside the observation box the encoder never aborts, returns a vector
      of `nTilings * (R+1)^2` bits and sets exactly the cell `Cell(i)` in the
      block of every tiling `i`. */
  lemma EncodeOneHotBlocks(cfg: Config, x: real, dx: real)
    requires Valid(cfg) && InRange(x, dx)
    ensures Encode(cfg, x, dx).Some?
    ensures |Encode(cfg, x, dx).value| == FeatureCount(cfg)
    ensures forall i :: 0 <= i < cfg.nTilings ==>
              OneHotAt(Block(cfg, Encode(cfg, x, dx).value, i), Cell(cfg, x, dx, i))
  {
    var t := TilesPerTiling(cfg);
    var cs := Cells(cfg, x, dx);
    forall i | 0 <= i < cfg.nTilings
      ensures 0 <= TileIndex(cfg, x, dx, i) < FeatureCount(cfg)
      ensures 0 <= cs[i] < t && TileIndex(cfg, x, dx, i) == t * i + cs[i]
    {
      CellInBlock(cfg, x, dx, i);
    }
    var v := Encode(cfg, x, dx).value;
    forall j | 0 <= j < |v|
      ensures v[j] <==> exists i :: 0 <= i < |cs| && t * i + cs[i] == j
    {
      if v[j] {
        var i :| 0 <= i < cfg.nTilings && TileIndex(cfg, x, dx, i) == j;
        assert t * i + cs[i] == j;
      }
      if exists i :: 0 <= i < |cs| && t * i + cs[i] == j {
        var i :| 0 <= i < |cs| && t * i + cs[i] == j;
        assert TileIndex(cfg, x, dx, i) == j;
      }
    }
    OneHotFromIndices(v, t, cs);
  }

  /** A feature vector that is one-hot in every tiling block has one set bit
      per tiling. */
  lemma CountTilingBlocks(cfg: Config, v: seq<bool>, cs: seq<int>)
    requires |v| == FeatureCount(cfg) && |cs| == cfg.nTilings
    requires forall i :: 0 <= i < cfg.nTilings ==> OneHotAt(Block(cfg, v, i), cs[i])
    ensures Count(v) == cfg.nTilings
  {
    var t := TilesPerTiling(cfg);
    forall i | 0 <= i < |cs|
      ensures t * (i + 1) <= |v| && OneHotAt(Chunk(v, t, i), cs[i])
    {
      BlockBound(cfg, i);
      assert Block(cfg, v, i) == Chunk(v, t, i);
    }
    CountBlocks(v, t, cs);
  }

  /** Inside the observation box exactly `nTilings` bits are set. */
  lemma EncodeActiveCount(cfg: Config, x: real, dx: real)
    requires Valid(cfg) && InRange(x, dx)
    ensures Encode(cfg, x, dx).Some?
    ensures Count(Encode(cfg, x, dx).value) == cfg.nTilings
  {
    EncodeOneHotBlocks(cfg, x, dx);
    CountTilingBlocks(cfg, Encode(cfg, x, dx).value, Cells(cfg, x, dx));
  }

  /** The lowest observation (-1.2, -0.07) sets bit 0: cell 0 of tiling 0. */
  lemma EncodeLowestCorner(cfg: Config)
    requires Valid(cfg) && cfg.nTilings >= 1
    ensures Encode(cfg, MinX, -MaxSpeed).Some?
    ensures Encode(cfg, MinX, -MaxSpeed).value[0]
  {
    EncodeOneHotBlocks(cfg, MinX, -MaxSpeed);
    assert Row(cfg, MinX, -MaxSpeed, 0) == 0;
    assert Col(cfg, MinX, -MaxSpeed, 0) == 0;
    assert Block(cfg, Encode(cfg, MinX, -MaxSpeed).value, 0)[0];
  }

  /** With one tiling of resolution one, the upper corner (0.5, 0.07) itself
      sets the highest bit, (R+1)^2 - 1 = 3. */
  lemma EncodeUpperCorner()
    ensures Encode(Config(1, 1), MaxX, MaxSpeed).Some?
    ensures Encode(Config(1, 1), MaxX, MaxSpeed).value[3]
  {
    var cfg := Config(1, 1);
    EncodeOneHotBlocks(cfg, MaxX, MaxSpeed);
    assert Row(cfg, MaxX, MaxSpeed, 0) == 1;
    assert Col(cfg, MaxX, MaxSpeed, 0) == 1;
    assert Block(cfg, Encode(cfg, MaxX, MaxSpeed).value, 0)[3];
  }

  /** Truncation sends a value of [0, 1] to 1 exactly at 1 itself. */
  lemma TruncUnit(r: real)
    requires 0.0 <= r <= 1.0
    ensures Trunc(r) == 0 || Trunc(r) == 1
    ensures Trunc(r) == 1 <==> r == 1.0
  {
  }

  /** With one tiling of resolution one the grid is 2 x 2 and the set bit
      is `2 * row + column`; the top row is reached only at speed `0.07`
      and the right column only at position `0.5`, so every other
      observation of the box lands in the lower-left tile or its two
      neighbours. */
  lemma {:induction false} EncodeUnitGrid(x: real, dx: real)
    requires InRange(x, dx)
    ensures Encode(Config(1, 1), x, dx).Some?
    ensures |Encode(Config(1, 1), x, dx).value| == 4
    ensures forall k :: 0 <= k < 4 ==>
              (Encode(Config(1, 1), x, dx).value[k] <==>
               k == (if dx == MaxSpeed then 2 else 0) + (if x == MaxX then 1 else 0))
  {
    var cfg := Config(1, 1);
    EncodeOneHotBlocks(cfg, x, dx);
    var v := Encode(cfg, x, dx).value;
    assert Block(cfg, v, 0) == v;
    TruncUnit(NormY(dx));
    TruncUnit(NormX(x));
    assert Row(cfg, x, dx, 0) == Trunc(NormY(dx));
    assert Col(cfg, x, dx, 0) == Trunc(NormX(x));
    assert NormY(dx) == 1.0 <==> dx == MaxSpeed;
    assert NormX(x) == 1.0 <==> x == MaxX;
  }

  /** Hence the highest bit of that grid is set exactly at the upper corner
      `(0.5, 0.07)`: a point below it in both coordinates, however close
      (such as `(0.49, 0.069)`), sets bit 0, the same bit as the lowest
      corner. */
  lemma EncodeBelowCorner(x: real, dx: real)
    requires InRange(x, dx) && x < MaxX && dx < MaxSpeed
    ensures Encode(Config(1, 1), x, dx).Some?
    ensures Encode(Config(1, 1), x, dx).value[0]
    ensures !Encode(Config(1, 1), x, dx).value[3]
  {
    EncodeUnitGrid(x, dx);
  }
}
