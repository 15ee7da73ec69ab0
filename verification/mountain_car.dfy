/** The mountain-car environment: an under-powered car in a valley that must
    rock back and forth to reach the goal at position 0.5.

    The gravity term `cos(3x)` of a step and every random draw are passed in
    as parameters. */
module MountainCar {
  import TileCoding

  /** Position `x` and velocity `dx`. */
  datatype Car = Car(x: real, dx: real)

  const Goal: real := TileCoding.MaxX
  const LeftWall: real := TileCoding.MinX
  const MaxSpeed: real := TileCoding.MaxSpeed

  /** The three actions: coast, push right, push left, in the order the
      environment lists them before shuffling. */
  const Actions: seq<real> := [0.0, 1.0, -1.0]

  /** The box the encoder is built for. */
  predicate InBounds(c: Car) {
    TileCoding.InRange(c.x, c.dx)
  }

  datatype Outcome = Outcome(car: Car, reward: real)

  function ClampSpeed(v: real): (r: real)
    ensures -MaxSpeed <= r <= MaxSpeed
    ensures -MaxSpeed <= v <= MaxSpeed ==> r == v
  {
    if v < -MaxSpeed then -MaxSpeed else if v > MaxSpeed then MaxSpeed else v
  }

  /** The speed after one push: the old speed, plus `0.001` per unit of
      push, minus the gravity term `0.0025 * cos3x`, clamped to +-0.07. */
  function NewSpeed(c: Car, direction: real, cos3x: real): real {
    ClampSpeed(c.dx + 0.001 * direction - 0.0025 * cos3x)
  }

  /** One step under push `direction`; `cos3x` stands for `cos(3 * c.x)` and
      may be any real, the bounds below hold regardless.  The car moves by
      its new speed; at or past the left wall it stops there, at or past the
      goal it is placed on the goal and paid 0, and every other step costs
      1. */
  function Transition(c: Car, direction: real, cos3x: real): (o: Outcome)
    ensures InBounds(o.car)
    ensures o.reward == 0.0 || o.reward == -1.0
    ensures o.reward == 0.0 <==> o.car.x == Goal
    ensures o.reward == 0.0 ==> Terminal(o.car)
    ensures c.x + NewSpeed(c, direction, cos3x) <= LeftWall ==>
              o == Outcome(Car(LeftWall, 0.0), -1.0)
    ensures LeftWall < c.x + NewSpeed(c, direction, cos3x) < Goal ==>
              o == Outcome(Car(c.x + NewSpeed(c, direction, cos3x), NewSpeed(c, direction, cos3x)), -1.0)
    ensures Goal <= c.x + NewSpeed(c, direction, cos3x) ==>
              o == Outcome(Car(Goal, NewSpeed(c, direction, cos3x)), 0.0)
  {
    var dx := NewSpeed(c, direction, cos3x);
    var x := c.x + dx;
    var (x, dx) := if x <= LeftWall then (LeftWall, 0.0) else (x, dx);
    if x >= Goal then Outcome(Car(Goal, dx), 0.0)
    else Outcome(Car(x, dx), -1.0)
  }

  /** The episode ends within a thousandth of the goal: a car on the goal
      is finished, and a finished car inside the box lies in the last
      thousandth below it. */
  function Terminal(c: Car): (r: bool)
    ensures Goal <= c.x ==> r
    ensures r && InBounds(c) ==> Goal - 0.001 < c.x <= Goal
  {
    Goal - c.x < 0.001
  }

  /** A fresh car: at rest, at `u * 0.2 - 0.6` for a uniform draw `u`. */
  function InitialCar(u: real): (c: Car)
    requires 0.0 <= u < 1.0
    ensures InBounds(c) && !Terminal(c)
    ensures -0.6 <= c.x < -0.4 && c.dx == 0.0
  {
    Car(u * 0.2 - 0.6, 0.0)
  }

  function Swap(s: seq<real>, i: nat, j: nat): (r: seq<real>)
    requires i < |s| && j < |s|
    ensures |r| == |s|
    ensures r[i] == s[j] && r[j] == s[i]
    ensures forall k :: 0 <= k < |s| && k != i && k != j ==> r[k] == s[k]
  {
    s[i := s[j]][j := s[i]]
  }

  /** A swap only reorders the list. */
  lemma SwapPermutes(s: seq<real>, i: nat, j: nat)
    requires i < |s| && j < |s|
    ensures multiset(Swap(s, i, j)) == multiset(s)
  {
  }

  /** The legal actions, shuffled with the draws `j1 < 3` and `j2 < 2`. */
  function LegalActions(j1: nat, j2: nat): (r: seq<real>)
    requires j1 < 3 && j2 < 2
    ensures |r| == 3
    ensures IsOrderOfActions(r)
  {
    Swap(Swap(Actions, 2, j1), 1, j2)
  }

  /** Different draws give different orders, so the six draws reach the six
      orders of the three actions once each. */
  lemma LegalActionsInjective(j1: nat, j2: nat, k1: nat, k2: nat)
    requires j1 < 3 && j2 < 2 && k1 < 3 && k2 < 2
    requires LegalActions(j1, j2) == LegalActions(k1, k2)
    ensures j1 == k1 && j2 == k2
  {
    var r := LegalActions(j1, j2);
    assert r[2] == Actions[j1];
    assert LegalActions(k1, k2)[2] == Actions[k1];
  }

  /** `p` lists each of the three actions exactly once. */
  predicate IsOrderOfActions(p: seq<real>) {
    |p| == 3 && p[0] in Actions && p[1] in Actions && p[2] in Actions
    && p[0] != p[1] && p[1] != p[2] && p[0] != p[2]
  }

  /** The six shuffles, written out. */
  lemma LegalActionsTable()
    ensures LegalActions(0, 0) == [1.0, -1.0, 0.0] && LegalActions(0, 1) == [-1.0, 1.0, 0.0]
    ensures LegalActions(1, 0) == [-1.0, 0.0, 1.0] && LegalActions(1, 1) == [0.0, -1.0, 1.0]
    ensures LegalActions(2, 0) == [1.0, 0.0, -1.0] && LegalActions(2, 1) == [0.0, 1.0, -1.0]
  {
  }

  /** Every order of the three actions is produced by some draw. */
  lemma LegalActionsCoverAll(p: seq<real>)
    requires IsOrderOfActions(p)
    ensures exists j1: nat, j2: nat :: j1 < 3 && j2 < 2 && LegalActions(j1, j2) == p
  {
    LegalActionsTable();
    if p[2] == 0.0 {
      if p[0] == 1.0 {
        assert p == LegalActions(0, 0);
      } else {
        assert p == LegalActions(0, 1);
      }
    } else if p[2] == 1.0 {
      if p[0] == -1.0 {
        assert p == LegalActions(1, 0);
      } else {
        assert p == LegalActions(1, 1);
      }
    } else {
      if p[0] == 1.0 {
        assert p == LegalActions(2, 0);
      } else {
        assert p == LegalActions(2, 1);
      }
    }
  }
}
