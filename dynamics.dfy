/**
 * The cycle dynamics of an IAC network, as values: the two update formulas,
 * the rectified net input, one synchronous cycle and a run of cycles.
 * Activations and weights are exact reals.
 */
module Dynamics {

  import opened Topology

  /** The integration step applied to every update. */
  const Rate: real := 0.1

  /** The configuration scalars fixed at construction. */
  datatype Params = Params(min: real, max: real, decay: real, rest: real)

  /**
   * gt_update: the change rate of a node with positive net input, pulled
   * towards max in proportion to the headroom and back towards rest by decay.
   */
  function GtUpdate(p: Params, a: real, net: real): (d: real)
    ensures net > 0.0 && a < p.max && a <= p.rest && p.decay >= 0.0 ==> d > 0.0
    ensures a == p.max && a >= p.rest && p.decay >= 0.0 ==> d <= 0.0
  {
    (p.max - a) * net - p.decay * (a - p.rest)
  }

  /**
   * lt_update: the change rate of a node with negative net input, pulled
   * towards min in proportion to a - min and back towards rest by decay.
   */
  function LtUpdate(p: Params, a: real, net: real): (d: real)
    ensures net < 0.0 && a > p.min && a >= p.rest && p.decay >= 0.0 ==> d < 0.0
    ensures a == p.min && a <= p.rest && p.decay >= 0.0 ==> d >= 0.0
  {
    (a - p.min) * net - p.decay * (a - p.rest)
  }

  /**
   * The new activation of one node: the formula is chosen by the sign of its
   * net input, and a node whose net input is exactly zero is left as it is
   * (no decay applies to it). Nothing is clamped.
   */
  function Step(p: Params, a: real, net: real): (a': real)
    ensures net == 0.0 ==> a' == a
    ensures net > 0.0 && a < p.max && a <= p.rest && p.decay >= 0.0 ==> a' > a
    ensures net < 0.0 && a > p.min && a >= p.rest && p.decay >= 0.0 ==> a' < a
  {
    if net > 0.0 then a + Rate * GtUpdate(p, a, net)
    else if net < 0.0 then a + Rate * LtUpdate(p, a, net)
    else a
  }

  /** A node's output: its activation when positive, else 0 (a * (a > 0)). */
  function Relu(x: real): (y: real)
    ensures y >= 0.0 && (y == x || y == 0.0)
  {
    if x > 0.0 then x else 0.0
  }

  /** The outputs of all nodes: relu applied entry by entry. */
  function Rectified(act: seq<real>): (out: seq<real>)
    ensures |out| == |act|
    ensures forall j :: 0 <= j < |act| ==> out[j] >= 0.0 && out[j] >= act[j]
    ensures forall j :: 0 <= j < |act| && act[j] > 0.0 ==> out[j] == act[j]
  {
    seq(|act|, j requires 0 <= j < |act| => Relu(act[j]))
  }

  /** The dot product of two vectors of one length. */
  function Dot(u: seq<real>, v: seq<real>): real
    requires |u| == |v|
  {
    if |u| == 0 then 0.0 else Dot(u[..|u| - 1], v[..|v| - 1]) + u[|u| - 1] * v[|v| - 1]
  }

  /** A vector of zeros contributes nothing, whatever the weights. */
  lemma {:induction false} DotZero(u: seq<real>, v: seq<real>)
    requires |u| == |v| && forall j :: 0 <= j < |v| ==> v[j] == 0.0
    ensures Dot(u, v) == 0.0
  {
    if |u| > 0 {
      DotZero(u[..|u| - 1], v[..|v| - 1]);
    }
  }

  /** Entries whose products are all zero contribute nothing to the dot product. */
  lemma {:induction false} DotNoOverlap(u: seq<real>, v: seq<real>)
    requires |u| == |v| && forall j :: 0 <= j < |u| ==> u[j] * v[j] == 0.0
    ensures Dot(u, v) == 0.0
  {
    if |u| > 0 {
      DotNoOverlap(u[..|u| - 1], v[..|v| - 1]);
    }
  }

  /**
   * When every product but the one at j is zero, the dot product is that one
   * product: a node fed by a single active neighbour receives exactly the
   * weight times that neighbour's output.
   */
  lemma {:induction false} DotSingle(u: seq<real>, v: seq<real>, j: nat)
    requires |u| == |v| && j < |u|
    requires forall k :: 0 <= k < |u| && k != j ==> u[k] * v[k] == 0.0
    ensures Dot(u, v) == u[j] * v[j]
  {
    var n := |u| - 1;
    if j == n {
      DotNoOverlap(u[..n], v[..n]);
    } else {
      DotSingle(u[..n], v[..n], j);
    }
  }

  /**
   * External inputs are given as parallel sequences: node ks[t] receives
   * vs[t]. They fit n nodes when every index is in range and no node is
   * named twice (the inputs come from a dictionary keyed by unit).
   */
  predicate InputsFit(ks: seq<nat>, vs: seq<real>, n: nat) {
    |ks| == |vs| && Distinct(ks) && forall t :: 0 <= t < |ks| ==> ks[t] < n
  }

  /** The external input node x receives: its input value, or 0 when it has none. */
  function ExternalInput(ks: seq<nat>, vs: seq<real>, x: nat): (e: real)
    requires |ks| == |vs|
    ensures x !in ks ==> e == 0.0
    ensures forall t :: 0 <= t < |ks| && ks[t] == x && Distinct(ks) ==> e == vs[t]
  {
    assert Distinct(ks) ==> forall t :: 0 <= t < |ks| ==> IndexOf(ks, ks[t]) == t;
    if x in ks then vs[IndexOf(ks, x)] else 0.0
  }

  /** One more input adds its value to the external input of its node alone. */
  lemma ExternalInputSnoc(ks: seq<nat>, vs: seq<real>, k: nat, v: real, x: nat)
    requires |ks| == |vs| && k !in ks
    ensures ExternalInput(ks + [k], vs + [v], x) == ExternalInput(ks, vs, x) + (if x == k then v else 0.0)
  {
    if x in ks + [k] {
      IndexOfSnoc(ks, k, x);
    }
  }

  /** a[k] = v: every input node is overwritten with its input value. */
  function Inject(act: seq<real>, ks: seq<nat>, vs: seq<real>): (act': seq<real>)
    requires |ks| == |vs|
    ensures |act'| == |act|
    ensures forall t :: 0 <= t < |ks| && ks[t] < |act| && Distinct(ks) ==> act'[ks[t]] == vs[t]
    ensures forall x :: 0 <= x < |act| && x !in ks ==> act'[x] == act[x]
  {
    assert Distinct(ks) ==> forall t :: 0 <= t < |ks| ==> IndexOf(ks, ks[t]) == t;
    seq(|act|, x requires 0 <= x < |act| => if x in ks then vs[IndexOf(ks, x)] else act[x])
  }

  /** Injecting one more input overwrites one more node. */
  lemma InjectSnoc(act: seq<real>, ks: seq<nat>, vs: seq<real>, k: nat, v: real)
    requires |ks| == |vs| && k < |act| && k !in ks
    ensures Inject(act, ks + [k], vs + [v]) == Inject(act, ks, vs)[k := v]
  {
    forall x | 0 <= x < |act| && x in ks + [k]
      ensures Inject(act, ks + [k], vs + [v])[x] == Inject(act, ks, vs)[k := v][x]
    {
      IndexOfSnoc(ks, k, x);
    }
  }

  /** net = W @ relu(a), then the external input is added to it. */
  function Net(m: Matrix, act: seq<real>, ks: seq<nat>, vs: seq<real>): (net: seq<real>)
    requires IsSquare(m) && |m| == |act| && |ks| == |vs|
    ensures |net| == |act|
  {
    seq(|act|, x requires 0 <= x < |act| => Dot(m[x], Rectified(act)) + ExternalInput(ks, vs, x))
  }

  /**
   * Only positive activations feed the network: when there are none, each
   * node's net input is its external input alone, whatever the weights.
   */
  lemma NetWithoutOutput(m: Matrix, act: seq<real>, ks: seq<nat>, vs: seq<real>, x: nat)
    requires IsSquare(m) && |m| == |act| && |ks| == |vs| && x < |act|
    requires forall y :: 0 <= y < |act| ==> act[y] <= 0.0
    ensures Net(m, act, ks, vs)[x] == ExternalInput(ks, vs, x)
  {
    DotZero(m[x], Rectified(act));
  }

  /**
   * One cycle. Every node is updated from the net input computed from the
   * activations at the start of the cycle, so the update is synchronous.
   */
  function Cycle(p: Params, m: Matrix, act: seq<real>, ks: seq<nat>, vs: seq<real>): (act': seq<real>)
    requires IsSquare(m) && |m| == |act| && |ks| == |vs|
    ensures |act'| == |act|
  {
    var net := Net(m, act, ks, vs);
    seq(|act|, x requires 0 <= x < |act| => Step(p, act[x], net[x]))
  }

  /**
   * Which way a cycle moves each node, decided by that node's net input from
   * the activations at the start of the cycle: not at all when it is zero,
   * up from below max and rest when it is positive, down from above min and
   * rest when it is negative.
   */
  lemma CycleMoves(p: Params, m: Matrix, act: seq<real>, ks: seq<nat>, vs: seq<real>, x: nat)
    requires IsSquare(m) && |m| == |act| && |ks| == |vs| && x < |act|
    requires p.decay >= 0.0
    ensures var net, act' := Net(m, act, ks, vs)[x], Cycle(p, m, act, ks, vs)[x];
      (net == 0.0 ==> act' == act[x]) &&
      (net > 0.0 && act[x] < p.max && act[x] <= p.rest ==> act' > act[x]) &&
      (net < 0.0 && act[x] > p.min && act[x] >= p.rest ==> act' < act[x])
  {
  }

  /** n cycles one after the other; a count of zero or less runs none (range(n)). */
  function Run(p: Params, m: Matrix, act: seq<real>, ks: seq<nat>, vs: seq<real>, n: int): (act': seq<real>)
    requires IsSquare(m) && |m| == |act| && |ks| == |vs|
    ensures |act'| == |act|
    ensures n <= 0 ==> act' == act
    decreases n
  {
    if n <= 0 then act else Cycle(p, m, Run(p, m, act, ks, vs, n - 1), ks, vs)
  }

  /**
   * With no positive activation anywhere and every input value zero, no node
   * has any net input, so a cycle changes nothing, whatever the decay.
   */
  lemma QuietCycle(p: Params, m: Matrix, act: seq<real>, ks: seq<nat>, vs: seq<real>)
    requires IsSquare(m) && |m| == |act| && |ks| == |vs|
    requires forall x :: 0 <= x < |act| ==> act[x] <= 0.0
    requires forall t :: 0 <= t < |vs| ==> vs[t] == 0.0
    ensures Cycle(p, m, act, ks, vs) == act
  {
    var net := Net(m, act, ks, vs);
    forall x | 0 <= x < |act| ensures net[x] == 0.0 {
      NetWithoutOutput(m, act, ks, vs, x);
    }
  }

  /** Activations at or below zero, with zero inputs, stay where they are for any number of cycles. */
  lemma {:induction false} QuietRun(p: Params, m: Matrix, act: seq<real>, ks: seq<nat>, vs: seq<real>, n: int)
    requires IsSquare(m) && |m| == |act| && |ks| == |vs|
    requires forall x :: 0 <= x < |act| ==> act[x] <= 0.0
    requires forall t :: 0 <= t < |vs| ==> vs[t] == 0.0
    ensures Run(p, m, act, ks, vs, n) == act
    decreases n
  {
    if n > 0 {
      QuietRun(p, m, act, ks, vs, n - 1);
      QuietCycle(p, m, act, ks, vs);
    }
  }

  /** One more cycle after n cycles, with the state after n cycles named `cur`. */
  lemma RunNext(p: Params, m: Matrix, act: seq<real>, ks: seq<nat>, vs: seq<real>, n: nat, cur: seq<real>)
    requires IsSquare(m) && |m| == |act| && |ks| == |vs|
    requires cur == Run(p, m, act, ks, vs, n)
    ensures Run(p, m, act, ks, vs, n + 1) == Cycle(p, m, cur, ks, vs)
  {
  }

  /** Run composes: n + 1 cycles are one cycle after n cycles, and n cycles after one. */
  lemma {:induction false} RunShift(p: Params, m: Matrix, act: seq<real>, ks: seq<nat>, vs: seq<real>, n: nat)
    requires IsSquare(m) && |m| == |act| && |ks| == |vs|
    ensures Run(p, m, Cycle(p, m, act, ks, vs), ks, vs, n) == Run(p, m, act, ks, vs, n + 1)
    decreases n
  {
    if n > 0 {
      RunShift(p, m, act, ks, vs, n - 1);
    }
  }

  /**
   * Activations resting above zero drift even when every node starts at rest,
   * there is no decay and the only input holds a unit at rest: in a single
   * two-unit pool with rest = 0.5 and the input y = 0.5, the pool's members
   * inhibit each other and x falls from 0.5 to 0.425 in the first cycle.
   */
  lemma RestAboveZeroDrifts()
    ensures var p := Params(-1.0, 1.0, 0.0, 0.5);
      var m := InitialWeights([["x", "y"]], ["x", "y"], 2);
      var act := Inject([0.5, 0.5, 0.5, 0.5], [1], [0.5]);
      Run(p, m, act, [1], [0.5], 1)[0] == 0.425
  {
    var pools, nodes := [["x", "y"]], ["x", "y"];
    var m := InitialWeights(pools, nodes, 2);
    var act := Inject([0.5, 0.5, 0.5, 0.5], [1], [0.5]);
    assert act == [0.5, 0.5, 0.5, 0.5];
    assert SamePool(pools, nodes[0], nodes[1]) by {
      assert nodes[0] in pools[0] && nodes[1] in pools[0];
    }
    assert InitialWeight(pools, nodes, 0, 1) == -1.0;
    var out := Rectified(act);
    DotSingle(m[0], out, 1);
    assert Net(m, act, [1], [0.5])[0] == -0.5;
    assert Run(Params(-1.0, 1.0, 0.0, 0.5), m, act, [1], [0.5], 1) == Cycle(Params(-1.0, 1.0, 0.0, 0.5), m, act, [1], [0.5]);
  }
}
