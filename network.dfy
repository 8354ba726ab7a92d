/**
 * The IACNet class: an IAC network whose weight matrix W and activation
 * column a are arrays updated in place. The ghost field M mirrors W as a
 * value, so that each method's effect is stated with the functions of
 * modules Topology and Dynamics.
 */
module Network {

  import opened Topology
  import opened Dynamics

  class IacNet {
    const min: real
    const max: real
    const decay: real
    const rest: real

    /** The pools given at construction (the object itself keeps only maxPool and nodes). */
    ghost const pools: seq<seq<Unit>>
    /** The anchor pool: the first pool of the largest size; hub slot -(p + 1) belongs to its member p. */
    const maxPool: seq<Unit>
    /** The real units; a unit's index in the matrix is its position here. */
    const nodes: seq<Unit>
    /** The number of nodes: all pool members plus one hub slot per member of the anchor pool. */
    const N: nat

    const W: array2<real>
    const a: array<real>
    ghost var M: Matrix

    ghost predicate Valid()
      reads this, W
    {
      && WellFormed(nodes, maxPool)
      && N == |nodes| + |maxPool|
      && (|maxPool| == 0 ==> |nodes| == 0)  // the anchor pool is the largest one
      && Mirrored()
      && Symmetric(M) && ZeroDiagonal(M)
    }

    /** W and a have N rows, and W holds the weights of M. */
    ghost predicate Mirrored()
      reads this, W
    {
      && W.Length0 == N && W.Length1 == N && a.Length == N
      && |M| == N && IsSquare(M)
      && (forall r, c :: 0 <= r < N && 0 <= c < N ==> W[r, c] == M[r][c])
    }

    function Config(): Params {
      Params(min, max, decay, rest)
    }

    /**
     * Builds the network over `pools`, its real units numbered in the order
     * `order` (any arrangement of the pool members), with every activation
     * at rest and the weights of InitialWeights.
     */
    constructor (pools: seq<seq<Unit>>, order: seq<Unit>, min: real, max: real, decay: real, rest: real)
      requires |pools| > 0
      requires Distinct(Flatten(pools))
      requires multiset(order) == multiset(Flatten(pools))
      ensures Valid() && fresh(W) && fresh(a)
      ensures this.pools == pools && nodes == order
      ensures maxPool == pools[AnchorIndex(pools)] && |maxPool| == MaxSize(pools)
      ensures N == TotalSize(pools) + MaxSize(pools)
      ensures Config() == Params(min, max, decay, rest)
      ensures M == InitialWeights(pools, order, MaxSize(pools))
      ensures forall x :: 0 <= x < N ==> a[x] == rest
    {
      var maxSize := MaxSize(pools);
      var n := TotalSize(pools) + maxSize;
      this.min, this.max, this.decay, this.rest := min, max, decay, rest;
      this.pools := pools;
      maxPool := pools[AnchorIndex(pools)];
      nodes := order;
      N := n;
      W := new real[n, n]((r, c) => 0.0);
      a := new real[n](_ => rest);
      M := Zeros(n);
      new;
      AnchorInNodes(pools, order);
      forall k, x | 0 <= k < |pools| && x in pools[k] ensures x in nodes {
        FlattenHas(pools, k, x);
        assert x in multiset(nodes);
      }
      Wire(pools);
    }

    /** main.py lines 19-27 on a fresh all-zero W: the pool inhibitions, then the hub block. */
    method Wire(pools: seq<seq<Unit>>)
      requires Valid() && Distinct(Flatten(pools))
      requires forall k, x :: 0 <= k < |pools| && x in pools[k] ==> x in nodes
      requires forall r, c :: 0 <= r < N && 0 <= c < N ==> M[r][c] == 0.0
      modifies this`M, W
      ensures Valid()
      ensures M == InitialWeights(pools, nodes, |maxPool|)
    {
      InhibitPools(pools);
      ghost var mid := M;
      InhibitHub();
      BuiltWeights(pools, nodes, |maxPool|, mid, M);
    }

    /** The pool inhibitions followed by the hub block give exactly InitialWeights. */
    static lemma BuiltWeights(pools: seq<seq<Unit>>, order: seq<Unit>, hubs: nat, mid: Matrix, m: Matrix)
      requires |mid| == |m| == |order| + hubs && IsSquare(mid) && IsSquare(m)
      requires forall r, c {:trigger mid[r][c]} :: 0 <= r < |m| && 0 <= c < |m| ==>
        mid[r][c] == if r < |order| && c < |order| && r != c && SamePool(pools, order[r], order[c])
                     then -1.0 else 0.0
      requires forall r, c :: 0 <= r < |m| && 0 <= c < |m| ==>
        m[r][c] == if |order| <= r && |order| <= c then (if r == c then 0.0 else -1.0) else mid[r][c]
      ensures m == InitialWeights(pools, order, hubs)
    {
      var target := InitialWeights(pools, order, hubs);
      forall r | 0 <= r < |m| ensures m[r] == target[r] {
        forall c | 0 <= c < |m| ensures m[r][c] == target[r][c] {
          var w := InitialWeight(pools, order, r, c);
          assert target[r][c] == w;
          if |order| <= r && |order| <= c {
            assert m[r][c] == w;
          } else {
            assert m[r][c] == mid[r][c];
          }
        }
      }
    }

    /** main.py lines 20-23: the members of every pool inhibit each other, and nothing else is joined. */
    method InhibitPools(pools: seq<seq<Unit>>)
      requires Valid() && Distinct(Flatten(pools))
      requires forall k, x :: 0 <= k < |pools| && x in pools[k] ==> x in nodes
      requires forall r, c :: 0 <= r < N && 0 <= c < N ==> M[r][c] == 0.0
      modifies this`M, W
      ensures Valid()
      ensures forall r, c :: 0 <= r < N && 0 <= c < N ==>
        M[r][c] == if r < |nodes| && c < |nodes| && r != c && SamePool(pools, nodes[r], nodes[c])
                   then -1.0 else 0.0
    {
      var k := 0;
      while k < |pools|
        invariant 0 <= k <= |pools|
        invariant Valid()
        invariant forall r, c {:trigger M[r][c]} :: 0 <= r < N && 0 <= c < N ==>
          M[r][c] == if r < |nodes| && c < |nodes| && r != c && SamePool(pools[..k], nodes[r], nodes[c])
                     then -1.0 else 0.0
      {
        FlattenDistinct(pools, k);
        InhibitPool(pools[k]);
        forall r, c | 0 <= r < |nodes| && 0 <= c < |nodes| {
          SamePoolExtend(pools, k, nodes[r], nodes[c]);
        }
        k := k + 1;
      }
      assert pools[..k] == pools;
      forall r, c | 0 <= r < N && 0 <= c < N
        ensures M[r][c] == if r < |nodes| && c < |nodes| && r != c && SamePool(pools, nodes[r], nodes[c])
                           then -1.0 else 0.0
      {
        assert M[r][c] == if r < |nodes| && c < |nodes| && r != c && SamePool(pools[..k], nodes[r], nodes[c])
                          then -1.0 else 0.0;
        if r < |nodes| && c < |nodes| {
          assert SamePool(pools[..k], nodes[r], nodes[c]) == SamePool(pools, nodes[r], nodes[c]);
        }
      }
    }

    /** The anchor pool's members are real units, and the real units are as many as all pool members. */
    static lemma AnchorInNodes(pools: seq<seq<Unit>>, order: seq<Unit>)
      requires |pools| > 0
      requires Distinct(Flatten(pools))
      requires multiset(order) == multiset(Flatten(pools))
      ensures |order| == TotalSize(pools)
      ensures Distinct(order)
      ensures forall x :: x in pools[AnchorIndex(pools)] ==> x in order
      ensures |pools[AnchorIndex(pools)]| == 0 ==> |order| == 0
    {
      if MaxSize(pools) == 0 {
        NoUnitsWithoutLargest(pools);
      }
      assert |order| == |multiset(order)| == |multiset(Flatten(pools))| == |Flatten(pools)|;
      forall x | x in pools[AnchorIndex(pools)] ensures x in order {
        FlattenHas(pools, AnchorIndex(pools), x);
        assert x in multiset(order);
      }
      forall x ensures multiset(order)[x] <= 1 {
        DistinctOnce(Flatten(pools), x);
      }
      OnceDistinct(order);
    }

    /** A sequence in which no unit occurs twice has no repetition. */
    static lemma {:induction false} OnceDistinct(s: seq<Unit>)
      requires forall x :: multiset(s)[x] <= 1
      ensures Distinct(s)
    {
      if |s| > 0 {
        var tail := s[1..];
        assert s == [s[0]] + tail;
        assert forall x :: multiset(s)[x] == multiset([s[0]])[x] + multiset(tail)[x];
        OnceDistinct(tail);
        assert s[0] !in multiset(tail);
        forall i, j | 0 <= i < j < |s| ensures s[i] != s[j] {
          assert s[j] == tail[j - 1];
          if i > 0 {
            assert s[i] == tail[i - 1];
          }
        }
      }
    }

    /** A unit of a sequence without repetition occurs in it once. */
    static lemma {:induction false} DistinctOnce(s: seq<Unit>, x: Unit)
      requires Distinct(s)
      ensures multiset(s)[x] <= 1
    {
      if |s| > 0 {
        assert s == [s[0]] + s[1..];
        assert Distinct(s[1..]);
        DistinctOnce(s[1..], x);
        if x == s[0] {
          assert x !in s[1..];
        }
      }
    }

    /** main.py lines 21-23 for one pool: every pair of distinct members is joined with weight -1. */
    method InhibitPool(pool: seq<Unit>)
      requires Valid()
      requires Distinct(pool) && forall x :: x in pool ==> x in nodes
      modifies this`M, W
      ensures Valid()
      ensures forall r, c :: 0 <= r < N && 0 <= c < N ==>
        M[r][c] == if r < |nodes| && c < |nodes| && r != c && nodes[r] in pool && nodes[c] in pool
                   then -1.0 else old(M)[r][c]
    {
      ghost var m0 := M;
      var i := 0;
      while i < |pool|
        invariant 0 <= i <= |pool|
        invariant Valid()
        invariant forall r, c :: 0 <= r < N && 0 <= c < N ==>
          M[r][c] == if PairDone(pool, r, c, i, 0) then -1.0 else m0[r][c]
      {
        var j := i + 1;
        while j < |pool|
          invariant i + 1 <= j <= |pool|
          invariant Valid()
          invariant forall r, c :: 0 <= r < N && 0 <= c < N ==>
            M[r][c] == if PairDone(pool, r, c, i, j) then -1.0 else m0[r][c]
        {
          ghost var before := M;
          assert pool[i] != pool[j] && pool[i] in nodes && pool[j] in nodes;
          var e := AddConnection(pool[i], pool[j], -1.0, true);
          assert M == SetPair(before, IndexOf(nodes, pool[i]), IndexOf(nodes, pool[j]), -1.0);
          InhibitStep(pool, i, j, m0, before);
          j := j + 1;
        }
        forall r, c | 0 <= r < N && 0 <= c < N ensures PairDone(pool, r, c, i, j) == PairDone(pool, r, c, i + 1, 0) {
        }
        i := i + 1;
      }
    }

    /**
     * Nodes r and c are distinct members of `pool`, and their pair comes
     * before (i, j) in the order the nested loops visit pairs.
     */
    ghost predicate PairDone(pool: seq<Unit>, r: nat, c: nat, i: nat, j: nat) {
      && r < |nodes| && c < |nodes| && r != c && nodes[r] in pool && nodes[c] in pool
      && var s, t := IndexOf(pool, nodes[r]), IndexOf(pool, nodes[c]);
         var lo, hi := if s < t then s else t, if s < t then t else s;
         lo < i || (lo == i && hi < j)
    }

    /** Joining the pair (i, j) extends the pairs done up to (i, j) by that pair. */
    lemma InhibitStep(pool: seq<Unit>, i: nat, j: nat, m0: Matrix, before: Matrix)
      requires Distinct(nodes) && Distinct(pool) && forall x :: x in pool ==> x in nodes
      requires i < j < |pool| && |nodes| <= N && IsSquare(before) && |before| == N && IsSquare(m0) && |m0| == N
      requires forall r, c :: 0 <= r < N && 0 <= c < N ==>
        before[r][c] == if PairDone(pool, r, c, i, j) then -1.0 else m0[r][c]
      ensures var after := SetPair(before, IndexOf(nodes, pool[i]), IndexOf(nodes, pool[j]), -1.0);
        forall r, c :: 0 <= r < N && 0 <= c < N ==>
          after[r][c] == if PairDone(pool, r, c, i, j + 1) then -1.0 else m0[r][c]
    {
      PairDoneStep(pool, i, j);
    }

    lemma PairDoneStep(pool: seq<Unit>, i: nat, j: nat)
      requires Distinct(nodes) && Distinct(pool) && forall x :: x in pool ==> x in nodes
      requires i < j < |pool|
      ensures forall r, c :: 0 <= r < N && 0 <= c < N ==>
        (PairDone(pool, r, c, i, j + 1) <==>
         PairDone(pool, r, c, i, j) ||
         (r == IndexOf(nodes, pool[i]) && c == IndexOf(nodes, pool[j])) ||
         (r == IndexOf(nodes, pool[j]) && c == IndexOf(nodes, pool[i])))
    {
      IndexOfDistinct(pool, i);
      IndexOfDistinct(pool, j);
      forall r, c | 0 <= r < N && 0 <= c < N
        ensures PairDone(pool, r, c, i, j + 1) <==>
          PairDone(pool, r, c, i, j) ||
          (r == IndexOf(nodes, pool[i]) && c == IndexOf(nodes, pool[j])) ||
          (r == IndexOf(nodes, pool[j]) && c == IndexOf(nodes, pool[i]))
      {
        if r < |nodes| && c < |nodes| {
          IndexOfDistinct(nodes, r);
          IndexOfDistinct(nodes, c);
        }
      }
    }

    /** main.py lines 26-27: the trailing hub block becomes -(ones - identity). */
    method InhibitHub()
      requires Valid()
      modifies this`M, W
      ensures Valid()
      ensures forall r, c :: 0 <= r < N && 0 <= c < N ==>
        M[r][c] == if |nodes| <= r && |nodes| <= c then (if r == c then 0.0 else -1.0) else old(M)[r][c]
    {
      ghost var target := WithHubBlock(M, |nodes|);
      var start := PyIndex(N, -|maxPool|);
      var r := start;
      while r < N
        invariant start == |nodes| <= r <= N
        invariant M == old(M) && |M| == N && IsSquare(M)
        invariant forall x, y :: 0 <= x < N && 0 <= y < N ==>
          W[x, y] == if start <= x < r then target[x][y] else M[x][y]
      {
        var c := start;
        while c < N
          invariant start <= c <= N && r < N
          invariant M == old(M) && |M| == N && IsSquare(M)
          invariant forall x, y :: 0 <= x < N && 0 <= y < N ==>
            W[x, y] == if start <= x < r || (x == r && y < c) then target[x][y] else M[x][y]
        {
          W[r, c] := if r == c then 0.0 else -1.0;
          c := c + 1;
        }
        r := r + 1;
      }
      M := target;
    }

    /**
     * add_connection(u, v, w, direct). The lookups and assertions come first,
     * and a failing one leaves W as it was; a direct connection joins u and v
     * themselves, any other goes from u, which must be in the anchor pool,
     * through u's hub slot to v.
     */
    method AddConnection(u: Unit, v: Unit, w: real, direct: bool) returns (e: Outcome)
      requires Valid()
      modifies this`M, W
      ensures Valid()
      ensures e == ConnectionOutcome(nodes, maxPool, u, v, direct)
      ensures M == if e == Pass then Connected(nodes, maxPool, old(M), u, v, w, direct) else old(M)
    {
      if u !in nodes || v !in nodes {
        return ConnectionOutcome(nodes, maxPool, u, v, direct);
      }
      var i, j := IndexOf(nodes, u), IndexOf(nodes, v);
      if i == j {
        return Fail(SelfConnection);
      }
      if direct {
        WritePair(i, j, w);
      } else {
        if u !in maxPool {
          return Fail(SourceNotInLargestPool(u));
        }
        var h := PyIndex(N, -(IndexOf(maxPool, u) + 1));
        assert h == HubSlot(N, |maxPool|, IndexOf(maxPool, u));
        WritePair(i, h, w);
        WritePair(h, j, w);
        assert M == Link(old(M), |nodes|, i, j, h, w);
      }
      assert M == Connected(nodes, maxPool, old(M), u, v, w, direct);
      e := Pass;
    }

    /** W[i, j], W[j, i] = w, w */
    method WritePair(i: nat, j: nat, w: real)
      requires Mirrored() && i < N && j < N
      modifies this`M, W
      ensures Mirrored()
      ensures M == SetPair(old(M), i, j, w)
    {
      W[i, j], W[j, i] := w, w;
      M := SetPair(M, i, j, w);
    }

    /**
     * add_connections: every (key, item) pair is linked through the hub with
     * weight 1, key after key; the first failure ends the call and the links
     * made before it remain.
     */
    method AddConnections(conns: seq<(Unit, seq<Unit>)>) returns (e: Outcome)
      requires Valid()
      modifies this`M, W
      ensures Valid()
      ensures (M, e) == ConnectAll(nodes, maxPool, old(M), Pairs(conns))
    {
      ghost var m0 := M;
      ghost var all := ConnectAll(nodes, maxPool, m0, Pairs(conns));
      assert conns[0..] == conns;
      var k := 0;
      while k < |conns|
        invariant 0 <= k <= |conns|
        invariant Valid()
        invariant all == ConnectAll(nodes, maxPool, M, Pairs(conns[k..]))
      {
        var key, items := conns[k].0, conns[k].1;
        PairsFrom(conns, k);
        ghost var later := Pairs(conns[k + 1..]);
        assert items[0..] == items;
        var t := 0;
        while t < |items|
          invariant 0 <= t <= |items|
          invariant Valid()
          invariant all == ConnectAll(nodes, maxPool, M, Fanout(key, items[t..]) + later)
        {
          FanoutFrom(key, items, t, later);
          ConnectAllCons(nodes, maxPool, M, (key, items[t]), Fanout(key, items[t + 1..]) + later);
          e := AddConnection(key, items[t], 1.0, false);
          if e != Pass {
            return;
          }
          t := t + 1;
        }
        assert Fanout(key, items[t..]) + later == later;
        k := k + 1;
      }
      assert conns[k..] == [];
      e := Pass;
    }

    /**
     * The node index of every input unit, looked up in order; the first
     * unit that is not a node ends the lookup with an error.
     */
    method InputIndices(inputs: seq<(Unit, real)>) returns (r: Result<seq<nat>>)
      ensures r == ResolveInputs(nodes, inputs)
      ensures r.Ok? ==> |r.value| == |inputs|
      ensures r.Ok? ==> forall t :: 0 <= t < |inputs| ==> r.value[t] < |nodes| && nodes[r.value[t]] == inputs[t].0
    {
      var ks: seq<nat> := [];
      var t := 0;
      assert inputs[t..] == inputs;
      assert ResolveInputs(nodes, inputs).Ok? ==> [] + ResolveInputs(nodes, inputs).value == ResolveInputs(nodes, inputs).value;
      while t < |inputs|
        invariant 0 <= t <= |inputs|
        invariant ResolveInputs(nodes, inputs) == Prepend(ks, ResolveInputs(nodes, inputs[t..]))
        invariant |ks| == t && forall s :: 0 <= s < t ==> ks[s] < |nodes| && nodes[ks[s]] == inputs[s].0
      {
        assert inputs[t..][1..] == inputs[t + 1..];
        if inputs[t].0 !in nodes {
          return Err(UnknownUnit(inputs[t].0));
        }
        PrependTwice(ks, [IndexOf(nodes, inputs[t].0)], ResolveInputs(nodes, inputs[t + 1..]));
        ks := ks + [IndexOf(nodes, inputs[t].0)];
        t := t + 1;
      }
      assert inputs[t..] == [];
      assert ks + [] == ks;
      r := Ok(ks);
    }

    /**
     * net = W @ relu(a) with the external input added, from the activations
     * as they are now.
     */
    method NetInput(ks: seq<nat>, vs: seq<real>) returns (net: seq<real>)
      requires Mirrored() && InputsFit(ks, vs, N)
      ensures net == Net(M, a[..], ks, vs)
    {
      ghost var out := Rectified(a[..]);
      net := [];
      var x := 0;
      while x < N
        invariant 0 <= x <= N && |net| == x
        invariant forall y :: 0 <= y < x ==> net[y] == Dot(M[y], out)
      {
        var s := RowInput(x);
        net := net + [s];
        x := x + 1;
      }
      net := AddExternal(net, ks, vs);
    }

    /** Row x of W @ relu(a): the net input node x receives from all nodes. */
    method RowInput(x: nat) returns (s: real)
      requires Mirrored() && x < N
      ensures s == Dot(M[x], Rectified(a[..]))
    {
      ghost var out := Rectified(a[..]);
      s := 0.0;
      var j := 0;
      while j < N
        invariant 0 <= j <= N
        invariant s == Dot(M[x][..j], out[..j])
      {
        assert M[x][..j + 1][..j] == M[x][..j] && out[..j + 1][..j] == out[..j];
        s := s + W[x, j] * Relu(a[j]);
        j := j + 1;
      }
      assert M[x][..j] == M[x] && out[..j] == out;
    }

    /**
     * One pass of the loop body at main.py lines 64-72: the net input is
     * computed once, then the nodes with positive net input are updated, then
     * those with negative net input.
     */
    method CycleOnce(ks: seq<nat>, vs: seq<real>)
      requires Mirrored() && InputsFit(ks, vs, N)
      modifies a
      ensures a[..] == Cycle(Config(), M, old(a[..]), ks, vs)
    {
      var net := NetInput(ks, vs);
      ghost var a0 := a[..];
      var x := 0;
      while x < N
        invariant 0 <= x <= N
        invariant forall y :: 0 <= y < x ==>
          a[y] == if net[y] > 0.0 then a0[y] + Rate * GtUpdate(Config(), a0[y], net[y]) else a0[y]
        invariant forall y :: x <= y < N ==> a[y] == a0[y]
      {
        if net[x] > 0.0 {
          a[x] := a[x] + Rate * GtUpdate(Config(), a[x], net[x]);
        }
        x := x + 1;
      }
      ghost var a1 := a[..];
      x := 0;
      while x < N
        invariant 0 <= x <= N
        invariant forall y :: 0 <= y < x ==> a[y] == Step(Config(), a0[y], net[y])
        invariant forall y :: x <= y < N ==> a[y] == a1[y]
      {
        if net[x] < 0.0 {
          a[x] := a[x] + Rate * LtUpdate(Config(), a[x], net[x]);
        }
        x := x + 1;
      }
    }

    /**
     * input_and_cycle: look up the input units, overwrite their activations
     * with the input values, then run `numCycles` cycles with the inputs
     * added to the net input of each.
     */
    method InputAndCycle(inputs: seq<(Unit, real)>, numCycles: int) returns (e: Outcome)
      requires Valid()
      requires DistinctKeys(inputs)
      modifies a
      ensures Valid()
      ensures e == InputOutcome(nodes, inputs)
      ensures e != Pass ==> a[..] == old(a[..])
      ensures e == Pass ==>
        var ks, vs := ResolveInputs(nodes, inputs).value, Values(inputs);
        a[..] == Run(Config(), M, Inject(old(a[..]), ks, vs), ks, vs, numCycles)
    {
      var lookup := InputIndices(inputs);
      if lookup.Err? {
        return Fail(lookup.error);
      }
      var ks, vs := lookup.value, Values(inputs);
      if |ks| == 0 {
        return Fail(EmptyInput);
      }
      ResolvedDistinct(inputs, ks);
      SetInputs(ks, vs);
      RunCycles(ks, vs, numCycles);
      e := Pass;
    }

    /** for _ in range(numCycles): one cycle after the other. */
    method RunCycles(ks: seq<nat>, vs: seq<real>, numCycles: int)
      requires Mirrored() && InputsFit(ks, vs, N)
      modifies a
      ensures a[..] == Run(Config(), M, old(a[..]), ks, vs, numCycles)
    {
      ghost var a0 := a[..];
      var n := if numCycles < 0 then 0 else numCycles;
      assert Run(Config(), M, a0, ks, vs, numCycles) == Run(Config(), M, a0, ks, vs, n);
      var c := 0;
      while c < n
        invariant 0 <= c <= n
        invariant Mirrored() && a[..] == Run(Config(), M, a0, ks, vs, c)
      {
        ghost var before := a[..];
        CycleOnce(ks, vs);
        RunNext(Config(), M, a0, ks, vs, c, before);
        c := c + 1;
      }
    }

    /** a[k] = v (main.py line 59): each input node is overwritten with its input value. */
    method SetInputs(ks: seq<nat>, vs: seq<real>)
      requires Mirrored() && InputsFit(ks, vs, N)
      modifies a
      ensures a[..] == Inject(old(a[..]), ks, vs)
    {
      var t := 0;
      while t < |ks|
        invariant 0 <= t <= |ks|
        invariant a[..] == Inject(old(a[..]), ks[..t], vs[..t])
      {
        assert ks[..t + 1] == ks[..t] + [ks[t]] && vs[..t + 1] == vs[..t] + [vs[t]];
        InjectSnoc(old(a[..]), ks[..t], vs[..t], ks[t], vs[t]);
        a[ks[t]] := vs[t];
        t := t + 1;
      }
      assert ks[..t] == ks && vs[..t] == vs;
    }

    /** Distinct input units have distinct node indices. */
    lemma ResolvedDistinct(inputs: seq<(Unit, real)>, ks: seq<nat>)
      requires Distinct(nodes) && DistinctKeys(inputs)
      requires |ks| == |inputs| && forall t :: 0 <= t < |inputs| ==> ks[t] < |nodes| && nodes[ks[t]] == inputs[t].0
      ensures Distinct(ks)
    {
    }
  }

  /** net[k, 0] += v: each input node's net input grows by its input value. */
  method AddExternal(net: seq<real>, ks: seq<nat>, vs: seq<real>) returns (net': seq<real>)
    requires InputsFit(ks, vs, |net|)
    ensures |net'| == |net|
    ensures forall y :: 0 <= y < |net| ==> net'[y] == net[y] + ExternalInput(ks, vs, y)
  {
    net' := net;
    var t := 0;
    while t < |ks|
      invariant 0 <= t <= |ks| && |net'| == |net|
      invariant forall y :: 0 <= y < |net| ==> net'[y] == net[y] + ExternalInput(ks[..t], vs[..t], y)
    {
      assert ks[..t + 1] == ks[..t] + [ks[t]] && vs[..t + 1] == vs[..t] + [vs[t]];
      assert ks[t] !in ks[..t];
      forall y | 0 <= y < |net|
        ensures ExternalInput(ks[..t + 1], vs[..t + 1], y)
             == ExternalInput(ks[..t], vs[..t], y) + (if y == ks[t] then vs[t] else 0.0)
      {
        ExternalInputSnoc(ks[..t], vs[..t], ks[t], vs[t], y);
      }
      net' := net'[ks[t] := net'[ks[t]] + vs[t]];
      t := t + 1;
    }
    assert ks[..t] == ks && vs[..t] == vs;
  }

  /** The keys of a dictionary's items are all different. */
  predicate DistinctKeys(inputs: seq<(Unit, real)>) {
    forall s, t :: 0 <= s < t < |inputs| ==> inputs[s].0 != inputs[t].0
  }

  /** The values of a dictionary's items, in key order. */
  function Values(inputs: seq<(Unit, real)>): seq<real> {
    seq(|inputs|, t requires 0 <= t < |inputs| => inputs[t].1)
  }

  function Prepend(ks: seq<nat>, r: Result<seq<nat>>): Result<seq<nat>> {
    if r.Ok? then Ok(ks + r.value) else r
  }

  lemma PrependTwice(ks: seq<nat>, more: seq<nat>, r: Result<seq<nat>>)
    ensures Prepend(ks, Prepend(more, r)) == Prepend(ks + more, r)
  {
    if r.Ok? {
      assert ks + (more + r.value) == (ks + more) + r.value;
    }
  }

  /** [nodes.index(k) for k in inputs]: the node indices of the input units, or the first unknown unit. */
  function ResolveInputs(nodes: seq<Unit>, inputs: seq<(Unit, real)>): (r: Result<seq<nat>>)
    ensures r.Ok? <==> forall t :: 0 <= t < |inputs| ==> inputs[t].0 in nodes
    ensures r.Ok? ==> |r.value| == |inputs|
    ensures r.Err? ==> exists t :: 0 <= t < |inputs| && r.error == UnknownUnit(inputs[t].0) && inputs[t].0 !in nodes
  {
    if |inputs| == 0 then Ok([])
    else if inputs[0].0 !in nodes then Err(UnknownUnit(inputs[0].0))
    else
      var tail := ResolveInputs(nodes, inputs[1..]);
      assert forall t :: 1 <= t < |inputs| ==> inputs[t] == inputs[1..][t - 1];
      Prepend([IndexOf(nodes, inputs[0].0)], tail)
  }

  /** How input_and_cycle ends: an unknown unit, an empty input dictionary, or success. */
  function InputOutcome(nodes: seq<Unit>, inputs: seq<(Unit, real)>): (e: Outcome)
    ensures e == Pass <==> |inputs| > 0 && forall t :: 0 <= t < |inputs| ==> inputs[t].0 in nodes
  {
    match ResolveInputs(nodes, inputs)
    case Err(err) => Fail(err)
    case Ok(ks) => if |ks| == 0 then Fail(EmptyInput) else Pass
  }
}
