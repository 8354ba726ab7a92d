/**
 * The topology of an Interactive Activation and Competition (IAC) network:
 * named units grouped into pools, the synthetic hub ("central") pool, and
 * the rules by which connections are written into the weight matrix.
 *
 * Everything here is a value; the class in module Network updates its
 * weight array in place and is proved to follow these definitions.
 */
module Topology {

  type Unit = string

  /** A square weight matrix, row by row. */
  type Matrix = seq<seq<real>>

  /** The failures a call can end in, in place of Python's exceptions. */
  datatype Error =
    | UnknownUnit(name: Unit)             // list.index raises ValueError
    | SelfConnection                      // assert i != j
    | SourceNotInLargestPool(name: Unit)  // assert unit_i in self.max_pool
    | EmptyInput                          // numpy refuses an empty (float) index array

  datatype Outcome = Pass | Fail(error: Error)

  datatype Result<T> = Ok(value: T) | Err(error: Error)

  predicate Distinct<T(==)>(s: seq<T>) {
    forall i, j :: 0 <= i < j < |s| ==> s[i] != s[j]
  }

  /** Python's list.index: the position of the first occurrence of x in s. */
  function IndexOf<T(==)>(s: seq<T>, x: T): (r: nat)
    requires x in s
    ensures r < |s| && s[r] == x
    ensures forall k :: 0 <= k < r ==> s[k] != x
  {
    if s[0] == x then 0 else 1 + IndexOf(s[1..], x)
  }

  lemma IndexOfDistinct<T>(s: seq<T>, k: nat)
    requires Distinct(s) && k < |s|
    ensures IndexOf(s, s[k]) == k
  {
  }

  /** Appending an element does not move the first occurrence of x. */
  lemma IndexOfSnoc<T>(s: seq<T>, y: T, x: T)
    requires x in s + [y]
    ensures x in s ==> IndexOf(s + [y], x) == IndexOf(s, x)
    ensures x !in s ==> IndexOf(s + [y], x) == |s|
  {
    if x in s {
      var q := IndexOf(s, x);
      assert (s + [y])[q] == x;
    }
  }

  // ---------------------------------------------------------------- pools

  /** max(len(pool) for pool in pools): the size of the largest pool. */
  function MaxSize(pools: seq<seq<Unit>>): (r: nat)
    requires |pools| > 0
    ensures forall k :: 0 <= k < |pools| ==> |pools[k]| <= r
    ensures exists k :: 0 <= k < |pools| && |pools[k]| == r
  {
    if |pools| == 1 then |pools[0]|
    else
      var tail := MaxSize(pools[1..]);
      assert forall k :: 1 <= k < |pools| ==> pools[k] == pools[1..][k - 1];
      if |pools[0]| < tail then tail else |pools[0]|
  }

  /** The position of the anchor pool: the first pool whose size is the maximum. */
  function AnchorIndex(pools: seq<seq<Unit>>): (r: nat)
    requires |pools| > 0
    ensures r < |pools| && |pools[r]| == MaxSize(pools)
    ensures forall k :: 0 <= k < r ==> |pools[k]| < MaxSize(pools)
  {
    var lengths := seq(|pools|, k requires 0 <= k < |pools| => |pools[k]|);
    var largest := MaxSize(pools);
    assert forall k :: 0 <= k < |pools| ==> lengths[k] == |pools[k]|;
    assert largest in lengths by {
      var k :| 0 <= k < |pools| && |pools[k]| == largest;
      assert lengths[k] == largest;
    }
    IndexOf(lengths, largest)
  }

  /** The number of units over all pools, counted with repetition. */
  function TotalSize(pools: seq<seq<Unit>>): (n: nat)
    ensures forall k :: 0 <= k < |pools| ==> |pools[k]| <= n
  {
    if |pools| == 0 then 0
    else
      assert forall k :: 1 <= k < |pools| ==> pools[k] == pools[1..][k - 1];
      |pools[0]| + TotalSize(pools[1..])
  }

  /** When even the largest pool is empty, there are no units at all. */
  lemma {:induction false} NoUnitsWithoutLargest(pools: seq<seq<Unit>>)
    requires |pools| > 0 && MaxSize(pools) == 0
    ensures TotalSize(pools) == 0
  {
    if |pools| > 1 {
      NoUnitsWithoutLargest(pools[1..]);
    }
  }

  /** All pool members, pool after pool. */
  function Flatten(pools: seq<seq<Unit>>): (units: seq<Unit>)
    ensures |units| == TotalSize(pools)
  {
    if |pools| == 0 then [] else pools[0] + Flatten(pools[1..])
  }

  /** Every member of every pool occurs in the flattened sequence. */
  lemma {:induction false} FlattenHas(pools: seq<seq<Unit>>, k: nat, x: Unit)
    requires k < |pools| && x in pools[k]
    ensures x in Flatten(pools)
  {
    if k > 0 {
      assert pools[1..][k - 1] == pools[k];
      FlattenHas(pools[1..], k - 1, x);
    }
  }

  /** When the flattened pools have no repeated unit, no pool repeats a unit. */
  lemma {:induction false} FlattenDistinct(pools: seq<seq<Unit>>, k: nat)
    requires k < |pools| && Distinct(Flatten(pools))
    ensures Distinct(pools[k])
  {
    var f := Flatten(pools);
    assert f == pools[0] + Flatten(pools[1..]);
    if k == 0 {
      forall i, j | 0 <= i < j < |pools[0]| ensures pools[0][i] != pools[0][j] {
        assert f[i] == pools[0][i] && f[j] == pools[0][j];
      }
    } else {
      var g := Flatten(pools[1..]);
      forall i, j | 0 <= i < j < |g| ensures g[i] != g[j] {
        assert f[|pools[0]| + i] == g[i] && f[|pools[0]| + j] == g[j];
      }
      assert pools[1..][k - 1] == pools[k];
      FlattenDistinct(pools[1..], k - 1);
    }
  }

  /** x and y are members of one and the same pool. */
  ghost predicate SamePool(pools: seq<seq<Unit>>, x: Unit, y: Unit) {
    exists k :: 0 <= k < |pools| && x in pools[k] && y in pools[k]
  }

  lemma SamePoolExtend(pools: seq<seq<Unit>>, k: nat, x: Unit, y: Unit)
    requires k < |pools|
    ensures SamePool(pools[..k + 1], x, y) <==>
            SamePool(pools[..k], x, y) || (x in pools[k] && y in pools[k])
  {
    if SamePool(pools[..k + 1], x, y) {
      var q :| 0 <= q < k + 1 && x in pools[..k + 1][q] && y in pools[..k + 1][q];
      if q < k {
        assert pools[..k][q] == pools[q];
      }
    }
    if SamePool(pools[..k], x, y) {
      var q :| 0 <= q < k && x in pools[..k][q] && y in pools[..k][q];
      assert pools[..k + 1][q] == pools[q];
    }
    if x in pools[k] && y in pools[k] {
      assert pools[..k + 1][k] == pools[k];
    }
  }

  // ------------------------------------------------------------- matrices

  predicate IsSquare(m: Matrix) {
    forall r :: 0 <= r < |m| ==> |m[r]| == |m|
  }

  predicate Symmetric(m: Matrix) {
    IsSquare(m) && forall r, c :: 0 <= r < |m| && 0 <= c < |m| ==> m[r][c] == m[c][r]
  }

  predicate ZeroDiagonal(m: Matrix) {
    IsSquare(m) && forall r :: 0 <= r < |m| ==> m[r][r] == 0.0
  }

  /** np.zeros((n, n)) */
  function Zeros(n: nat): (m: Matrix)
    ensures |m| == n && IsSquare(m) && Symmetric(m) && ZeroDiagonal(m)
    ensures forall r, c :: 0 <= r < n && 0 <= c < n ==> m[r][c] == 0.0
  {
    seq(n, r => seq(n, c => 0.0))
  }

  /** Python's indexing of a sequence of length n: a negative k counts from the end. */
  function PyIndex(n: nat, k: int): (r: int)
    ensures 0 <= n + k && k < n ==> 0 <= r < n && (r == k || r == k + n)
  {
    if k < 0 then n + k else k
  }

  /**
   * The hub slot owned by the anchor member at position p: index -(p + 1),
   * that is, counted from the end of the matrix.
   */
  function HubSlot(n: nat, hubs: nat, p: nat): (h: nat)
    requires hubs <= n && p < hubs
    ensures n - hubs <= h < n
    ensures h + p == n - 1
  {
    PyIndex(n, -(p + 1))
  }

  /**
   * W[-hubs:, -hubs:] = -(ones - eye): the block of the nodes from `units`
   * on becomes -1 off its diagonal and 0 on it.
   */
  function WithHubBlock(m: Matrix, units: nat): (m': Matrix)
    requires IsSquare(m)
    ensures |m'| == |m| && IsSquare(m')
    ensures forall r, c :: 0 <= r < |m| && 0 <= c < |m| ==>
      m'[r][c] == if units <= r && units <= c then (if r == c then 0.0 else -1.0) else m[r][c]
    ensures Symmetric(m) ==> Symmetric(m')
    ensures ZeroDiagonal(m) ==> ZeroDiagonal(m')
  {
    seq(|m|, r requires 0 <= r < |m| =>
      seq(|m|, c requires 0 <= c < |m| =>
        if units <= r && units <= c then (if r == c then 0.0 else -1.0) else m[r][c]))
  }

  /** W[i, j], W[j, i] = w, w */
  function SetPair(m: Matrix, i: nat, j: nat, w: real): (m': Matrix)
    requires IsSquare(m) && i < |m| && j < |m|
    ensures |m'| == |m| && IsSquare(m')
    ensures m'[i][j] == w && m'[j][i] == w
    ensures forall r, c :: 0 <= r < |m| && 0 <= c < |m| && !(r == i && c == j) && !(r == j && c == i)
              ==> m'[r][c] == m[r][c]
    ensures Symmetric(m) ==> Symmetric(m')
    ensures ZeroDiagonal(m) && i != j ==> ZeroDiagonal(m')
  {
    seq(|m|, r requires 0 <= r < |m| =>
      seq(|m|, c requires 0 <= c < |m| =>
        if (r == i && c == j) || (r == j && c == i) then w else m[r][c]))
  }

  /**
   * An excitatory link from real unit i to real unit j routed through hub
   * slot h: the edges i--h and h--j get weight w, nothing else changes. Real
   * indices lie below `units`, hub slots at or above it.
   */
  function Link(m: Matrix, units: nat, i: nat, j: nat, h: nat, w: real): (m': Matrix)
    requires IsSquare(m) && i < units && j < units && units <= h < |m|
    ensures |m'| == |m| && IsSquare(m')
    ensures m'[i][h] == w && m'[h][i] == w && m'[h][j] == w && m'[j][h] == w
    ensures forall r, c :: 0 <= r < |m| && 0 <= c < |m| && r != h && c != h ==> m'[r][c] == m[r][c]
    ensures forall c :: 0 <= c < |m| && c != i && c != j ==> m'[h][c] == m[h][c] && m'[c][h] == m[c][h]
    ensures Symmetric(m) ==> Symmetric(m')
    ensures ZeroDiagonal(m) ==> ZeroDiagonal(m')
  {
    SetPair(SetPair(m, i, h, w), h, j, w)
  }

  // ------------------------------------------------------------- layout

  /**
   * The node layout of a network: `nodes` lists the real units (their index
   * is their position), `anchor` is the largest pool, and the matrix has
   * |nodes| + |anchor| rows, the trailing |anchor| of them the hub slots.
   */
  predicate WellFormed(nodes: seq<Unit>, anchor: seq<Unit>) {
    Distinct(nodes) && forall x :: x in anchor ==> x in nodes
  }

  /** The checks add_connection makes before it writes, in the order it makes them. */
  function ConnectionOutcome(nodes: seq<Unit>, anchor: seq<Unit>, u: Unit, v: Unit, direct: bool): (e: Outcome)
    ensures e == Pass <==> u in nodes && v in nodes && u != v && (direct || u in anchor)
    ensures u !in nodes ==> e == Fail(UnknownUnit(u))
  {
    if u !in nodes then Fail(UnknownUnit(u))
    else if v !in nodes then Fail(UnknownUnit(v))
    else if IndexOf(nodes, u) == IndexOf(nodes, v) then Fail(SelfConnection)
    else if !direct && u !in anchor then Fail(SourceNotInLargestPool(u))
    else Pass
  }

  /** The matrix after a successful add_connection(u, v, w, direct). */
  function Connected(nodes: seq<Unit>, anchor: seq<Unit>, m: Matrix, u: Unit, v: Unit, w: real, direct: bool): (m': Matrix)
    requires WellFormed(nodes, anchor) && IsSquare(m) && |m| == |nodes| + |anchor|
    requires ConnectionOutcome(nodes, anchor, u, v, direct) == Pass
    ensures |m'| == |m| && IsSquare(m')
    ensures Symmetric(m) ==> Symmetric(m')
    ensures ZeroDiagonal(m) ==> ZeroDiagonal(m')
    ensures !direct ==> forall r, c :: 0 <= r < |nodes| && 0 <= c < |nodes| ==> m'[r][c] == m[r][c]
    ensures !direct ==> forall r, c :: |nodes| <= r < |m| && |nodes| <= c < |m| ==> m'[r][c] == m[r][c]
  {
    var i, j := IndexOf(nodes, u), IndexOf(nodes, v);
    if direct then SetPair(m, i, j, w)
    else Link(m, |nodes|, i, j, HubSlot(|m|, |anchor|, IndexOf(anchor, u)), w)
  }

  /** A second connection between the same units overwrites the first: weights do not accumulate. */
  lemma ConnectedOverwrites(nodes: seq<Unit>, anchor: seq<Unit>, m: Matrix, u: Unit, v: Unit,
                            w1: real, w2: real, direct: bool)
    requires WellFormed(nodes, anchor) && IsSquare(m) && |m| == |nodes| + |anchor|
    requires ConnectionOutcome(nodes, anchor, u, v, direct) == Pass
    ensures Connected(nodes, anchor, Connected(nodes, anchor, m, u, v, w1, direct), u, v, w2, direct)
         == Connected(nodes, anchor, m, u, v, w2, direct)
  {
    var i, j := IndexOf(nodes, u), IndexOf(nodes, v);
    if direct {
      SetPairOverwrites(m, i, j, w1, w2);
    } else {
      LinkOverwrites(m, |nodes|, i, j, HubSlot(|m|, |anchor|, IndexOf(anchor, u)), w1, w2);
    }
  }

  /** Two square matrices of one size that agree at every entry are equal. */
  lemma SameEntries(a: Matrix, b: Matrix)
    requires IsSquare(a) && IsSquare(b) && |a| == |b|
    requires forall r, c :: 0 <= r < |a| && 0 <= c < |a| ==> a[r][c] == b[r][c]
    ensures a == b
  {
    forall r | 0 <= r < |a| ensures a[r] == b[r] {
      assert forall c :: 0 <= c < |a| ==> a[r][c] == b[r][c];
    }
  }

  lemma SetPairOverwrites(m: Matrix, i: nat, j: nat, w1: real, w2: real)
    requires IsSquare(m) && i < |m| && j < |m|
    ensures SetPair(SetPair(m, i, j, w1), i, j, w2) == SetPair(m, i, j, w2)
  {
    SameEntries(SetPair(SetPair(m, i, j, w1), i, j, w2), SetPair(m, i, j, w2));
  }

  lemma LinkOverwrites(m: Matrix, units: nat, i: nat, j: nat, h: nat, w1: real, w2: real)
    requires IsSquare(m) && i < units && j < units && units <= h < |m|
    ensures Link(Link(m, units, i, j, h, w1), units, i, j, h, w2) == Link(m, units, i, j, h, w2)
  {
    var twice, once := Link(Link(m, units, i, j, h, w1), units, i, j, h, w2), Link(m, units, i, j, h, w2);
    forall r, c | 0 <= r < |m| && 0 <= c < |m| ensures twice[r][c] == once[r][c] {
      if r == h && (c == i || c == j) {
      } else if c == h && (r == i || r == j) {
      }
    }
    SameEntries(twice, once);
  }

  /** The (source, target) pairs of add_connections, key after key. */
  function Pairs(conns: seq<(Unit, seq<Unit>)>): (ps: seq<(Unit, Unit)>)
  {
    if |conns| == 0 then [] else Fanout(conns[0].0, conns[0].1) + Pairs(conns[1..])
  }

  /** Every pair of add_connections was declared: its target is listed under its source's key. */
  lemma {:induction false} PairsDeclared(conns: seq<(Unit, seq<Unit>)>, t: nat)
    requires t < |Pairs(conns)|
    ensures exists k :: 0 <= k < |conns| && Pairs(conns)[t].0 == conns[k].0 && Pairs(conns)[t].1 in conns[k].1
  {
    var head := Fanout(conns[0].0, conns[0].1);
    if t < |head| {
      assert Pairs(conns)[t] == head[t];
    } else {
      assert Pairs(conns)[t] == Pairs(conns[1..])[t - |head|];
      PairsDeclared(conns[1..], t - |head|);
      var k :| 0 <= k < |conns| - 1 && Pairs(conns)[t].0 == conns[1..][k].0 && Pairs(conns)[t].1 in conns[1..][k].1;
      assert conns[1..][k] == conns[k + 1];
    }
  }

  /** Every item declared under a key of add_connections yields its pair. */
  lemma {:induction false} PairsHas(conns: seq<(Unit, seq<Unit>)>, k: nat, s: nat)
    requires k < |conns| && s < |conns[k].1|
    ensures (conns[k].0, conns[k].1[s]) in Pairs(conns)
  {
    var head := Fanout(conns[0].0, conns[0].1);
    if k == 0 {
      assert head[s] == (conns[0].0, conns[0].1[s]);
    } else {
      assert conns[1..][k - 1] == conns[k];
      PairsHas(conns[1..], k - 1, s);
    }
  }

  function Fanout(key: Unit, items: seq<Unit>): (ps: seq<(Unit, Unit)>)
    ensures |ps| == |items|
  {
    seq(|items|, t requires 0 <= t < |items| => (key, items[t]))
  }

  /**
   * add_connections over the pairs `ps`: each pair is linked through the hub
   * with weight 1; the first failing pair stops the run, and the links made
   * before it stay in the matrix.
   */
  function ConnectAll(nodes: seq<Unit>, anchor: seq<Unit>, m: Matrix, ps: seq<(Unit, Unit)>): (res: (Matrix, Outcome))
    requires WellFormed(nodes, anchor) && IsSquare(m) && |m| == |nodes| + |anchor|
    ensures |res.0| == |m| && IsSquare(res.0)
    ensures Symmetric(m) && ZeroDiagonal(m) ==> Symmetric(res.0) && ZeroDiagonal(res.0)
    decreases |ps|
  {
    if |ps| == 0 then (m, Pass)
    else
      var e := ConnectionOutcome(nodes, anchor, ps[0].0, ps[0].1, false);
      if e.Fail? then (m, e)
      else
        var next := Connected(nodes, anchor, m, ps[0].0, ps[0].1, 1.0, false);
        ConnectAll(nodes, anchor, next, ps[1..])
  }

  /**
   * The outcome of add_connections over the pairs `ps`: success exactly when
   * every pair passes add_connection's checks, otherwise the error of the
   * first pair that fails.
   */
  function FirstFailure(nodes: seq<Unit>, anchor: seq<Unit>, ps: seq<(Unit, Unit)>): (e: Outcome)
    ensures e == Pass <==> forall t :: 0 <= t < |ps| ==> ConnectionOutcome(nodes, anchor, ps[t].0, ps[t].1, false) == Pass
    ensures e != Pass ==>
      exists t :: (0 <= t < |ps| && e == ConnectionOutcome(nodes, anchor, ps[t].0, ps[t].1, false)
                   && forall s :: 0 <= s < t ==> ConnectionOutcome(nodes, anchor, ps[s].0, ps[s].1, false) == Pass)
  {
    if |ps| == 0 then Pass
    else
      var e := ConnectionOutcome(nodes, anchor, ps[0].0, ps[0].1, false);
      if e.Fail? then e
      else
        var rest := FirstFailure(nodes, anchor, ps[1..]);
        assert forall t :: 1 <= t < |ps| ==> ps[t] == ps[1..][t - 1];
        assert rest != Pass ==>
          exists t :: (1 <= t < |ps| && rest == ConnectionOutcome(nodes, anchor, ps[t].0, ps[t].1, false)
                       && forall s :: 0 <= s < t ==> ConnectionOutcome(nodes, anchor, ps[s].0, ps[s].1, false) == Pass);
        rest
  }

  /** The links made along the way do not change how add_connections ends. */
  lemma {:induction false} ConnectAllOutcome(nodes: seq<Unit>, anchor: seq<Unit>, m: Matrix, ps: seq<(Unit, Unit)>)
    requires WellFormed(nodes, anchor) && IsSquare(m) && |m| == |nodes| + |anchor|
    ensures ConnectAll(nodes, anchor, m, ps).1 == FirstFailure(nodes, anchor, ps)
    decreases |ps|
  {
    if |ps| > 0 && ConnectionOutcome(nodes, anchor, ps[0].0, ps[0].1, false) == Pass {
      var next := Connected(nodes, anchor, m, ps[0].0, ps[0].1, 1.0, false);
      ConnectAllOutcome(nodes, anchor, next, ps[1..]);
    }
  }

  lemma PairsFrom(conns: seq<(Unit, seq<Unit>)>, k: nat)
    requires k < |conns|
    ensures Pairs(conns[k..]) == Fanout(conns[k].0, conns[k].1) + Pairs(conns[k + 1..])
  {
    assert conns[k..][1..] == conns[k + 1..];
  }

  lemma FanoutFrom(key: Unit, items: seq<Unit>, t: nat, tail: seq<(Unit, Unit)>)
    requires t < |items|
    ensures Fanout(key, items[t..]) + tail == [(key, items[t])] + (Fanout(key, items[t + 1..]) + tail)
  {
    assert Fanout(key, items[t..]) == [(key, items[t])] + Fanout(key, items[t + 1..]);
  }

  /** ConnectAll on a leading pair followed by more pairs. */
  lemma ConnectAllCons(nodes: seq<Unit>, anchor: seq<Unit>, m: Matrix, p: (Unit, Unit), ps: seq<(Unit, Unit)>)
    requires WellFormed(nodes, anchor) && IsSquare(m) && |m| == |nodes| + |anchor|
    ensures ConnectAll(nodes, anchor, m, [p] + ps) ==
      if ConnectionOutcome(nodes, anchor, p.0, p.1, false) != Pass
      then (m, ConnectionOutcome(nodes, anchor, p.0, p.1, false))
      else ConnectAll(nodes, anchor, Connected(nodes, anchor, m, p.0, p.1, 1.0, false), ps)
  {
    assert ([p] + ps)[0] == p && ([p] + ps)[1..] == ps;
  }

  /** However many links are made, the real-real and hub-hub blocks keep their weights. */
  lemma {:induction false} ConnectAllKeepsBlocks(nodes: seq<Unit>, anchor: seq<Unit>, m: Matrix, ps: seq<(Unit, Unit)>)
    requires WellFormed(nodes, anchor) && IsSquare(m) && |m| == |nodes| + |anchor|
    ensures var m' := ConnectAll(nodes, anchor, m, ps).0;
      (forall r, c :: 0 <= r < |nodes| && 0 <= c < |nodes| ==> m'[r][c] == m[r][c]) &&
      (forall r, c :: |nodes| <= r < |m| && |nodes| <= c < |m| ==> m'[r][c] == m[r][c])
    decreases |ps|
  {
    if |ps| > 0 && ConnectionOutcome(nodes, anchor, ps[0].0, ps[0].1, false) == Pass {
      var next := Connected(nodes, anchor, m, ps[0].0, ps[0].1, 1.0, false);
      ConnectAllKeepsBlocks(nodes, anchor, next, ps[1..]);
    }
  }

  /** Linking with weight 1 never lowers an entry that is already 1. */
  lemma {:induction false} ConnectAllKeepsOnes(nodes: seq<Unit>, anchor: seq<Unit>, m: Matrix, ps: seq<(Unit, Unit)>, r: nat, c: nat)
    requires WellFormed(nodes, anchor) && IsSquare(m) && |m| == |nodes| + |anchor|
    requires r < |m| && c < |m| && m[r][c] == 1.0
    ensures ConnectAll(nodes, anchor, m, ps).0[r][c] == 1.0
    decreases |ps|
  {
    if |ps| > 0 && ConnectionOutcome(nodes, anchor, ps[0].0, ps[0].1, false) == Pass {
      var next := Connected(nodes, anchor, m, ps[0].0, ps[0].1, 1.0, false);
      ConnectAllKeepsOnes(nodes, anchor, next, ps[1..], r, c);
    }
  }

  /** Units u and v are both joined with weight 1 to the hub slot of u. */
  predicate HubLinked(nodes: seq<Unit>, anchor: seq<Unit>, m: Matrix, u: Unit, v: Unit)
    requires WellFormed(nodes, anchor) && IsSquare(m) && |m| == |nodes| + |anchor|
    requires u in anchor && v in nodes
  {
    var i, j := IndexOf(nodes, u), IndexOf(nodes, v);
    var h := HubSlot(|m|, |anchor|, IndexOf(anchor, u));
    m[i][h] == 1.0 && m[h][i] == 1.0 && m[h][j] == 1.0 && m[j][h] == 1.0
  }

  /** After a successful add_connections every declared pair (u, v) is in place. */
  lemma {:induction false} ConnectAllLinks(nodes: seq<Unit>, anchor: seq<Unit>, m: Matrix, ps: seq<(Unit, Unit)>, t: nat)
    requires WellFormed(nodes, anchor) && IsSquare(m) && |m| == |nodes| + |anchor|
    requires ConnectAll(nodes, anchor, m, ps).1 == Pass && t < |ps|
    ensures ps[t].0 in anchor && ps[t].1 in nodes
    ensures HubLinked(nodes, anchor, ConnectAll(nodes, anchor, m, ps).0, ps[t].0, ps[t].1)
    decreases |ps|, 1
  {
    ConnectAllOutcome(nodes, anchor, m, ps);
    assert ConnectionOutcome(nodes, anchor, ps[t].0, ps[t].1, false) == Pass;
    if t == 0 {
      FirstLinkKept(nodes, anchor, m, ps);
    } else {
      LaterLinkKept(nodes, anchor, m, ps, t);
    }
  }

  /** A later pair is in place after the rest of the list, which starts from the first link. */
  lemma {:induction false} LaterLinkKept(nodes: seq<Unit>, anchor: seq<Unit>, m: Matrix, ps: seq<(Unit, Unit)>, t: nat)
    requires WellFormed(nodes, anchor) && IsSquare(m) && |m| == |nodes| + |anchor|
    requires ConnectAll(nodes, anchor, m, ps).1 == Pass && 0 < t < |ps|
    requires ps[t].0 in anchor && ps[t].1 in nodes
    ensures HubLinked(nodes, anchor, ConnectAll(nodes, anchor, m, ps).0, ps[t].0, ps[t].1)
    decreases |ps|, 0
  {
    ConnectAllOutcome(nodes, anchor, m, ps);
    assert ConnectionOutcome(nodes, anchor, ps[0].0, ps[0].1, false) == Pass;
    var next := Connected(nodes, anchor, m, ps[0].0, ps[0].1, 1.0, false);
    assert ConnectAll(nodes, anchor, m, ps) == ConnectAll(nodes, anchor, next, ps[1..]);
    assert ps[1..][t - 1] == ps[t];
    ConnectAllLinks(nodes, anchor, next, ps[1..], t - 1);
  }

  /** A successful run followed by more pairs is the run of all pairs, started after the first. */
  lemma {:induction false} ConnectAllAppend(nodes: seq<Unit>, anchor: seq<Unit>, m: Matrix, pre: seq<(Unit, Unit)>, post: seq<(Unit, Unit)>)
    requires WellFormed(nodes, anchor) && IsSquare(m) && |m| == |nodes| + |anchor|
    requires ConnectAll(nodes, anchor, m, pre).1 == Pass
    ensures ConnectAll(nodes, anchor, m, pre + post) == ConnectAll(nodes, anchor, ConnectAll(nodes, anchor, m, pre).0, post)
    decreases |pre|
  {
    if |pre| == 0 {
      assert pre + post == post;
    } else {
      var all := pre + post;
      assert all[0] == pre[0] && all[1..] == pre[1..] + post;
      var e := ConnectionOutcome(nodes, anchor, pre[0].0, pre[0].1, false);
      assert e == Pass;
      var next := Connected(nodes, anchor, m, pre[0].0, pre[0].1, 1.0, false);
      assert ConnectAll(nodes, anchor, m, pre) == ConnectAll(nodes, anchor, next, pre[1..]);
      assert ConnectAll(nodes, anchor, m, all) == ConnectAll(nodes, anchor, next, all[1..]);
      ConnectAllAppend(nodes, anchor, next, pre[1..], post);
    }
  }

  lemma SplitAt<T>(s: seq<T>, k: nat)
    requires k < |s|
    ensures s[..k] + s[k..] == s && s[k..][0] == s[k]
  {
  }

  /**
   * When every pair before pair f passes and pair f fails, add_connections
   * ends with pair f's error, leaving the matrix the pairs before f build in
   * a run of their own that succeeds.
   */
  lemma ConnectAllFailsAt(nodes: seq<Unit>, anchor: seq<Unit>, m: Matrix, ps: seq<(Unit, Unit)>, f: nat)
    requires WellFormed(nodes, anchor) && IsSquare(m) && |m| == |nodes| + |anchor|
    requires f < |ps| && ConnectionOutcome(nodes, anchor, ps[f].0, ps[f].1, false) != Pass
    requires forall s :: 0 <= s < f ==> ConnectionOutcome(nodes, anchor, ps[s].0, ps[s].1, false) == Pass
    ensures ConnectAll(nodes, anchor, m, ps[..f]).1 == Pass
    ensures ConnectAll(nodes, anchor, m, ps)
         == (ConnectAll(nodes, anchor, m, ps[..f]).0, ConnectionOutcome(nodes, anchor, ps[f].0, ps[f].1, false))
  {
    var pre, post := ps[..f], ps[f..];
    SplitAt(ps, f);
    forall s | 0 <= s < |pre| ensures ConnectionOutcome(nodes, anchor, pre[s].0, pre[s].1, false) == Pass {
      assert pre[s] == ps[s];
    }
    assert FirstFailure(nodes, anchor, pre) == Pass;
    ConnectAllOutcome(nodes, anchor, m, pre);
    var mid := ConnectAll(nodes, anchor, m, pre).0;
    ConnectAllAppend(nodes, anchor, m, pre, post);
    assert ConnectAll(nodes, anchor, mid, post) == (mid, ConnectionOutcome(nodes, anchor, post[0].0, post[0].1, false));
  }

  /**
   * When add_connections fails at pair f, every pair before it is in place:
   * the links made before the error stay in the matrix.
   */
  lemma LinksBeforeFailure(nodes: seq<Unit>, anchor: seq<Unit>, m: Matrix, ps: seq<(Unit, Unit)>, f: nat, t: nat)
    requires WellFormed(nodes, anchor) && IsSquare(m) && |m| == |nodes| + |anchor|
    requires f < |ps| && ConnectionOutcome(nodes, anchor, ps[f].0, ps[f].1, false) != Pass
    requires forall s :: 0 <= s < f ==> ConnectionOutcome(nodes, anchor, ps[s].0, ps[s].1, false) == Pass
    requires t < f
    ensures ps[t].0 in anchor && ps[t].1 in nodes
    ensures HubLinked(nodes, anchor, ConnectAll(nodes, anchor, m, ps).0, ps[t].0, ps[t].1)
  {
    ConnectAllFailsAt(nodes, anchor, m, ps, f);
    assert ps[..f][t] == ps[t];
    ConnectAllLinks(nodes, anchor, m, ps[..f], t);
  }

  /**
   * Pair p writes entry (r, c) when it passes add_connection's checks and
   * (r, c) is one of its four hub entries.
   */
  predicate Touches(nodes: seq<Unit>, anchor: seq<Unit>, n: nat, p: (Unit, Unit), r: nat, c: nat)
    requires WellFormed(nodes, anchor) && n == |nodes| + |anchor|
  {
    if ConnectionOutcome(nodes, anchor, p.0, p.1, false) != Pass then false
    else
      var i, j := IndexOf(nodes, p.0), IndexOf(nodes, p.1);
      var h := HubSlot(n, |anchor|, IndexOf(anchor, p.0));
      (r == h && (c == i || c == j)) || (c == h && (r == i || r == j))
  }

  /** An entry no passing pair writes keeps its weight through add_connections. */
  lemma {:induction false} ConnectAllUntouched(nodes: seq<Unit>, anchor: seq<Unit>, m: Matrix, ps: seq<(Unit, Unit)>, r: nat, c: nat)
    requires WellFormed(nodes, anchor) && IsSquare(m) && |m| == |nodes| + |anchor|
    requires r < |m| && c < |m|
    requires forall t :: 0 <= t < |ps| ==> !Touches(nodes, anchor, |m|, ps[t], r, c)
    ensures ConnectAll(nodes, anchor, m, ps).0[r][c] == m[r][c]
    decreases |ps|
  {
    if |ps| > 0 && ConnectionOutcome(nodes, anchor, ps[0].0, ps[0].1, false) == Pass {
      assert !Touches(nodes, anchor, |m|, ps[0], r, c);
      var next := Connected(nodes, anchor, m, ps[0].0, ps[0].1, 1.0, false);
      assert next[r][c] == m[r][c];
      assert forall t :: 0 <= t < |ps| - 1 ==> ps[1..][t] == ps[t + 1];
      ConnectAllUntouched(nodes, anchor, next, ps[1..], r, c);
    }
  }

  /**
   * Starting from a matrix with no real-hub weights, as the constructor
   * leaves it, after a successful add_connections an entry between a real
   * unit and a hub slot is 1 exactly when some declared pair links through
   * it, and 0 otherwise, in both directions.
   */
  lemma ConnectAllHubEntries(nodes: seq<Unit>, anchor: seq<Unit>, m: Matrix, ps: seq<(Unit, Unit)>, r: nat, c: nat)
    requires WellFormed(nodes, anchor) && IsSquare(m) && |m| == |nodes| + |anchor|
    requires forall y, z :: 0 <= y < |nodes| && |nodes| <= z < |m| ==> m[y][z] == 0.0 && m[z][y] == 0.0
    requires ConnectAll(nodes, anchor, m, ps).1 == Pass
    requires r < |nodes| <= c < |m|
    ensures var m', linked := ConnectAll(nodes, anchor, m, ps).0,
                              exists t :: 0 <= t < |ps| && Touches(nodes, anchor, |m|, ps[t], r, c);
      m'[r][c] == m'[c][r] == if linked then 1.0 else 0.0
  {
    if t :| 0 <= t < |ps| && Touches(nodes, anchor, |m|, ps[t], r, c) {
      ConnectAllLinks(nodes, anchor, m, ps, t);
    } else {
      assert forall t :: 0 <= t < |ps| ==> !Touches(nodes, anchor, |m|, ps[t], c, r);
      ConnectAllUntouched(nodes, anchor, m, ps, r, c);
      ConnectAllUntouched(nodes, anchor, m, ps, c, r);
    }
  }

  /** The first pair's four hub entries survive the rest of the list. */
  lemma FirstLinkKept(nodes: seq<Unit>, anchor: seq<Unit>, m: Matrix, ps: seq<(Unit, Unit)>)
    requires WellFormed(nodes, anchor) && IsSquare(m) && |m| == |nodes| + |anchor|
    requires |ps| > 0 && ConnectionOutcome(nodes, anchor, ps[0].0, ps[0].1, false) == Pass
    ensures HubLinked(nodes, anchor, ConnectAll(nodes, anchor, m, ps).0, ps[0].0, ps[0].1)
  {
    var next := Connected(nodes, anchor, m, ps[0].0, ps[0].1, 1.0, false);
    var i, j := IndexOf(nodes, ps[0].0), IndexOf(nodes, ps[0].1);
    var h := HubSlot(|m|, |anchor|, IndexOf(anchor, ps[0].0));
    assert next[i][h] == 1.0 && next[h][i] == 1.0 && next[h][j] == 1.0 && next[j][h] == 1.0;
    ConnectAllKeepsOnes(nodes, anchor, next, ps[1..], i, h);
    ConnectAllKeepsOnes(nodes, anchor, next, ps[1..], h, i);
    ConnectAllKeepsOnes(nodes, anchor, next, ps[1..], h, j);
    ConnectAllKeepsOnes(nodes, anchor, next, ps[1..], j, h);
  }

  // ------------------------------------------------------- construction

  /**
   * The weight between nodes r and c right after construction: -1 between
   * distinct members of one pool, -1 between distinct hub slots, else 0.
   */
  ghost function InitialWeight(pools: seq<seq<Unit>>, nodes: seq<Unit>, r: nat, c: nat): real {
    var units := |nodes|;
    if units <= r && units <= c then (if r == c then 0.0 else -1.0)
    else if r < units && c < units && r != c && SamePool(pools, nodes[r], nodes[c]) then -1.0
    else 0.0
  }

  /** The N x N weight matrix the constructor builds, with N = |nodes| + hubs. */
  ghost function InitialWeights(pools: seq<seq<Unit>>, nodes: seq<Unit>, hubs: nat): (m: Matrix)
    ensures |m| == |nodes| + hubs && IsSquare(m)
    ensures Symmetric(m) && ZeroDiagonal(m)
    ensures forall r, c :: |nodes| <= r < |m| && |nodes| <= c < |m| ==> m[r][c] == (if r == c then 0.0 else -1.0)
    ensures forall r, c :: 0 <= r < |nodes| && |nodes| <= c < |m| ==> m[r][c] == 0.0 && m[c][r] == 0.0
  {
    var n := |nodes| + hubs;
    seq(n, r requires 0 <= r < n => seq(n, c requires 0 <= c < n => InitialWeight(pools, nodes, r, c)))
  }

  /** Distinct members of one pool inhibit each other directly with weight -1. */
  lemma PoolMembersInhibit(pools: seq<seq<Unit>>, nodes: seq<Unit>, hubs: nat, q: nat, s: nat, t: nat)
    requires Distinct(Flatten(pools)) && multiset(nodes) == multiset(Flatten(pools))
    requires q < |pools| && s < |pools[q]| && t < |pools[q]| && s != t
    ensures pools[q][s] in nodes && pools[q][t] in nodes
    ensures var m := InitialWeights(pools, nodes, hubs);
      var i, j := IndexOf(nodes, pools[q][s]), IndexOf(nodes, pools[q][t]);
      m[i][j] == -1.0 && m[j][i] == -1.0
  {
    var x, y := pools[q][s], pools[q][t];
    FlattenHas(pools, q, x);
    FlattenHas(pools, q, y);
    assert x in multiset(nodes) && y in multiset(nodes);
    FlattenDistinct(pools, q);
    var i, j := IndexOf(nodes, x), IndexOf(nodes, y);
    assert i != j;
    assert SamePool(pools, nodes[i], nodes[j]) && SamePool(pools, nodes[j], nodes[i]) by {
      assert x in pools[q] && y in pools[q];
    }
    var m := InitialWeights(pools, nodes, hubs);
    assert m[i][j] == InitialWeight(pools, nodes, i, j) && m[j][i] == InitialWeight(pools, nodes, j, i);
  }

  /** Members of different pools are not connected directly after construction. */
  lemma OtherPoolsUnconnected(pools: seq<seq<Unit>>, nodes: seq<Unit>, hubs: nat, r: nat, c: nat)
    requires r < |nodes| && c < |nodes| && !SamePool(pools, nodes[r], nodes[c])
    ensures InitialWeights(pools, nodes, hubs)[r][c] == 0.0
  {
  }
}
