/**
 * Rules that src/logs.js and src/logs3d.js both implement, written once:
 * the bounded first-in-first-out pile, the five-per-row grid, and the
 * pairwise conduction pass over the pile's temperatures.
 */
module PileRules {
  import opened FireMath

  /** The pile keeps at most this many pieces of fuel. */
  const Capacity: nat := 60

  /** Pieces per layout row. */
  const PerRow: nat := 5

  // ---------------------------------------------------------------- FIFO

  /** The last n elements of s (all of s when it is shorter). */
  function Newest<T>(s: seq<T>, n: nat): (r: seq<T>)
    ensures |r| == if |s| <= n then |s| else n
  {
    if |s| <= n then s else s[|s| - n..]
  }

  /** push(x) and then, when the length passes the capacity, shift() the oldest. */
  function Push<T>(pile: seq<T>, x: T): (r: seq<T>)
    ensures |pile| <= Capacity ==> |r| == if |pile| < Capacity then |pile| + 1 else Capacity
    ensures |pile| <= Capacity ==> r == Newest(pile + [x], Capacity)
    ensures |r| > 0 && r[|r| - 1] == x
  {
    var grown := pile + [x];
    if |grown| > Capacity then grown[1..] else grown
  }

  /** Pushing the elements of xs one after the other. */
  function PushAll<T>(pile: seq<T>, xs: seq<T>): seq<T>
    decreases |xs|
  {
    if xs == [] then pile else PushAll(Push(pile, xs[0]), xs[1..])
  }

  lemma NewestOfNewest<T>(a: seq<T>, b: seq<T>, n: nat)
    ensures Newest(Newest(a, n) + b, n) == Newest(a + b, n)
  {
    if |a| > n {
      var s := a[|a| - n..] + b;
      assert |s| >= n;
      assert s[|s| - n..] == (a + b)[|a + b| - n..];
    }
  }

  /**
   * After any sequence of insertions into a pile within capacity, the pile
   * holds exactly the Capacity most recent pieces, oldest first.
   */
  lemma {:induction false} PushAllKeepsNewest<T>(pile: seq<T>, xs: seq<T>)
    requires |pile| <= Capacity
    ensures PushAll(pile, xs) == Newest(pile + xs, Capacity)
    decreases |xs|
  {
    if xs == [] {
      assert pile + xs == pile;
    } else {
      var p := Push(pile, xs[0]);
      PushAllKeepsNewest(p, xs[1..]);
      assert p == Newest(pile + [xs[0]], Capacity);
      NewestOfNewest(pile + [xs[0]], xs[1..], Capacity);
      assert pile + [xs[0]] + xs[1..] == pile + xs;
    }
  }

  // ---------------------------------------------------------------- grid

  function Row(i: nat): nat { i / PerRow }

  function Col(i: nat): nat { i % PerRow }

  /** countInRow: how many of the n pieces share piece i's row. */
  function CountInRow(i: nat, n: nat): int { if PerRow <= n - Row(i) * PerRow then PerRow else n - Row(i) * PerRow }

  /** Piece i sits at column Col(i) of row Row(i); every occupied row holds 1 to 5 pieces. */
  lemma GridSlot(i: nat, n: nat)
    requires i < n
    ensures i == PerRow * Row(i) + Col(i)
    ensures Col(i) < CountInRow(i, n) <= PerRow
  {
  }

  /** Grid neighbours: the next piece in a row, the piece one row up, and a row's two ends. */
  lemma GridNeighbours(i: nat, n: nat)
    requires i < n
    ensures i + 1 < n && Row(i + 1) == Row(i) ==> Col(i + 1) == Col(i) + 1 && CountInRow(i + 1, n) == CountInRow(i, n)
    ensures Row(i + PerRow) == Row(i) + 1 && Col(i + PerRow) == Col(i)
    ensures var first, last := PerRow * Row(i), PerRow * Row(i) + CountInRow(i, n) - 1;
            && first <= i <= last < n && Row(first) == Row(last) == Row(i)
            && Col(first) == 0 && Col(last) == CountInRow(i, n) - 1
            && CountInRow(first, n) == CountInRow(last, n) == CountInRow(i, n)
  {
    GridSlot(i, n);
  }

  /** Rows fill in insertion order: a later piece never sits on a lower row. */
  lemma RowsInOrder(i: nat, j: nat)
    requires i <= j
    ensures Row(i) <= Row(j)
    ensures Row(i) == Row(j) ==> Col(i) <= Col(j)
  {
  }

  /** Two pieces share a row exactly when they lie in the same block of five. */
  lemma SameRowIsBlock(i: nat, j: nat)
    ensures Row(i) == Row(j) <==> PerRow * Row(i) <= j < PerRow * Row(i) + PerRow
  {
  }

  // ---------------------------------------------------------------- conduction

  function Sum(ts: seq<real>): real
  {
    if ts == [] then 0.0 else ts[0] + Sum(ts[1..])
  }

  lemma {:induction false} SumUpdate(ts: seq<real>, i: nat, v: real)
    requires i < |ts|
    ensures Sum(ts[i := v]) == Sum(ts) - ts[i] + v
  {
    if i > 0 {
      SumUpdate(ts[1..], i - 1, v);
      assert ts[i := v][1..] == ts[1..][i - 1 := v];
    } else {
      assert ts[i := v][1..] == ts[1..];
    }
  }

  /**
   * One pair of the conduction pass: `flow` = (temp_i - temp_j) * c leaves
   * piece i and enters piece j; c is zero for pairs that are too far apart.
   */
  function Exchange(ts: seq<real>, i: nat, j: nat, c: real): (r: seq<real>)
    requires i < j < |ts|
    ensures |r| == |ts| && Sum(r) == Sum(ts)
    ensures r[i] + r[j] == ts[i] + ts[j]
    ensures forall k :: 0 <= k < |ts| && k != i && k != j ==> r[k] == ts[k]
    ensures 0.0 <= c && ts[j] <= ts[i] ==> r[i] <= ts[i] && ts[j] <= r[j]
    ensures c == 0.0 ==> r == ts
  {
    var flow := (ts[i] - ts[j]) * c;
    MulNonneg(ts[i] - ts[j], c);
    SumUpdate(ts, i, ts[i] - flow);
    SumUpdate(ts[i := ts[i] - flow], j, ts[j] + flow);
    ts[i := ts[i] - flow][j := ts[j] + flow]
  }

  lemma ExchangeIs(ts: seq<real>, i: nat, j: nat, c: real)
    requires i < j < |ts|
    ensures Exchange(ts, i, j, c) == ts[i := ts[i] - (ts[i] - ts[j]) * c][j := ts[j] + (ts[i] - ts[j]) * c]
  {
  }

  /** The inner loop of the pass: piece i against pieces j, j+1, ... in turn. */
  function ConductRow(ts: seq<real>, i: nat, j: nat, coef: (nat, nat) -> real): (r: seq<real>)
    requires i < j
    ensures |r| == |ts| && Sum(r) == Sum(ts)
    decreases |ts| - j
  {
    if j >= |ts| then ts else ConductRow(Exchange(ts, i, j, coef(i, j)), i, j + 1, coef)
  }

  /** The outer loop of the pass, from piece i on. */
  function ConductFrom(ts: seq<real>, i: nat, coef: (nat, nat) -> real): (r: seq<real>)
    ensures |r| == |ts| && Sum(r) == Sum(ts)
    decreases |ts| - i
  {
    if i >= |ts| then ts else ConductFrom(ConductRow(ts, i, i + 1, coef), i + 1, coef)
  }

  /** The whole pass over every pair i < j, in the loop order of logs.js and logs3d.js. */
  function Conduct(ts: seq<real>, coef: (nat, nat) -> real): (r: seq<real>)
    ensures |r| == |ts|
  {
    ConductFrom(ts, 0, coef)
  }

  /** Conduction only moves heat between pieces: the sum of all temperatures is unchanged. */
  lemma ConductConserves(ts: seq<real>, coef: (nat, nat) -> real)
    ensures Sum(Conduct(ts, coef)) == Sum(ts)
  {
  }

  /** With two pieces the pass is a single exchange: what one loses the other gains. */
  lemma ConductPairSymmetric(a: real, b: real, coef: (nat, nat) -> real)
    ensures var r := Conduct([a, b], coef);
            r[0] == a - (a - b) * coef(0, 1) && r[1] == b + (a - b) * coef(0, 1)
  {
    var e := Exchange([a, b], 0, 1, coef(0, 1));
    assert ConductRow([a, b], 0, 1, coef) == ConductRow(e, 0, 2, coef) == e;
    assert ConductRow(e, 1, 2, coef) == e;
    assert Conduct([a, b], coef) == ConductFrom(e, 1, coef) == ConductFrom(e, 2, coef);
  }
}
