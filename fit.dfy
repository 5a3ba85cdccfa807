/** The order-fitting scan behind ArrayFit, over a table `fits` where `fits[k][j]`
    says whether sub-pattern `k` accepts input element `j` (`n` elements in all). */
module Fit {

  /** Every row of the table covers the `n` input elements. */
  predicate Table(fits: seq<seq<bool>>, n: nat) {
    forall k :: 0 <= k < |fits| ==> |fits[k]| == n
  }

  /** The greedy first-fit scan from sub-pattern `k`, input cursor `i`: the
      current sub-pattern takes the first element at or after the cursor that it
      accepts, and the cursor moves past every element it looks at. */
  function Greedy(fits: seq<seq<bool>>, n: nat, k: nat, i: nat): bool
    requires Table(fits, n) && k <= |fits| && i <= n
    decreases |fits| - k + (n - i)
  {
    if k == |fits| then true
    else if i == n then false
    else if fits[k][i] then Greedy(fits, n, k + 1, i + 1)
    else Greedy(fits, n, k, i + 1)
  }

  /** The cursor runs past every element that sub-pattern `k` rejects and stops
      right after the first one it accepts, where sub-pattern `k + 1` takes over. */
  lemma {:induction false} GreedySkip(fits: seq<seq<bool>>, n: nat, k: nat, i: nat, j: nat)
    requires Table(fits, n) && k < |fits| && i <= j < n
    requires forall l :: i <= l < j ==> !fits[k][l]
    requires fits[k][j]
    ensures Greedy(fits, n, k, i) == Greedy(fits, n, k + 1, j + 1)
    decreases j - i
  {
    if i < j {
      GreedySkip(fits, n, k, i + 1, j);
    }
  }

  /** When sub-pattern `k` accepts no element from the cursor on, the scan fails:
      it never goes back to an earlier element. */
  lemma {:induction false} GreedyNoFit(fits: seq<seq<bool>>, n: nat, k: nat, i: nat)
    requires Table(fits, n) && k < |fits| && i <= n
    requires forall l :: i <= l < n ==> !fits[k][l]
    ensures !Greedy(fits, n, k, i)
    decreases n - i
  {
    if i < n {
      GreedyNoFit(fits, n, k, i + 1);
    }
  }

  /** `pos` places sub-patterns `k`, `k + 1`, ... at strictly increasing input
      positions, all at or after `i`, each accepting the element it is placed on. */
  ghost predicate PlacedFrom(fits: seq<seq<bool>>, n: nat, k: nat, i: nat, pos: seq<int>)
    requires Table(fits, n) && k <= |fits|
  {
    && |pos| == |fits| - k
    && (forall j :: 0 <= j < |pos| ==> i <= pos[j] < n && fits[k + j][pos[j]])
    && (forall j :: 0 < j < |pos| ==> pos[j - 1] < pos[j])
  }

  /** A successful scan exhibits the positions it used. */
  lemma {:induction false} GreedySound(fits: seq<seq<bool>>, n: nat, k: nat, i: nat) returns (pos: seq<int>)
    requires Table(fits, n) && k <= |fits| && i <= n
    requires Greedy(fits, n, k, i)
    ensures PlacedFrom(fits, n, k, i, pos)
    decreases |fits| - k + (n - i)
  {
    if k == |fits| {
      pos := [];
    } else if fits[k][i] {
      var rest := GreedySound(fits, n, k + 1, i + 1);
      pos := [i] + rest;
      assert forall j :: 0 < j < |pos| ==> pos[j] == rest[j - 1];
    } else {
      pos := GreedySound(fits, n, k, i + 1);
    }
  }

  /** Whenever positions exist, the greedy scan finds some: taking the first
      accepted element never blocks a later sub-pattern. */
  lemma {:induction false} GreedyComplete(fits: seq<seq<bool>>, n: nat, k: nat, i: nat, pos: seq<int>)
    requires Table(fits, n) && k <= |fits| && i <= n
    requires PlacedFrom(fits, n, k, i, pos)
    ensures Greedy(fits, n, k, i)
    decreases |fits| - k + (n - i)
  {
    if k < |fits| {
      assert i <= pos[0] < n;
      if fits[k][i] {
        var rest := pos[1..];
        forall j | 0 <= j < |rest|
          ensures i + 1 <= rest[j] < n && fits[k + 1 + j][rest[j]]
        {
          if j > 0 {
            assert rest[j - 1] == pos[j] && rest[j] == pos[j + 1];
          }
          assert pos[j] < pos[j + 1];
          LaterPositionsGrow(pos, j + 1);
        }
        assert PlacedFrom(fits, n, k + 1, i + 1, rest);
        GreedyComplete(fits, n, k + 1, i + 1, rest);
      } else {
        assert pos[0] != i;
        forall j | 0 <= j < |pos|
          ensures i + 1 <= pos[j]
        {
          LaterPositionsGrow(pos, j);
        }
        GreedyComplete(fits, n, k, i + 1, pos);
      }
    }
  }

  /** In a strictly increasing sequence every element is at least the first one
      plus its index. */
  lemma {:induction false} LaterPositionsGrow(pos: seq<int>, j: nat)
    requires j < |pos|
    requires forall m :: 0 < m < |pos| ==> pos[m - 1] < pos[m]
    ensures pos[0] + j <= pos[j]
  {
    if j > 0 {
      LaterPositionsGrow(pos, j - 1);
    }
  }

  /** The whole scan succeeds exactly when every sub-pattern can be placed on an
      element it accepts at strictly increasing positions. */
  lemma GreedyIffPlaced(fits: seq<seq<bool>>, n: nat)
    requires Table(fits, n)
    ensures Greedy(fits, n, 0, 0) <==> exists pos :: PlacedFrom(fits, n, 0, 0, pos)
  {
    if Greedy(fits, n, 0, 0) {
      var pos := GreedySound(fits, n, 0, 0);
    }
    if pos :| PlacedFrom(fits, n, 0, 0, pos) {
      GreedyComplete(fits, n, 0, 0, pos);
    }
  }
}
