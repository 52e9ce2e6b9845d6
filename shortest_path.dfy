/** Dijkstra's shortest path between two branches (newbank.c, `findShortestPath`):
    an O(V^2) search over parallel `distance` / `previous` / `visited` arrays,
    followed by a walk back along the predecessors. */
module ShortestPath {
  import opened Branches

  /** A tentative distance; `Infinite` is the "unreachable" sentinel (`FLT_MAX`). */
  datatype Dist = Infinite | Finite(value: real)

  /** The strict `<` of the source, with the sentinel above every finite distance
      and not below itself. */
  predicate Less(a: Dist, b: Dist) {
    a.Finite? && (b.Infinite? || a.value < b.value)
  }

  /** What a query reports: an unknown branch id, no path, or the total
      distance with the branch indices of the path in printed order. */
  datatype PathResult = BranchNotFound | NoPath | Route(distance: real, path: seq<int>)

  // ---------------------------------------------------------------------------
  // Walks through the graph
  // ---------------------------------------------------------------------------

  /** Index of the branch that the `k`-th connection of branch `u` leads to, or -1. */
  function Target(g: seq<BranchNode>, u: int, k: int): int
    requires 0 <= u < |g| && 0 <= k < |g[u].connections|
  {
    FindIndex(g, g[u].connections[k].branchId)
  }

  function Weight(g: seq<BranchNode>, u: int, k: int): real
    requires 0 <= u < |g| && 0 <= k < |g[u].connections|
  {
    g[u].connections[k].distance
  }

  /** A walk from `u`: at every step `slots` picks one connection of the current
      branch whose target id resolves to a branch of the table. */
  ghost predicate IsWalk(g: seq<BranchNode>, u: int, slots: seq<nat>)
    decreases |slots|
  {
    && 0 <= u < |g|
    && (|slots| > 0 ==>
          && slots[0] < |g[u].connections|
          && Target(g, u, slots[0]) != -1
          && IsWalk(g, Target(g, u, slots[0]), slots[1..]))
  }

  ghost function WalkEnd(g: seq<BranchNode>, u: int, slots: seq<nat>): (e: int)
    requires IsWalk(g, u, slots)
    ensures 0 <= e < |g|
    decreases |slots|
  {
    if |slots| == 0 then u else WalkEnd(g, Target(g, u, slots[0]), slots[1..])
  }

  ghost function WalkCost(g: seq<BranchNode>, u: int, slots: seq<nat>): real
    requires IsWalk(g, u, slots)
    decreases |slots|
  {
    if |slots| == 0 then 0.0
    else Weight(g, u, slots[0]) + WalkCost(g, Target(g, u, slots[0]), slots[1..])
  }

  /** The branches a walk visits, in order, its start and its end included. */
  ghost function WalkNodes(g: seq<BranchNode>, u: int, slots: seq<nat>): (p: seq<int>)
    requires IsWalk(g, u, slots)
    ensures |p| == |slots| + 1 && p[0] == u && p[|p| - 1] == WalkEnd(g, u, slots)
    decreases |slots|
  {
    if |slots| == 0 then [u] else [u] + WalkNodes(g, Target(g, u, slots[0]), slots[1..])
  }

  ghost predicate Reachable(g: seq<BranchNode>, s: int, e: int) {
    exists slots :: IsWalk(g, s, slots) && WalkEnd(g, s, slots) == e
  }

  /** `path` is the branch sequence of some walk from `s` to `e` of total weight `d`. */
  ghost predicate IsRoute(g: seq<BranchNode>, s: int, e: int, d: real, path: seq<int>) {
    exists slots :: IsWalk(g, s, slots) && WalkEnd(g, s, slots) == e
                    && WalkCost(g, s, slots) == d && WalkNodes(g, s, slots) == path
  }

  /** No walk from `s` to `e` weighs less than `d`. */
  ghost predicate IsShortest(g: seq<BranchNode>, s: int, e: int, d: real) {
    forall slots :: IsWalk(g, s, slots) && WalkEnd(g, s, slots) == e ==> d <= WalkCost(g, s, slots)
  }

  ghost predicate NonNegative(g: seq<BranchNode>) {
    forall u, k :: 0 <= u < |g| && 0 <= k < |g[u].connections| ==> g[u].connections[k].distance >= 0.0
  }

  // ---------------------------------------------------------------------------
  // Distance labellings that bound walks
  // ---------------------------------------------------------------------------

  /** Every resolvable connection out of a finitely labelled branch leads to a
      finitely labelled branch. */
  ghost predicate Closed(g: seq<BranchNode>, D: seq<Dist>)
    requires |g| <= |D|
  {
    forall y, k :: 0 <= y < |g| && 0 <= k < |g[y].connections| && D[y].Finite? && Target(g, y, k) != -1
      ==> D[Target(g, y, k)].Finite?
  }

  /** The labelling satisfies the triangle inequality along every resolvable
      connection out of a finitely labelled branch. */
  ghost predicate Feasible(g: seq<BranchNode>, D: seq<Dist>)
    requires |g| <= |D|
  {
    forall y, k :: 0 <= y < |g| && 0 <= k < |g[y].connections| && D[y].Finite? && Target(g, y, k) != -1
      ==> D[Target(g, y, k)].Finite? && D[Target(g, y, k)].value <= D[y].value + Weight(g, y, k)
  }

  /** A closed labelling is finite all along any walk from a finitely labelled branch. */
  lemma {:induction false} ClosedWalkFinite(g: seq<BranchNode>, D: seq<Dist>, u: int, slots: seq<nat>)
    requires |g| <= |D| && Closed(g, D)
    requires IsWalk(g, u, slots) && D[u].Finite?
    ensures D[WalkEnd(g, u, slots)].Finite?
    decreases |slots|
  {
    if |slots| > 0 {
      ClosedWalkFinite(g, D, Target(g, u, slots[0]), slots[1..]);
    }
  }

  /** A feasible labelling never exceeds the start's label plus the weight of a walk. */
  lemma {:induction false} FeasibleLowerBound(g: seq<BranchNode>, D: seq<Dist>, u: int, slots: seq<nat>)
    requires |g| <= |D| && Feasible(g, D)
    requires IsWalk(g, u, slots) && D[u].Finite?
    ensures D[WalkEnd(g, u, slots)].Finite?
    ensures D[WalkEnd(g, u, slots)].value <= D[u].value + WalkCost(g, u, slots)
    decreases |slots|
  {
    if |slots| > 0 {
      FeasibleLowerBound(g, D, Target(g, u, slots[0]), slots[1..]);
    }
  }


  // ---------------------------------------------------------------------------
  // The state of the search between rounds
  // ---------------------------------------------------------------------------

  /** Number of visited branches among the first `n`. */
  ghost function CountVisited(V: seq<bool>, n: nat): nat
    requires n <= |V|
  {
    if n == 0 then 0 else CountVisited(V, n - 1) + (if V[n - 1] then 1 else 0)
  }

  lemma {:induction false} CountVisitedAtMost(V: seq<bool>, n: nat)
    requires n <= |V|
    ensures CountVisited(V, n) <= n
  {
    if n > 0 {
      CountVisitedAtMost(V, n - 1);
    }
  }

  lemma {:induction false} CountVisitedNone(V: seq<bool>, n: nat)
    requires n <= |V| && forall i :: 0 <= i < n ==> !V[i]
    ensures CountVisited(V, n) == 0
  {
    if n > 0 {
      CountVisitedNone(V, n - 1);
    }
  }

  /** After as many rounds as there are branches, every branch has been visited. */
  lemma {:induction false} CountVisitedAll(V: seq<bool>, n: nat)
    requires n <= |V| && CountVisited(V, n) == n
    ensures forall i :: 0 <= i < n ==> V[i]
  {
    if n > 0 {
      CountVisitedAtMost(V, n - 1);
      CountVisitedAll(V, n - 1);
    }
  }

  lemma {:induction false} CountVisitedMark(V: seq<bool>, n: nat, u: int)
    requires n <= |V| && 0 <= u < |V| && !V[u]
    ensures CountVisited(V[u := true], n) == CountVisited(V, n) + (if u < n then 1 else 0)
  {
    if n > 0 {
      CountVisitedMark(V, n - 1, u);
    }
  }

  ghost predicate Sized(g: seq<BranchNode>, D: seq<Dist>, P: seq<int>, V: seq<bool>, K: seq<nat>, O: seq<nat>) {
    |g| <= |D| && |g| <= |P| && |g| <= |V| && |g| <= |K| && |g| <= |O|
  }

  /** The start keeps distance 0 and no predecessor; before the first round only
      it has a finite distance, and the first round visits it. */
  ghost predicate StartOk(g: seq<BranchNode>, s: int, D: seq<Dist>, P: seq<int>, V: seq<bool>, r: nat)
    requires |g| <= |D| && |g| <= |P| && |g| <= |V|
  {
    && 0 <= s < |g| && D[s] == Finite(0.0) && P[s] == -1
    && (r == 0 ==> forall i :: 0 <= i < |g| ==> !V[i] && (i != s ==> D[i] == Infinite))
    && (r > 0 ==> V[s])
  }

  /** Visited branches have finite distances and were visited in an earlier round. */
  ghost predicate VisitedOk(g: seq<BranchNode>, D: seq<Dist>, V: seq<bool>, O: seq<nat>, r: nat)
    requires |g| <= |D| && |g| <= |V| && |g| <= |O|
  {
    forall v :: 0 <= v < |g| && V[v] ==> D[v].Finite? && O[v] < r
  }

  /** Every resolvable connection out of a visited branch reaches a finite distance. */
  ghost predicate ClosedOk(g: seq<BranchNode>, D: seq<Dist>, V: seq<bool>)
    requires |g| <= |D| && |g| <= |V|
  {
    forall y, k :: 0 <= y < |g| && V[y] && 0 <= k < |g[y].connections| && Target(g, y, k) != -1
      ==> D[Target(g, y, k)].Finite?
  }

  /** The triangle inequality along every resolvable connection out of a visited branch. */
  ghost predicate TriOk(g: seq<BranchNode>, D: seq<Dist>, V: seq<bool>)
    requires |g| <= |D| && |g| <= |V|
  {
    forall y, k :: 0 <= y < |g| && V[y] && 0 <= k < |g[y].connections| && Target(g, y, k) != -1
                   && D[y].Finite? && D[Target(g, y, k)].Finite?
      ==> D[Target(g, y, k)].value <= D[y].value + Weight(g, y, k)
  }

  /** No unvisited branch is closer than a visited one. */
  ghost predicate MonoOk(g: seq<BranchNode>, D: seq<Dist>, V: seq<bool>)
    requires |g| <= |D| && |g| <= |V|
  {
    forall y, z :: 0 <= y < |g| && 0 <= z < |g| && V[y] && !V[z] && D[y].Finite? && D[z].Finite?
      ==> D[y].value <= D[z].value
  }

  /** Only the start has a finite distance without a predecessor. */
  ghost predicate ReachOk(g: seq<BranchNode>, s: int, D: seq<Dist>, P: seq<int>)
    requires |g| <= |D| && |g| <= |P|
  {
    forall v :: 0 <= v < |g| && D[v].Finite? ==> v == s || P[v] != -1
  }

  /** The predecessor of `v` is a visited branch `p` whose connection `K[v]`
      leads to `v` and accounts exactly for the difference of their distances;
      a visited `v` was visited after `p`. */
  ghost predicate PredOk(g: seq<BranchNode>, D: seq<Dist>, P: seq<int>, V: seq<bool>,
                         K: seq<nat>, O: seq<nat>, v: int)
    requires Sized(g, D, P, V, K, O) && 0 <= v < |g|
  {
    var p := P[v];
    && 0 <= p < |g| && V[p]
    && K[v] < |g[p].connections| && Target(g, p, K[v]) == v
    && D[v].Finite? && D[p].Finite?
    && D[v].value == D[p].value + Weight(g, p, K[v])
    && (V[v] ==> O[p] < O[v])
  }

  ghost predicate PredsOk(g: seq<BranchNode>, D: seq<Dist>, P: seq<int>, V: seq<bool>, K: seq<nat>, O: seq<nat>)
    requires Sized(g, D, P, V, K, O)
  {
    forall v :: 0 <= v < |g| && P[v] != -1 ==> PredOk(g, D, P, V, K, O, v)
  }

  /** What holds after `r` rounds of the search from branch `s`. `D`, `P`, `V`
      are the `distance`, `previous`, `visited` arrays; `K[v]` is the connection
      that set `P[v]`, and `O[v]` the round in which `v` was visited. */
  ghost predicate Inv(g: seq<BranchNode>, s: int, D: seq<Dist>, P: seq<int>, V: seq<bool>,
                      K: seq<nat>, O: seq<nat>, r: nat)
  {
    && Sized(g, D, P, V, K, O) && r <= |g|
    && StartOk(g, s, D, P, V, r)
    && CountVisited(V, |g|) == r
    && VisitedOk(g, D, V, O, r)
    && ClosedOk(g, D, V)
    && (NonNegative(g) ==> TriOk(g, D, V) && MonoOk(g, D, V))
    && ReachOk(g, s, D, P)
    && PredsOk(g, D, P, V, K, O)
  }

  /** `u` is an unvisited branch with a finite distance no other unvisited branch beats. */
  ghost predicate Selected(D: seq<Dist>, V: seq<bool>, n: nat, u: int)
    requires n <= |D| && n <= |V|
  {
    && 0 <= u < n && !V[u] && D[u].Finite?
    && forall i :: 0 <= i < n && !V[i] ==> !Less(D[i], D[u])
  }

  /** Branch `t` either kept its entries or was lowered through a connection of `u`. */
  ghost predicate KeptOrLowered(g: seq<BranchNode>, u: int, V: seq<bool>,
                                D0: seq<Dist>, P0: seq<int>, K0: seq<nat>,
                                D1: seq<Dist>, P1: seq<int>, K1: seq<nat>, t: int)
    requires 0 <= u < |g| && 0 <= t < |g|
    requires |g| <= |V| && |g| <= |D0| && |g| <= |P0| && |g| <= |K0|
    requires |D1| == |D0| && |P1| == |P0| && |K1| == |K0|
    requires D0[u].Finite?
  {
    || (D1[t] == D0[t] && P1[t] == P0[t] && K1[t] == K0[t])
    || (&& !V[t] && P1[t] == u
        && K1[t] < |g[u].connections| && Target(g, u, K1[t]) == t
        && D1[t] == Finite(D0[u].value + Weight(g, u, K1[t]))
        && Less(D1[t], D0[t]))
  }

  /** The effect of relaxing the first `m` connections of `u` with visited set `V`. */
  ghost predicate RelaxedUpTo(g: seq<BranchNode>, u: int, V: seq<bool>,
                              D0: seq<Dist>, P0: seq<int>, K0: seq<nat>,
                              D1: seq<Dist>, P1: seq<int>, K1: seq<nat>, m: int)
  {
    && 0 <= u < |g| && |g| <= |V| && |g| <= |D0| && |g| <= |P0| && |g| <= |K0|
    && |D1| == |D0| && |P1| == |P0| && |K1| == |K0|
    && D0[u].Finite? && V[u]
    && 0 <= m <= |g[u].connections|
    && (forall t :: 0 <= t < |g| ==> KeptOrLowered(g, u, V, D0, P0, K0, D1, P1, K1, t))
    && (forall k :: 0 <= k < m && Target(g, u, k) != -1 && !V[Target(g, u, k)]
          ==> D1[Target(g, u, k)].Finite? && D1[Target(g, u, k)].value <= D0[u].value + Weight(g, u, k))
  }

  /** One round of the search: `u` was selected, marked visited and relaxed. */
  ghost predicate Round(g: seq<BranchNode>, D0: seq<Dist>, P0: seq<int>, V0: seq<bool>, K0: seq<nat>,
                        u: int, D1: seq<Dist>, P1: seq<int>, K1: seq<nat>)
  {
    && |g| <= |D0| && |g| <= |V0|
    && Selected(D0, V0, |g|, u)
    && RelaxedUpTo(g, u, V0[u := true], D0, P0, K0, D1, P1, K1, |g[u].connections|)
  }

  /** A round leaves the entries of every visited branch as they were. */
  lemma RoundKeepsVisitedEntries(g: seq<BranchNode>, D0: seq<Dist>, P0: seq<int>, V0: seq<bool>, K0: seq<nat>,
                                 u: int, D1: seq<Dist>, P1: seq<int>, K1: seq<nat>)
    requires Round(g, D0, P0, V0, K0, u, D1, P1, K1)
    ensures forall v :: 0 <= v < |g| && V0[u := true][v] ==> D1[v] == D0[v] && P1[v] == P0[v] && K1[v] == K0[v]
  {
    forall v | 0 <= v < |g| && V0[u := true][v]
      ensures D1[v] == D0[v] && P1[v] == P0[v] && K1[v] == K0[v]
    {
      assert KeptOrLowered(g, u, V0[u := true], D0, P0, K0, D1, P1, K1, v);
    }
  }

  lemma RoundKeepsStart(g: seq<BranchNode>, s: int, D0: seq<Dist>, P0: seq<int>, V0: seq<bool>, K0: seq<nat>,
                        r: nat, u: int, D1: seq<Dist>, P1: seq<int>, K1: seq<nat>)
    requires Round(g, D0, P0, V0, K0, u, D1, P1, K1) && |g| <= |P0|
    requires StartOk(g, s, D0, P0, V0, r)
    ensures StartOk(g, s, D1, P1, V0[u := true], r + 1)
  {
    if r == 0 {
      assert u == s;
    }
    assert KeptOrLowered(g, u, V0[u := true], D0, P0, K0, D1, P1, K1, s);
  }

  lemma RoundKeepsClosed(g: seq<BranchNode>, D0: seq<Dist>, P0: seq<int>, V0: seq<bool>, K0: seq<nat>,
                         O0: seq<nat>, r: nat, u: int, D1: seq<Dist>, P1: seq<int>, K1: seq<nat>)
    requires Round(g, D0, P0, V0, K0, u, D1, P1, K1) && |g| <= |O0|
    requires VisitedOk(g, D0, V0, O0, r) && ClosedOk(g, D0, V0)
    requires forall v :: 0 <= v < |g| && V0[u := true][v] ==> D1[v] == D0[v]
    ensures ClosedOk(g, D1, V0[u := true])
  {
    var V1 := V0[u := true];
    forall y, k | 0 <= y < |g| && V1[y] && 0 <= k < |g[y].connections| && Target(g, y, k) != -1
      ensures D1[Target(g, y, k)].Finite?
    {
      assert KeptOrLowered(g, u, V1, D0, P0, K0, D1, P1, K1, Target(g, y, k));
    }
  }

  lemma RoundKeepsTri(g: seq<BranchNode>, D0: seq<Dist>, P0: seq<int>, V0: seq<bool>, K0: seq<nat>,
                      u: int, D1: seq<Dist>, P1: seq<int>, K1: seq<nat>)
    requires Round(g, D0, P0, V0, K0, u, D1, P1, K1) && NonNegative(g)
    requires ClosedOk(g, D0, V0) && TriOk(g, D0, V0) && MonoOk(g, D0, V0)
    requires forall v :: 0 <= v < |g| && V0[v] ==> D0[v].Finite?
    requires forall v :: 0 <= v < |g| && V0[u := true][v] ==> D1[v] == D0[v]
    ensures TriOk(g, D1, V0[u := true])
  {
    var V1 := V0[u := true];
    forall y, k | 0 <= y < |g| && V1[y] && 0 <= k < |g[y].connections| && Target(g, y, k) != -1
                  && D1[y].Finite? && D1[Target(g, y, k)].Finite?
      ensures D1[Target(g, y, k)].value <= D1[y].value + Weight(g, y, k)
    {
      var z := Target(g, y, k);
      assert KeptOrLowered(g, u, V1, D0, P0, K0, D1, P1, K1, z);
      assert g[y].connections[k].distance >= 0.0;
      if y == u && V0[z] {
        assert D0[z].value <= D0[u].value;
      }
    }
  }

  lemma RoundKeepsMono(g: seq<BranchNode>, D0: seq<Dist>, P0: seq<int>, V0: seq<bool>, K0: seq<nat>,
                       u: int, D1: seq<Dist>, P1: seq<int>, K1: seq<nat>)
    requires Round(g, D0, P0, V0, K0, u, D1, P1, K1) && NonNegative(g)
    requires MonoOk(g, D0, V0)
    requires forall v :: 0 <= v < |g| && V0[v] ==> D0[v].Finite?
    requires forall v :: 0 <= v < |g| && V0[u := true][v] ==> D1[v] == D0[v]
    ensures MonoOk(g, D1, V0[u := true])
  {
    var V1 := V0[u := true];
    forall y, z | 0 <= y < |g| && 0 <= z < |g| && V1[y] && !V1[z] && D1[y].Finite? && D1[z].Finite?
      ensures D1[y].value <= D1[z].value
    {
      assert KeptOrLowered(g, u, V1, D0, P0, K0, D1, P1, K1, z);
      if D1[z] != D0[z] {
        assert g[u].connections[K1[z]].distance >= 0.0;
      }
    }
  }

  lemma RoundKeepsReach(g: seq<BranchNode>, s: int, D0: seq<Dist>, P0: seq<int>, V0: seq<bool>, K0: seq<nat>,
                        u: int, D1: seq<Dist>, P1: seq<int>, K1: seq<nat>)
    requires Round(g, D0, P0, V0, K0, u, D1, P1, K1) && |g| <= |P0|
    requires ReachOk(g, s, D0, P0)
    ensures ReachOk(g, s, D1, P1)
  {
    forall v | 0 <= v < |g| && D1[v].Finite?
      ensures v == s || P1[v] != -1
    {
      assert KeptOrLowered(g, u, V0[u := true], D0, P0, K0, D1, P1, K1, v);
    }
  }

  lemma RoundKeepsPreds(g: seq<BranchNode>, D0: seq<Dist>, P0: seq<int>, V0: seq<bool>, K0: seq<nat>,
                        O0: seq<nat>, r: nat, u: int, D1: seq<Dist>, P1: seq<int>, K1: seq<nat>)
    requires Round(g, D0, P0, V0, K0, u, D1, P1, K1) && Sized(g, D0, P0, V0, K0, O0)
    requires VisitedOk(g, D0, V0, O0, r) && PredsOk(g, D0, P0, V0, K0, O0)
    requires forall v :: 0 <= v < |g| && V0[u := true][v] ==> D1[v] == D0[v]
    ensures PredsOk(g, D1, P1, V0[u := true], K1, O0[u := r])
  {
    var V1, O1 := V0[u := true], O0[u := r];
    forall v | 0 <= v < |g| && P1[v] != -1
      ensures PredOk(g, D1, P1, V1, K1, O1, v)
    {
      assert KeptOrLowered(g, u, V1, D0, P0, K0, D1, P1, K1, v);
      if D1[v] == D0[v] && P1[v] == P0[v] && K1[v] == K0[v] {
        assert PredOk(g, D0, P0, V0, K0, O0, v);
      }
    }
  }

  /** One round (select `u`, mark it visited, relax its connections) keeps `Inv`. */
  lemma RoundKeepsInv(g: seq<BranchNode>, s: int, D0: seq<Dist>, P0: seq<int>, V0: seq<bool>,
                      K0: seq<nat>, O0: seq<nat>, r: nat, u: int,
                      D1: seq<Dist>, P1: seq<int>, K1: seq<nat>)
    requires Inv(g, s, D0, P0, V0, K0, O0, r) && r < |g|
    requires Round(g, D0, P0, V0, K0, u, D1, P1, K1)
    ensures Inv(g, s, D1, P1, V0[u := true], K1, O0[u := r], r + 1)
  {
    RoundKeepsVisitedEntries(g, D0, P0, V0, K0, u, D1, P1, K1);
    RoundKeepsStart(g, s, D0, P0, V0, K0, r, u, D1, P1, K1);
    CountVisitedMark(V0, |g|, u);
    RoundKeepsClosed(g, D0, P0, V0, K0, O0, r, u, D1, P1, K1);
    if NonNegative(g) {
      RoundKeepsTri(g, D0, P0, V0, K0, u, D1, P1, K1);
      RoundKeepsMono(g, D0, P0, V0, K0, u, D1, P1, K1);
    }
    RoundKeepsReach(g, s, D0, P0, V0, K0, u, D1, P1, K1);
    RoundKeepsPreds(g, D0, P0, V0, K0, O0, r, u, D1, P1, K1);
  }

  /** What the search leaves behind once it stops: every finitely labelled
      branch is visited, the labelling is closed (and feasible when no weight
      is negative), and the predecessors form descending chains. */
  ghost predicate Final(g: seq<BranchNode>, s: int, D: seq<Dist>, P: seq<int>, V: seq<bool>, K: seq<nat>, O: seq<nat>)
  {
    && Sized(g, D, P, V, K, O)
    && 0 <= s < |g| && D[s] == Finite(0.0) && P[s] == -1
    && (forall i :: 0 <= i < |g| && D[i].Finite? ==> V[i])
    && Closed(g, D) && (NonNegative(g) ==> Feasible(g, D))
    && ReachOk(g, s, D, P) && PredsOk(g, D, P, V, K, O) && Descending(P, V, O, |g|)
  }

  lemma FinalLabelling(g: seq<BranchNode>, s: int, D: seq<Dist>, P: seq<int>, V: seq<bool>,
                       K: seq<nat>, O: seq<nat>, r: nat)
    requires Inv(g, s, D, P, V, K, O, r)
    requires forall i :: 0 <= i < |g| && D[i].Finite? ==> V[i]
    ensures Final(g, s, D, P, V, K, O)
  {
  }

  // ---------------------------------------------------------------------------
  // The search
  // ---------------------------------------------------------------------------

  /** The minimum scan: the unvisited branch with the strictly smallest finite
      distance, the lowest index among equals, or -1 when there is none. */
  method SelectMin(dist: array<Dist>, visited: array<bool>, n: int) returns (minIndex: int)
    requires 0 <= n <= dist.Length && n <= visited.Length
    ensures -1 <= minIndex < n
    ensures minIndex == -1 <==> forall i :: 0 <= i < n ==> visited[i] || dist[i].Infinite?
    ensures minIndex != -1 ==> !visited[minIndex] && dist[minIndex].Finite?
    ensures minIndex != -1 ==>
      forall i :: 0 <= i < minIndex && !visited[i] ==> Less(dist[minIndex], dist[i])
    ensures minIndex != -1 ==>
      forall i :: minIndex < i < n && !visited[i] ==> !Less(dist[i], dist[minIndex])
  {
    var minDist := Infinite;
    minIndex := -1;
    var i := 0;
    while i < n
      invariant 0 <= i <= n && -1 <= minIndex < i
      invariant minIndex == -1 ==> minDist == Infinite
      invariant minIndex == -1 ==> forall j :: 0 <= j < i ==> visited[j] || dist[j].Infinite?
      invariant minIndex != -1 ==> minDist == dist[minIndex] && !visited[minIndex] && minDist.Finite?
      invariant minIndex != -1 ==>
        forall j :: 0 <= j < minIndex && !visited[j] ==> Less(dist[minIndex], dist[j])
      invariant minIndex != -1 ==>
        forall j :: minIndex < j < i && !visited[j] ==> !Less(dist[j], dist[minIndex])
    {
      if !visited[i] && Less(dist[i], minDist) {
        minDist := dist[i];
        minIndex := i;
      }
      i := i + 1;
    }
  }

  /** Relaxing connection `k` of `u` when it offers nothing shorter. */
  lemma RelaxSkip(g: seq<BranchNode>, u: int, V: seq<bool>, D0: seq<Dist>, P0: seq<int>, K0: seq<nat>,
                  D1: seq<Dist>, P1: seq<int>, K1: seq<nat>, k: int)
    requires RelaxedUpTo(g, u, V, D0, P0, K0, D1, P1, K1, k) && k < |g[u].connections|
    requires Target(g, u, k) == -1 || V[Target(g, u, k)]
             || !Less(Finite(D0[u].value + Weight(g, u, k)), D1[Target(g, u, k)])
    ensures RelaxedUpTo(g, u, V, D0, P0, K0, D1, P1, K1, k + 1)
  {
  }

  /** Relaxing connection `k` of `u` when it lowers the distance of its target `t`. */
  lemma RelaxLower(g: seq<BranchNode>, u: int, V: seq<bool>, D0: seq<Dist>, P0: seq<int>, K0: seq<nat>,
                   D1: seq<Dist>, P1: seq<int>, K1: seq<nat>, k: int, t: int)
    requires RelaxedUpTo(g, u, V, D0, P0, K0, D1, P1, K1, k) && k < |g[u].connections|
    requires t == Target(g, u, k) && t != -1 && !V[t]
    requires Less(Finite(D0[u].value + Weight(g, u, k)), D1[t])
    ensures RelaxedUpTo(g, u, V, D0, P0, K0, D1[t := Finite(D0[u].value + Weight(g, u, k))],
                        P1[t := u], K1[t := k], k + 1)
  {
    var D2, P2, K2 := D1[t := Finite(D0[u].value + Weight(g, u, k))], P1[t := u], K1[t := k];
    forall t' | 0 <= t' < |g|
      ensures KeptOrLowered(g, u, V, D0, P0, K0, D2, P2, K2, t')
    {
      assert KeptOrLowered(g, u, V, D0, P0, K0, D1, P1, K1, t');
    }
  }

  /** Relaxes every connection of the branch `u` just visited: a connection whose
      target resolves to an unvisited branch lowers that branch's distance when it
      offers a strictly shorter one. `K` records the connection used. */
  method Relax(graph: Graph, u: int, dist: array<Dist>, prev: array<int>, visited: array<bool>,
               ghost K0: seq<nat>) returns (ghost K1: seq<nat>)
    requires graph.Valid() && 0 <= u < graph.count
    requires dist.Length == MaxBranches && prev.Length == MaxBranches
    requires visited.Length == MaxBranches && |K0| == MaxBranches
    requires visited[u] && dist[u].Finite?
    modifies dist, prev
    ensures RelaxedUpTo(graph.Snapshot(), u, visited[..], old(dist[..]), old(prev[..]), K0,
                        dist[..], prev[..], K1, |graph.Snapshot()[u].connections|)
  {
    ghost var g := graph.Snapshot();
    ghost var D0, P0, V := dist[..], prev[..], visited[..];
    var edges := graph.nodes[u].connections;
    assert edges == g[u].connections;
    K1 := K0;
    var k := 0;
    while k < |edges|
      invariant 0 <= k <= |edges| && dist[u] == D0[u]
      invariant RelaxedUpTo(g, u, V, D0, P0, K0, dist[..], prev[..], K1, k)
    {
      var e := edges[k];
      var t := graph.FindBranchIndex(e.branchId);
      assert t == Target(g, u, k) && e.distance == Weight(g, u, k);
      if t != -1 && !visited[t] {
        var newDist := Finite(dist[u].value + e.distance);
        if Less(newDist, dist[t]) {
          RelaxLower(g, u, V, D0, P0, K0, dist[..], prev[..], K1, k, t);
          dist[t] := newDist;
          prev[t] := u;
          K1 := K1[t := k];
        } else {
          RelaxSkip(g, u, V, D0, P0, K0, dist[..], prev[..], K1, k);
        }
      } else {
        RelaxSkip(g, u, V, D0, P0, K0, dist[..], prev[..], K1, k);
      }
      k := k + 1;
    }
  }

  /** The initialisation loop of `findShortestPath`: every branch unvisited, at
      the sentinel distance and without predecessor, then the start at 0. */
  method Initialise(n: nat, startIndex: int) returns (dist: array<Dist>, prev: array<int>, visited: array<bool>)
    requires 0 <= startIndex < n <= MaxBranches
    ensures fresh(dist) && fresh(prev) && fresh(visited)
    ensures dist.Length == MaxBranches && prev.Length == MaxBranches && visited.Length == MaxBranches
    ensures forall i :: 0 <= i < n ==>
      && dist[i] == (if i == startIndex then Finite(0.0) else Infinite)
      && prev[i] == -1 && !visited[i]
  {
    dist := new Dist[MaxBranches];
    prev := new int[MaxBranches];
    visited := new bool[MaxBranches];
    var i := 0;
    while i < n
      invariant 0 <= i <= n
      invariant forall j :: 0 <= j < i ==> dist[j] == Infinite && prev[j] == -1 && !visited[j]
    {
      dist[i] := Infinite;
      prev[i] := -1;
      visited[i] := false;
      i := i + 1;
    }
    dist[startIndex] := Finite(0.0);
  }

  /** The initial arrays satisfy the invariant before the first round. */
  lemma InitialInv(g: seq<BranchNode>, s: int, D: seq<Dist>, P: seq<int>, V: seq<bool>, K: seq<nat>, O: seq<nat>)
    requires Sized(g, D, P, V, K, O) && 0 <= s < |g|
    requires forall i :: 0 <= i < |g| ==>
      && D[i] == (if i == s then Finite(0.0) else Infinite) && P[i] == -1 && !V[i]
    ensures Inv(g, s, D, P, V, K, O, 0)
  {
    CountVisitedNone(V, |g|);
  }

  /** One round of `findShortestPath`: selects the closest unvisited branch,
      marks it visited and relaxes its connections; reports `false`, changing
      nothing, when no unvisited branch has a finite distance. */
  method SearchRound(graph: Graph, startIndex: int, dist: array<Dist>, prev: array<int>, visited: array<bool>,
                     ghost K0: seq<nat>, ghost O0: seq<nat>, count: nat)
    returns (progressed: bool, ghost K1: seq<nat>, ghost O1: seq<nat>)
    requires graph.Valid() && count < graph.count
    requires dist.Length == MaxBranches && prev.Length == MaxBranches && visited.Length == MaxBranches
    requires |K0| == MaxBranches && |O0| == MaxBranches
    requires Inv(graph.Snapshot(), startIndex, dist[..], prev[..], visited[..], K0, O0, count)
    modifies dist, prev, visited
    ensures |K1| == MaxBranches && |O1| == MaxBranches
    ensures !progressed ==> unchanged(dist, prev, visited) && K1 == K0 && O1 == O0
    ensures !progressed ==> forall i :: 0 <= i < graph.count && dist[i].Finite? ==> visited[i]
    ensures progressed ==> Inv(graph.Snapshot(), startIndex, dist[..], prev[..], visited[..], K1, O1, count + 1)
    ensures progressed ==> exists u ::
      && Round(graph.Snapshot(), old(dist[..]), old(prev[..]), old(visited[..]), K0, u, dist[..], prev[..], K1)
      && visited[..] == old(visited[..])[u := true]
      && (forall i :: 0 <= i < u && !old(visited[i]) ==> Less(old(dist[u]), old(dist[i])))
  {
    ghost var g := graph.Snapshot();
    var minIndex := SelectMin(dist, visited, graph.count);
    if minIndex == -1 {
      return false, K0, O0;
    }
    ghost var D0, P0, V0 := dist[..], prev[..], visited[..];
    assert Selected(D0, V0, graph.count, minIndex);
    visited[minIndex] := true;
    assert visited[..] == V0[minIndex := true];
    K1 := Relax(graph, minIndex, dist, prev, visited, K0);
    RoundKeepsInv(g, startIndex, D0, P0, V0, K0, O0, count, minIndex, dist[..], prev[..], K1);
    O1 := O0[minIndex := count];
    assert Round(g, D0, P0, V0, K0, minIndex, dist[..], prev[..], K1);
    progressed := true;
  }

  /** The rounds of `findShortestPath`: at most one per branch, stopping early
      once no unvisited branch has a finite distance. */
  method Search(graph: Graph, startIndex: int)
    returns (dist: array<Dist>, prev: array<int>, visited: array<bool>,
             ghost K: seq<nat>, ghost O: seq<nat>)
    requires graph.Valid() && 0 <= startIndex < graph.count
    ensures fresh(dist) && fresh(prev) && fresh(visited)
    ensures dist.Length == MaxBranches && prev.Length == MaxBranches && visited.Length == MaxBranches
    ensures Final(graph.Snapshot(), startIndex, dist[..], prev[..], visited[..], K, O)
  {
    ghost var g := graph.Snapshot();
    var n := graph.count;
    dist, prev, visited := Initialise(n, startIndex);
    K := seq(MaxBranches, _ => 0);
    O := seq(MaxBranches, _ => 0);
    InitialInv(g, startIndex, dist[..], prev[..], visited[..], K, O);
    var count := 0;
    while count < n
      invariant 0 <= count <= n && |K| == MaxBranches && |O| == MaxBranches
      invariant Inv(g, startIndex, dist[..], prev[..], visited[..], K, O, count)
    {
      ghost var D0, P0, V0 := dist[..], prev[..], visited[..];
      var progressed;
      progressed, K, O := SearchRound(graph, startIndex, dist, prev, visited, K, O, count);
      if !progressed {
        assert dist[..] == D0 && prev[..] == P0 && visited[..] == V0;
        FinalLabelling(g, startIndex, D0, P0, V0, K, O, count);
        return;
      }
      count := count + 1;
    }
    CountVisitedAll(visited[..], n);
    FinalLabelling(g, startIndex, dist[..], prev[..], visited[..], K, O, count);
  }

  function Reversed(s: seq<int>): (r: seq<int>)
    ensures |r| == |s|
    ensures forall i :: 0 <= i < |s| ==> r[i] == s[|s| - 1 - i]
  {
    if s == [] then [] else [s[|s| - 1]] + Reversed(s[..|s| - 1])
  }

  lemma ReversedSnoc(s: seq<int>, x: int)
    ensures Reversed(s + [x]) == [x] + Reversed(s)
  {
    assert (s + [x])[..|s|] == s;
  }

  /** `trail` follows `P` back from its first entry, staying inside the table. */
  ghost predicate BackChain(P: seq<int>, trail: seq<int>, n: nat)
    requires n <= |P|
  {
    && |trail| >= 1
    && (forall i :: 0 <= i < |trail| ==> 0 <= trail[i] < n)
    && (forall i :: 0 <= i < |trail| - 1 ==> trail[i + 1] == P[trail[i]])
  }

  /** Predecessors of visited branches are visited branches visited earlier. */
  ghost predicate Descending(P: seq<int>, V: seq<bool>, O: seq<nat>, n: nat)
    requires n <= |P| && n <= |V| && n <= |O|
  {
    && (forall v :: 0 <= v < n && V[v] ==> O[v] < n)
    && (forall v :: 0 <= v < n && V[v] && P[v] != -1 ==> 0 <= P[v] < n && V[P[v]] && O[P[v]] < O[v])
  }

  /** Read backwards, a chain of predecessors from `e` is the branch sequence
      of a walk to `e` whose weight is the difference of the distances. */
  lemma {:induction false} ChainWalk(g: seq<BranchNode>, D: seq<Dist>, P: seq<int>, V: seq<bool>,
                                     K: seq<nat>, O: seq<nat>, trail: seq<int>)
    returns (slots: seq<nat>)
    requires Sized(g, D, P, V, K, O) && PredsOk(g, D, P, V, K, O)
    requires BackChain(P, trail, |g|) && D[trail[0]].Finite?
    requires forall i :: 0 <= i < |trail| - 1 ==> P[trail[i]] != -1
    ensures D[trail[|trail| - 1]].Finite?
    ensures IsWalk(g, trail[|trail| - 1], slots) && WalkEnd(g, trail[|trail| - 1], slots) == trail[0]
    ensures D[trail[0]].value == D[trail[|trail| - 1]].value + WalkCost(g, trail[|trail| - 1], slots)
    ensures WalkNodes(g, trail[|trail| - 1], slots) == Reversed(trail)
    decreases |trail|
  {
    if |trail| == 1 {
      slots := [];
      assert Reversed(trail) == [trail[0]];
    } else {
      var front := trail[..|trail| - 1];
      assert BackChain(P, front, |g|);
      var rest := ChainWalk(g, D, P, V, K, O, front);
      var c, p := front[|front| - 1], trail[|trail| - 1];
      assert PredOk(g, D, P, V, K, O, c);
      slots := [K[c]] + rest;
      assert slots[1..] == rest;
      assert trail == front + [p];
      ReversedSnoc(front, p);
    }
  }

  /** The path reconstruction: follows `previous` back from the end into a
      buffer of at most `MaxBranches` entries, then reads it backwards. */
  method RebuildPath(prev: array<int>, endIndex: int, ghost V: seq<bool>, ghost O: seq<nat>, ghost n: nat)
    returns (path: seq<int>, ghost trail: seq<int>)
    requires n <= MaxBranches && n <= prev.Length && n <= |V| && n <= |O|
    requires Descending(prev[..], V, O, n)
    requires 0 <= endIndex < n && V[endIndex]
    ensures BackChain(prev[..], trail, n) && trail[0] == endIndex && |trail| <= n
    ensures forall i :: 0 <= i < |trail| - 1 ==> prev[trail[i]] != -1
    ensures prev[trail[|trail| - 1]] == -1
    ensures path == Reversed(trail)
  {
    ghost var P := prev[..];
    var buffer := new int[MaxBranches];
    buffer[0] := endIndex;
    var pathLength := 1;
    var at := prev[endIndex];
    trail := [endIndex];
    while at != -1
      invariant 1 <= pathLength <= n && |trail| == pathLength
      invariant buffer[..pathLength] == trail
      invariant BackChain(P, trail, n) && trail[0] == endIndex
      invariant forall i :: 0 <= i < |trail| - 1 ==> P[trail[i]] != -1
      invariant at == P[trail[pathLength - 1]] && V[trail[pathLength - 1]]
      invariant pathLength + O[trail[pathLength - 1]] <= n
      decreases O[trail[pathLength - 1]]
    {
      buffer[pathLength] := at;
      trail := trail + [at];
      pathLength := pathLength + 1;
      at := prev[at];
    }
    path := Reversed(buffer[..pathLength]);
  }

  /** `findShortestPath`: resolves both ids, runs the search from the start
      branch, and rebuilds the path by following `previous` back from the end. */
  method FindShortestPath(graph: Graph, startBranchId: int, endBranchId: int) returns (r: PathResult)
    requires graph.Valid()
    ensures var g := graph.Snapshot();
      r.BranchNotFound? <==> FindIndex(g, startBranchId) == -1 || FindIndex(g, endBranchId) == -1
    ensures var g := graph.Snapshot(); var s := FindIndex(g, startBranchId); var e := FindIndex(g, endBranchId);
      r.NoPath? <==> s != -1 && e != -1 && !Reachable(g, s, e)
    ensures var g := graph.Snapshot(); var s := FindIndex(g, startBranchId); var e := FindIndex(g, endBranchId);
      r.Route? ==> IsRoute(g, s, e, r.distance, r.path) && |r.path| <= |g|
    ensures var g := graph.Snapshot(); var s := FindIndex(g, startBranchId); var e := FindIndex(g, endBranchId);
      r.Route? && NonNegative(g) ==> IsShortest(g, s, e, r.distance)
    ensures var g := graph.Snapshot(); var s := FindIndex(g, startBranchId);
      s != -1 && FindIndex(g, endBranchId) == s ==> r == Route(0.0, [s])
  {
    ghost var g := graph.Snapshot();
    var startIndex := graph.FindBranchIndex(startBranchId);
    var endIndex := graph.FindBranchIndex(endBranchId);
    if startIndex == -1 || endIndex == -1 {
      return BranchNotFound;
    }
    var dist, prev, visited, K, O := Search(graph, startIndex);
    ghost var D, V := dist[..], visited[..];

    if dist[endIndex] == Infinite {
      NoWalkTo(g, startIndex, endIndex, D);
      return NoPath;
    }

    var path, trail := RebuildPath(prev, endIndex, V, O, |g|);
    r := Route(dist[endIndex].value, path);
    ChainRoute(g, startIndex, D, prev[..], V, K, O, trail);
    if NonNegative(g) {
      Optimal(g, startIndex, endIndex, D);
    }
  }

  /** The chain the reconstruction follows ends at the start, and read
      backwards it is a route of the end's distance; from the start to
      itself it is the start alone. */
  lemma ChainRoute(g: seq<BranchNode>, s: int, D: seq<Dist>, P: seq<int>, V: seq<bool>,
                   K: seq<nat>, O: seq<nat>, trail: seq<int>)
    requires Final(g, s, D, P, V, K, O)
    requires BackChain(P, trail, |g|) && D[trail[0]].Finite? && |trail| <= |g|
    requires forall i :: 0 <= i < |trail| - 1 ==> P[trail[i]] != -1
    requires P[trail[|trail| - 1]] == -1
    ensures IsRoute(g, s, trail[0], D[trail[0]].value, Reversed(trail))
    ensures trail[0] == s ==> Reversed(trail) == [s]
  {
    var slots := ChainWalk(g, D, P, V, K, O, trail);
    assert Reversed(trail[..1]) == [trail[0]];
  }

  /** A closed labelling finite at `s` and infinite at `e` rules out every walk from `s` to `e`. */
  lemma NoWalkTo(g: seq<BranchNode>, s: int, e: int, D: seq<Dist>)
    requires |g| <= |D| && Closed(g, D) && 0 <= s < |g| && D[s].Finite? && 0 <= e < |g| && D[e].Infinite?
    ensures !Reachable(g, s, e)
  {
    forall slots | IsWalk(g, s, slots)
      ensures WalkEnd(g, s, slots) != e
    {
      ClosedWalkFinite(g, D, s, slots);
    }
  }

  /** A feasible labelling with the start at 0 bounds every walk from the start from below. */
  lemma Optimal(g: seq<BranchNode>, s: int, e: int, D: seq<Dist>)
    requires |g| <= |D| && Feasible(g, D) && 0 <= s < |g| && D[s] == Finite(0.0) && 0 <= e < |g| && D[e].Finite?
    ensures IsShortest(g, s, e, D[e].value)
  {
    forall slots | IsWalk(g, s, slots) && WalkEnd(g, s, slots) == e
      ensures D[e].value <= WalkCost(g, s, slots)
    {
      FeasibleLowerBound(g, D, s, slots);
    }
  }
}
