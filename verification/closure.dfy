/** The closure engine: `connect` walks the adjacency map depth first and
    `closure` collects, per key, every node reachable from it. Duplicates from
    several paths are kept, exactly as the recursive walk produces them. */
module Closure {

  /** Keys lie in `[0, n)` and every listed neighbour is itself a key lying
      strictly after its source. Such a graph is acyclic, so the walk ends;
      `n` is the bound that measures it and has no counterpart in the source. */
  predicate ForwardGraph(D: map<int, seq<int>>, n: int) {
    && (forall k :: k in D ==> 0 <= k < n)
    && (forall k, j :: k in D && 0 <= j < |D[k]| ==> D[k][j] in D && k < D[k][j])
  }

  /** Every element of `vs` is a key lying strictly after `from`. */
  predicate After(D: map<int, seq<int>>, from: int, vs: seq<int>) {
    forall j :: 0 <= j < |vs| ==> vs[j] in D && from < vs[j]
  }

  /** `connect(D, k)`: the neighbours of `k`, followed by the walk from each of
      them in turn. The loop runs over the original list `D[k]` only. */
  function Connect(D: map<int, seq<int>>, n: int, k: int): (r: seq<int>)
    requires ForwardGraph(D, n) && k in D
    ensures After(D, k, r)
    decreases n - k, 1
  {
    D[k] + ConnectEach(D, n, k, D[k])
  }

  /** The walks from the neighbours `vs` of `from`, concatenated in order. */
  function ConnectEach(D: map<int, seq<int>>, n: int, from: int, vs: seq<int>): (r: seq<int>)
    requires ForwardGraph(D, n) && After(D, from, vs)
    ensures After(D, from, r)
    decreases n - from, 0, |vs|
  {
    if vs == [] then []
    else Connect(D, n, vs[0]) + ConnectEach(D, n, from, vs[1..])
  }

  /** `closure(D)`: the walk from every key. */
  function ClosureOf(D: map<int, seq<int>>, n: int): (C: map<int, seq<int>>)
    requires ForwardGraph(D, n)
    ensures C.Keys == D.Keys
    ensures forall k :: k in C ==> |D[k]| <= |C[k]| && C[k][..|D[k]|] == D[k]
    ensures forall k :: k in C && D[k] == [] ==> C[k] == []
    ensures ForwardGraph(C, n)
  {
    assert forall k :: k in D && D[k] == [] ==> ConnectEach(D, n, k, D[k]) == [];
    map k | k in D :: Connect(D, n, k)
  }

  /** A path of one or more edges: each node lists the next as a neighbour. */
  ghost predicate IsPath(D: map<int, seq<int>>, p: seq<int>)
    decreases |p|
  {
    && |p| >= 2
    && p[0] in D
    && p[1] in D[p[0]]
    && (|p| == 2 || IsPath(D, p[1..]))
  }

  /** `v` is reachable from `k` by one or more edges. */
  ghost predicate Reachable(D: map<int, seq<int>>, k: int, v: int) {
    exists p :: IsPath(D, p) && p[0] == k && p[|p| - 1] == v
  }

  /** An edge followed by a path is a path. */
  lemma {:induction false} PrependEdge(D: map<int, seq<int>>, k: int, q: seq<int>)
    requires k in D && IsPath(D, q) && q[0] in D[k]
    ensures IsPath(D, [k] + q)
  {
    var p := [k] + q;
    assert p[1..] == q;
  }

  /** Everything the walk from `k` lists is reachable from `k`. */
  lemma {:induction false} ConnectSound(D: map<int, seq<int>>, n: int, k: int, v: int)
    requires ForwardGraph(D, n) && k in D
    requires v in Connect(D, n, k)
    ensures Reachable(D, k, v)
    decreases n - k, 1
  {
    if v in D[k] {
      var p := [k, v];
      assert IsPath(D, p);
    } else {
      var w := ConnectEachSound(D, n, k, D[k], v);
      var q :| IsPath(D, q) && q[0] == w && q[|q| - 1] == v;
      PrependEdge(D, k, q);
      var p := [k] + q;
      assert p[0] == k && p[|p| - 1] == v;
    }
  }

  /** Everything the walks from `vs` list is reachable from one of `vs`. */
  lemma {:induction false} ConnectEachSound(D: map<int, seq<int>>, n: int, from: int, vs: seq<int>, v: int)
    returns (w: int)
    requires ForwardGraph(D, n) && After(D, from, vs)
    requires v in ConnectEach(D, n, from, vs)
    ensures w in vs && Reachable(D, w, v)
    decreases n - from, 0, |vs|
  {
    if v in Connect(D, n, vs[0]) {
      ConnectSound(D, n, vs[0], v);
      w := vs[0];
    } else {
      w := ConnectEachSound(D, n, from, vs[1..], v);
    }
  }

  /** The walks from `vs` contain the walk from each member of `vs`. */
  lemma {:induction false} ConnectEachIncludes(D: map<int, seq<int>>, n: int, from: int, vs: seq<int>, w: int, v: int)
    requires ForwardGraph(D, n) && After(D, from, vs)
    requires w in vs && w in D && v in Connect(D, n, w)
    ensures v in ConnectEach(D, n, from, vs)
    decreases |vs|
  {
    if vs[0] != w {
      ConnectEachIncludes(D, n, from, vs[1..], w, v);
    }
  }

  /** The walk from the start of a path lists the path's end. */
  lemma {:induction false} ConnectComplete(D: map<int, seq<int>>, n: int, p: seq<int>)
    requires ForwardGraph(D, n) && IsPath(D, p)
    ensures p[|p| - 1] in Connect(D, n, p[0])
    decreases |p|
  {
    if |p| > 2 {
      var q := p[1..];
      ConnectComplete(D, n, q);
      assert q[|q| - 1] == p[|p| - 1];
      ConnectEachIncludes(D, n, p[0], D[p[0]], p[1], p[|p| - 1]);
    }
  }

  /** The closure of `k` holds exactly the nodes reachable from `k`. */
  lemma ClosureIsReachability(D: map<int, seq<int>>, n: int, k: int, v: int)
    requires ForwardGraph(D, n) && k in D
    ensures v in ClosureOf(D, n)[k] <==> Reachable(D, k, v)
  {
    if v in ClosureOf(D, n)[k] {
      ConnectSound(D, n, k, v);
    }
    if Reachable(D, k, v) {
      var p :| IsPath(D, p) && p[0] == k && p[|p| - 1] == v;
      ConnectComplete(D, n, p);
    }
  }

  /** Two paths joined end to start make a path. */
  lemma {:induction false} JoinPaths(D: map<int, seq<int>>, p: seq<int>, q: seq<int>)
    requires IsPath(D, p) && IsPath(D, q) && p[|p| - 1] == q[0]
    ensures IsPath(D, p[..|p| - 1] + q)
    decreases |p|
  {
    var r := p[..|p| - 1] + q;
    if |p| == 2 {
      assert r == [p[0]] + q;
      PrependEdge(D, p[0], q);
    } else {
      var p' := p[1..];
      JoinPaths(D, p', q);
      assert p'[..|p'| - 1] + q == r[1..];
      PrependEdge(D, p[0], r[1..]);
      assert [p[0]] + r[1..] == r;
    }
  }

  /** Reachability is transitive. */
  lemma ReachableTransitive(D: map<int, seq<int>>, k: int, v: int, w: int)
    requires Reachable(D, k, v) && Reachable(D, v, w)
    ensures Reachable(D, k, w)
  {
    var p :| IsPath(D, p) && p[0] == k && p[|p| - 1] == v;
    var q :| IsPath(D, q) && q[0] == v && q[|q| - 1] == w;
    JoinPaths(D, p, q);
    var r := p[..|p| - 1] + q;
    assert r[0] == k && r[|r| - 1] == w;
  }

  /** The closure is transitive: what is reachable from a reachable node is reachable. */
  lemma ClosureTransitive(D: map<int, seq<int>>, n: int, k: int, v: int, w: int)
    requires ForwardGraph(D, n) && k in D && v in D
    requires v in ClosureOf(D, n)[k] && w in ClosureOf(D, n)[v]
    ensures w in ClosureOf(D, n)[k]
  {
    ClosureIsReachability(D, n, k, v);
    ClosureIsReachability(D, n, v, w);
    ReachableTransitive(D, k, v, w);
    ClosureIsReachability(D, n, k, w);
  }

  /** Walks from neighbours that have no neighbours of their own list nothing more. */
  lemma {:induction false} LeafWalks(D: map<int, seq<int>>, n: int, from: int, vs: seq<int>)
    requires ForwardGraph(D, n) && After(D, from, vs)
    requires forall j :: 0 <= j < |vs| ==> D[vs[j]] == []
    ensures ConnectEach(D, n, from, vs) == []
    decreases |vs|
  {
    if vs != [] {
      assert ConnectEach(D, n, vs[0], []) == [];
      LeafWalks(D, n, from, vs[1..]);
    }
  }

  /** When no neighbour has neighbours, the closure is the graph itself. */
  lemma ShallowClosure(D: map<int, seq<int>>, n: int)
    requires ForwardGraph(D, n)
    requires forall k, j :: k in D && 0 <= j < |D[k]| ==> D[D[k][j]] == []
    ensures ClosureOf(D, n) == D
  {
    forall k | k in D
      ensures ClosureOf(D, n)[k] == D[k]
    {
      LeafWalks(D, n, k, D[k]);
    }
  }
}
