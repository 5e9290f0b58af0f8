/** How the labels relate to the rhyme graph read without direction. Lines sharing
    a label are always joined by a chain of rhymes. When no line is rhymed onto by
    two lines, every line lies in exactly one group, and lines share a label
    exactly when they are joined. */
module Components {
  import Graph
  import Closure
  import Labels
  import Scheme

  /** One distance joins lines `a` and `b`, in either direction. */
  ghost predicate Linked(s: seq<int>, a: int, b: int) {
    && 0 <= a < |s| && 0 <= b < |s|
    && ((s[a] != 0 && a + s[a] == b) || (s[b] != 0 && b + s[b] == a))
  }

  /** A walk along distances, ignoring their direction. */
  ghost predicate IsWalk(s: seq<int>, p: seq<int>)
    decreases |p|
  {
    && |p| >= 1
    && 0 <= p[0] < |s|
    && (|p| == 1 || (Linked(s, p[0], p[1]) && IsWalk(s, p[1..])))
  }

  /** Lines `a` and `b` lie in the same connected component. */
  ghost predicate Connected(s: seq<int>, a: int, b: int) {
    exists p :: IsWalk(s, p) && p[0] == a && p[|p| - 1] == b
  }

  lemma ConnectedRefl(s: seq<int>, a: int)
    requires 0 <= a < |s|
    ensures Connected(s, a, a)
  {
    assert IsWalk(s, [a]);
  }

  /** A link followed by a connection is a connection. */
  lemma ConnectedStep(s: seq<int>, a: int, b: int, c: int)
    requires Linked(s, a, b) && Connected(s, b, c)
    ensures Connected(s, a, c)
  {
    var q :| IsWalk(s, q) && q[0] == b && q[|q| - 1] == c;
    var p := [a] + q;
    assert p[1..] == q;
    assert IsWalk(s, p);
  }

  /** A walk extended by one link at its end is a walk. */
  lemma {:induction false} AppendLink(s: seq<int>, p: seq<int>, z: int)
    requires IsWalk(s, p) && Linked(s, p[|p| - 1], z)
    ensures IsWalk(s, p + [z])
    decreases |p|
  {
    var r := p + [z];
    if |p| == 1 {
      assert r[1..] == [z];
    } else {
      AppendLink(s, p[1..], z);
      assert r[1..] == p[1..] + [z];
    }
  }

  /** Walked backwards, a walk still connects its ends. */
  lemma {:induction false} WalkReverse(s: seq<int>, p: seq<int>)
    requires IsWalk(s, p)
    ensures Connected(s, p[|p| - 1], p[0])
    decreases |p|
  {
    if |p| == 1 {
      ConnectedRefl(s, p[0]);
    } else {
      var q := p[1..];
      WalkReverse(s, q);
      var w :| IsWalk(s, w) && w[0] == q[|q| - 1] && w[|w| - 1] == q[0];
      AppendLink(s, w, p[0]);
      var w' := w + [p[0]];
      assert w'[0] == p[|p| - 1] && w'[|w'| - 1] == p[0];
    }
  }

  lemma ConnectedSymmetric(s: seq<int>, a: int, b: int)
    requires Connected(s, a, b)
    ensures Connected(s, b, a)
  {
    var p :| IsWalk(s, p) && p[0] == a && p[|p| - 1] == b;
    WalkReverse(s, p);
  }

  /** A walk from `p[0]` followed by a connection onwards is a connection. */
  lemma {:induction false} WalkThen(s: seq<int>, p: seq<int>, c: int)
    requires IsWalk(s, p) && Connected(s, p[|p| - 1], c)
    ensures Connected(s, p[0], c)
    decreases |p|
  {
    if |p| > 1 {
      var q := p[1..];
      assert q[|q| - 1] == p[|p| - 1];
      WalkThen(s, q, c);
      ConnectedStep(s, p[0], p[1], c);
    }
  }

  lemma ConnectedTransitive(s: seq<int>, a: int, b: int, c: int)
    requires Connected(s, a, b) && Connected(s, b, c)
    ensures Connected(s, a, c)
  {
    var p :| IsWalk(s, p) && p[0] == a && p[|p| - 1] == b;
    WalkThen(s, p, c);
  }

  /** A forward path of the rhyme graph is a walk. */
  lemma {:induction false} PathIsWalk(s: seq<int>, p: seq<int>)
    requires Graph.WellFormed(s)
    requires Closure.IsPath(Graph.DistancesToPairs(s), p)
    ensures IsWalk(s, p)
    decreases |p|
  {
    var D := Graph.DistancesToPairs(s);
    assert D[p[0]] == [p[0] + s[p[0]]];
    assert Linked(s, p[0], p[1]);
    if |p| == 2 {
      assert IsWalk(s, p[1..]);
    } else {
      PathIsWalk(s, p[1..]);
    }
  }

  /** What the closure reaches from a line is connected to it. */
  lemma ReachableConnected(s: seq<int>, k: int, v: int)
    requires Graph.WellFormed(s)
    requires Closure.Reachable(Graph.DistancesToPairs(s), k, v)
    ensures Connected(s, k, v)
  {
    var p :| Closure.IsPath(Graph.DistancesToPairs(s), p) && p[0] == k && p[|p| - 1] == v;
    PathIsWalk(s, p);
  }

  /** Group `j` holds line `l`: its seed and its closure. */
  ghost predicate InGroup(s: seq<int>, j: int, l: int)
    requires Graph.WellFormed(s)
  {
    0 <= j < |Scheme.LineGroups(s)| && l in Scheme.LineGroups(s)[j].Lines()
  }

  /** A line held by a group is its seed or is reachable from the seed. */
  lemma InGroupReachable(s: seq<int>, j: int, l: int)
    requires Graph.WellFormed(s) && InGroup(s, j, l)
    ensures var y := Scheme.LineGroups(s)[j].seed;
            0 <= y < |s| && (l == y || Closure.Reachable(Graph.DistancesToPairs(s), y, l))
  {
    var gs := Scheme.LineGroups(s);
    var D := Graph.DistancesToPairs(s);
    var y := gs[j].seed;
    assert Scheme.SeededFrom(Scheme.LineClosure(s), |s|, gs[j]);
    Scheme.PairsAreForward(s);
    if l != y {
      Closure.ClosureIsReachability(D, |s|, y, l);
    }
  }

  /** A line held by a group is connected to the group's seed. */
  lemma InGroupConnected(s: seq<int>, j: int, l: int)
    requires Graph.WellFormed(s) && InGroup(s, j, l)
    ensures Connected(s, Scheme.LineGroups(s)[j].seed, l)
  {
    var y := Scheme.LineGroups(s)[j].seed;
    InGroupReachable(s, j, l);
    if l == y {
      ConnectedRefl(s, l);
    } else {
      ReachableConnected(s, y, l);
    }
  }

  /** The label of line `l` is the label of the last group holding it. */
  lemma LabelOfLine(s: seq<int>, l: int) returns (j: int)
    requires Graph.WellFormed(s) && 0 <= l < |s|
    ensures Scheme.LastHolder(Scheme.LineGroups(s), l, j)
    ensures Scheme.LineLabels(s)[l] == Labels.Label(j)
  {
    var gs := Scheme.LineGroups(s);
    j := Scheme.LastHolderExists(gs, l);
    Scheme.SchemeDictLastHolder(gs, l, j);
  }

  /** Lines that share a label are joined by rhymes. */
  lemma SameLabelConnected(s: seq<int>, a: int, b: int)
    requires Graph.WellFormed(s) && 0 <= a < |s| && 0 <= b < |s|
    requires Scheme.LineLabels(s)[a] == Scheme.LineLabels(s)[b]
    ensures Connected(s, a, b)
  {
    var ja := LabelOfLine(s, a);
    var jb := LabelOfLine(s, b);
    Labels.LabelInjective(ja, jb);
    var y := Scheme.LineGroups(s)[ja].seed;
    InGroupConnected(s, ja, a);
    InGroupConnected(s, ja, b);
    ConnectedSymmetric(s, y, a);
    ConnectedTransitive(s, a, y, b);
  }

  /** Line `a` rhymes forward onto line `k`. */
  predicate PointsTo(s: seq<int>, a: int, k: int) {
    0 <= a < |s| && s[a] != 0 && a + s[a] == k
  }

  /** No line is rhymed onto by two different lines. */
  predicate SingleTargets(s: seq<int>) {
    forall a, b :: 0 <= a < |s| && 0 <= b < |s| && a != b && s[a] != 0 && s[b] != 0 ==>
      a + s[a] != b + s[b]
  }

  /** The last line before `a` that rhymes onto `k`, or -1 when there is none. */
  function SourceBelow(s: seq<int>, k: int, a: int): (r: int)
    requires 0 <= a <= |s|
    ensures r == -1 || (0 <= r < a && PointsTo(s, r, k))
    ensures r == -1 <==> forall b :: 0 <= b < a ==> !PointsTo(s, b, k)
    decreases a
  {
    if a == 0 then -1
    else if PointsTo(s, a - 1, k) then a - 1
    else SourceBelow(s, k, a - 1)
  }

  /** A line that rhymes onto `x` lists exactly `x` as its neighbour. */
  lemma EdgeOf(s: seq<int>, b: int, x: int)
    requires PointsTo(s, b, x)
    ensures b in Graph.DistancesToPairs(s) && Graph.DistancesToPairs(s)[b] == [x]
    ensures Closure.IsPath(Graph.DistancesToPairs(s), [b, x])
  {
  }

  /** In well-formed distances only an earlier line can rhyme onto `k`. */
  lemma SourcesPrecede(s: seq<int>, b: int, k: int)
    requires Graph.WellFormed(s) && PointsTo(s, b, k)
    ensures b < k
  {
  }

  /** The first line of the chain through `k`, found by following sources back. */
  function Root(s: seq<int>, k: int): (r: int)
    requires Graph.WellFormed(s) && 0 <= k < |s|
    ensures 0 <= r <= k
    decreases k
  {
    var a := SourceBelow(s, k, k);
    if a == -1 then k else Root(s, a)
  }

  /** A root is rhymed onto by nothing, and reaches the line it is the root of. */
  lemma {:induction false} RootFacts(s: seq<int>, k: int)
    requires Graph.WellFormed(s) && 0 <= k < |s|
    ensures forall b :: !PointsTo(s, b, Root(s, k))
    ensures Root(s, k) == k || Closure.Reachable(Graph.DistancesToPairs(s), Root(s, k), k)
    decreases k
  {
    var D := Graph.DistancesToPairs(s);
    var a := SourceBelow(s, k, k);
    if a == -1 {
      forall b | PointsTo(s, b, k)
        ensures false
      {
        SourcesPrecede(s, b, k);
      }
    } else {
      RootFacts(s, a);
      var r := Root(s, a);
      EdgeOf(s, a, k);
      assert Closure.Reachable(D, a, k);
      if r != a {
        Closure.ReachableTransitive(D, r, a, k);
      }
    }
  }

  /** A line joined to its source has the same root, when sources are unique. */
  lemma RootOfSource(s: seq<int>, a: int, k: int)
    requires Graph.WellFormed(s) && SingleTargets(s) && PointsTo(s, a, k)
    ensures 0 <= k < |s| && Root(s, k) == Root(s, a)
  {
    SourcesPrecede(s, a, k);
    var r := SourceBelow(s, k, k);
    assert r != -1;
  }

  /** Each step of a walk keeps the root, when sources are unique. */
  lemma {:induction false} WalkKeepsRoot(s: seq<int>, p: seq<int>)
    requires Graph.WellFormed(s) && SingleTargets(s) && IsWalk(s, p)
    ensures 0 <= p[|p| - 1] < |s| && Root(s, p[0]) == Root(s, p[|p| - 1])
    decreases |p|
  {
    if |p| > 1 {
      var q := p[1..];
      WalkKeepsRoot(s, q);
      assert q[|q| - 1] == p[|p| - 1];
      if PointsTo(s, p[0], p[1]) {
        RootOfSource(s, p[0], p[1]);
      } else {
        RootOfSource(s, p[1], p[0]);
      }
    }
  }

  /** Connected lines share a root, when sources are unique. */
  lemma ConnectedSameRoot(s: seq<int>, a: int, b: int)
    requires Graph.WellFormed(s) && SingleTargets(s) && 0 <= a < |s| && 0 <= b < |s|
    requires Connected(s, a, b)
    ensures Root(s, a) == Root(s, b)
  {
    var p :| IsWalk(s, p) && p[0] == a && p[|p| - 1] == b;
    WalkKeepsRoot(s, p);
  }

  /** The last edge of a path rhymes onto its end. */
  lemma {:induction false} PathEndHasSource(s: seq<int>, p: seq<int>)
    requires Graph.WellFormed(s)
    requires Closure.IsPath(Graph.DistancesToPairs(s), p)
    ensures PointsTo(s, p[|p| - 2], p[|p| - 1])
    decreases |p|
  {
    var D := Graph.DistancesToPairs(s);
    assert D[p[0]] == [p[0] + s[p[0]]];
    if |p| > 2 {
      var q := p[1..];
      PathEndHasSource(s, q);
      assert q[|q| - 2] == p[|p| - 2] && q[|q| - 1] == p[|p| - 1];
    }
  }

  /** A reachable line has a source. */
  lemma ReachableHasSource(s: seq<int>, y: int, l: int) returns (b: int)
    requires Graph.WellFormed(s)
    requires Closure.Reachable(Graph.DistancesToPairs(s), y, l)
    ensures PointsTo(s, b, l)
  {
    var p :| Closure.IsPath(Graph.DistancesToPairs(s), p) && p[0] == y && p[|p| - 1] == l;
    PathEndHasSource(s, p);
    b := p[|p| - 2];
  }

  /** The groups made before visiting line `x` hold a seed and what it reaches. */
  lemma EarlyGroupLines(s: seq<int>, x: nat, i: int, v: int)
    requires Graph.WellFormed(s) && x <= |s|
    requires 0 <= i < |Scheme.GroupsUpTo(Scheme.LineClosure(s), x)|
    ensures var g := Scheme.GroupsUpTo(Scheme.LineClosure(s), x)[i];
            && 0 <= g.seed < x
            && (v in g.Lines() <==>
                  v == g.seed || Closure.Reachable(Graph.DistancesToPairs(s), g.seed, v))
  {
    var C := Scheme.LineClosure(s);
    var g := Scheme.GroupsUpTo(C, x)[i];
    assert Scheme.SeededFrom(C, x, g);
    Scheme.PairsAreForward(s);
    Closure.ClosureIsReachability(Graph.DistancesToPairs(s), |s|, g.seed, v);
  }

  /** No line rhymes onto the seed of a group: its source would have been
      covered earlier, and the seed with it. */
  lemma SeedHasNoSource(s: seq<int>, j: int, b: int)
    requires Graph.WellFormed(s) && 0 <= j < |Scheme.LineGroups(s)|
    ensures !PointsTo(s, b, Scheme.LineGroups(s)[j].seed)
  {
    var C := Scheme.LineClosure(s);
    var gs := Scheme.LineGroups(s);
    var x := gs[j].seed;
    EarlyGroupLines(s, |s|, j, x);
    assert Scheme.IsSeed(gs, x);
    Scheme.SeedingRule(C, |s|, x);
    if PointsTo(s, b, x) {
      SourcesPrecede(s, b, x);
      SourceCoversTarget(s, b, x);
    }
  }

  /** Once a line's source is covered, the line is covered too. */
  lemma SourceCoversTarget(s: seq<int>, b: int, x: int)
    requires Graph.WellFormed(s) && PointsTo(s, b, x) && b < x
    ensures Scheme.Covered(Scheme.GroupsUpTo(Scheme.LineClosure(s), x), x)
  {
    var D := Graph.DistancesToPairs(s);
    var early := Scheme.GroupsUpTo(Scheme.LineClosure(s), x);
    assert Scheme.Covered(early, b);
    var i :| 0 <= i < |early| && b in early[i].Lines();
    var y := early[i].seed;
    EarlyGroupLines(s, x, i, b);
    EarlyGroupLines(s, x, i, x);
    EdgeOf(s, b, x);
    if b != y {
      Closure.ReachableTransitive(D, y, b, x);
    }
  }

  /** The root of every line seeds a group. */
  lemma RootIsSeed(s: seq<int>, k: int) returns (j: int)
    requires Graph.WellFormed(s) && 0 <= k < |s|
    ensures 0 <= j < |Scheme.LineGroups(s)| && Scheme.LineGroups(s)[j].seed == Root(s, k)
  {
    var C := Scheme.LineClosure(s);
    var D := Graph.DistancesToPairs(s);
    var gs := Scheme.LineGroups(s);
    var r := Root(s, k);
    RootFacts(s, k);
    Scheme.SeedingRule(C, |s|, r);
    var early := Scheme.GroupsUpTo(C, r);
    if Scheme.Covered(early, r) {
      var i :| 0 <= i < |early| && r in early[i].Lines();
      var y := early[i].seed;
      assert Scheme.SeededFrom(C, r, early[i]);
      Scheme.PairsAreForward(s);
      Closure.ClosureIsReachability(D, |s|, y, r);
      var b := ReachableHasSource(s, y, r);
      assert false;
    }
    j :| 0 <= j < |gs| && gs[j].seed == r;
  }

  /** The seed of any group holding a line is that line's root, when sources are unique. */
  lemma GroupSeedIsRoot(s: seq<int>, j: int, l: int)
    requires Graph.WellFormed(s) && SingleTargets(s) && InGroup(s, j, l)
    ensures 0 <= l < |s| && Scheme.LineGroups(s)[j].seed == Root(s, l)
  {
    var y := Scheme.LineGroups(s)[j].seed;
    InGroupReachable(s, j, l);
    InGroupConnected(s, j, l);
    forall b
      ensures !PointsTo(s, b, y)
    {
      SeedHasNoSource(s, j, b);
    }
    assert SourceBelow(s, y, y) == -1;
    if l != y {
      var b := ReachableHasSource(s, y, l);
      SourcesPrecede(s, b, l);
    }
    ConnectedSameRoot(s, y, l);
  }

  /** Distinct groups have distinct seeds. */
  lemma SeedsDistinct(s: seq<int>, j1: int, j2: int)
    requires Graph.WellFormed(s)
    requires 0 <= j1 < |Scheme.LineGroups(s)| && 0 <= j2 < |Scheme.LineGroups(s)|
    requires Scheme.LineGroups(s)[j1].seed == Scheme.LineGroups(s)[j2].seed
    ensures j1 == j2
  {
    if j1 < j2 {
      Scheme.SeedsAscend(Scheme.LineClosure(s), |s|, j1, j2);
    } else if j2 < j1 {
      Scheme.SeedsAscend(Scheme.LineClosure(s), |s|, j2, j1);
    }
  }

  /** Every line lies in exactly one group, when sources are unique. */
  lemma OneGroupPerLine(s: seq<int>, j1: int, j2: int, l: int)
    requires Graph.WellFormed(s) && SingleTargets(s)
    requires InGroup(s, j1, l) && InGroup(s, j2, l)
    ensures j1 == j2
  {
    GroupSeedIsRoot(s, j1, l);
    GroupSeedIsRoot(s, j2, l);
    SeedsDistinct(s, j1, j2);
  }

  /** A line carries the label of the group seeded at its root, when sources are unique. */
  lemma LabelIsRootGroup(s: seq<int>, l: int) returns (j: int)
    requires Graph.WellFormed(s) && SingleTargets(s) && 0 <= l < |s|
    ensures 0 <= j < |Scheme.LineGroups(s)| && Scheme.LineGroups(s)[j].seed == Root(s, l)
    ensures Scheme.LineLabels(s)[l] == Labels.Label(j)
  {
    j := LabelOfLine(s, l);
    GroupSeedIsRoot(s, j, l);
  }

  /** Lines joined by rhymes share a label, when sources are unique. */
  lemma ConnectedSameLabel(s: seq<int>, a: int, b: int)
    requires Graph.WellFormed(s) && SingleTargets(s) && 0 <= a < |s| && 0 <= b < |s|
    requires Connected(s, a, b)
    ensures Scheme.LineLabels(s)[a] == Scheme.LineLabels(s)[b]
  {
    ConnectedSameRoot(s, a, b);
    var ja := LabelIsRootGroup(s, a);
    var jb := LabelIsRootGroup(s, b);
    SeedsDistinct(s, ja, jb);
  }

  /** When no line is rhymed onto twice, lines share a label exactly when a chain
      of rhymes joins them. */
  lemma LabelsAreComponents(s: seq<int>, a: int, b: int)
    requires Graph.WellFormed(s) && SingleTargets(s) && 0 <= a < |s| && 0 <= b < |s|
    ensures Scheme.LineLabels(s)[a] == Scheme.LineLabels(s)[b] <==> Connected(s, a, b)
  {
    if Scheme.LineLabels(s)[a] == Scheme.LineLabels(s)[b] {
      SameLabelConnected(s, a, b);
    }
    if Connected(s, a, b) {
      ConnectedSameLabel(s, a, b);
    }
  }
}
