/** The scheme labeler, `distances_to_ab`: lines are visited in ascending order,
    an uncovered line seeds a new group holding itself and its closure, the
    groups are inverted into a line-to-label map (later groups overwrite earlier
    ones), and the labels are concatenated in line order. */
module Scheme {
  import Graph
  import Closure
  import Labels

  /** One entry of the source's `groups` dict. The dict is keyed by the label
      `Name()` of the group's counter value; since distinct counters give distinct
      labels (`Labels.LabelInjective`), the dict in insertion order is this
      sequence of groups. The lines filed under a group are its seeding line
      followed by that line's closure. */
  datatype Group = Group(counter: nat, seed: int, reach: seq<int>) {
    /** The dict key `ABCs[abc_idx] + suffix`. */
    function Name(): string {
      Labels.Label(counter)
    }

    /** The list `[k] + graph[k]` stored under the key. */
    function Lines(): seq<int> {
      [seed] + reach
    }
  }

  /** `l in list(chain.from_iterable(groups.values()))`: some group holds line `l`. */
  predicate Covered(gs: seq<Group>, l: int) {
    exists j :: 0 <= j < |gs| && l in gs[j].Lines()
  }

  /** Appending a group covers its lines and keeps everything covered before. */
  lemma CoveredSnoc(gs: seq<Group>, g: Group, l: int)
    ensures Covered(gs + [g], l) <==> Covered(gs, l) || l in g.Lines()
  {
    var gs' := gs + [g];
    if Covered(gs, l) {
      var j :| 0 <= j < |gs| && l in gs[j].Lines();
      assert gs'[j] == gs[j];
    }
    if l in g.Lines() {
      assert gs'[|gs|] == g;
    }
    if Covered(gs', l) {
      var j :| 0 <= j < |gs'| && l in gs'[j].Lines();
      if j < |gs| {
        assert gs'[j] == gs[j];
      }
    }
  }

  /** A group seeded at a visited line `seed < k`, holding exactly that line's closure. */
  predicate SeededFrom(C: map<int, seq<int>>, k: int, g: Group) {
    0 <= g.seed < k && g.seed in C && g.reach == C[g.seed]
  }

  /** The seeding loop after visiting lines `0..k-1`; the counter `i` is the number
      of groups. At most one group per visited line, numbered `0, 1, 2, ...`; each
      is a visited seed with its closure; every visited line ends up covered. */
  function GroupsUpTo(C: map<int, seq<int>>, k: nat): (gs: seq<Group>)
    requires forall l :: 0 <= l < k ==> l in C
    ensures |gs| <= k
    ensures forall j :: 0 <= j < |gs| ==> gs[j].counter == j
    ensures forall j :: 0 <= j < |gs| ==> SeededFrom(C, k, gs[j])
    ensures forall l :: 0 <= l < k ==> Covered(gs, l)
    decreases k
  {
    if k == 0 then []
    else
      var gs := GroupsUpTo(C, k - 1);
      if Covered(gs, k - 1) then gs
      else
        var g := Group(|gs|, k - 1, C[k - 1]);
        assert forall l :: 0 <= l < k ==> Covered(gs + [g], l) by {
          forall l | 0 <= l < k
            ensures Covered(gs + [g], l)
          {
            CoveredSnoc(gs, g, l);
          }
        }
        gs + [g]
  }

  /** One visit either leaves the groups alone or appends the group seeded at the visited line. */
  lemma GroupsStep(C: map<int, seq<int>>, k: nat)
    requires forall l :: 0 <= l <= k ==> l in C
    ensures Covered(GroupsUpTo(C, k), k) ==> GroupsUpTo(C, k + 1) == GroupsUpTo(C, k)
    ensures !Covered(GroupsUpTo(C, k), k) ==>
              GroupsUpTo(C, k + 1) == GroupsUpTo(C, k) + [Group(|GroupsUpTo(C, k)|, k, C[k])]
  {
  }

  /** Some group of `gs` was seeded at line `l`. */
  ghost predicate IsSeed(gs: seq<Group>, l: int) {
    exists j :: 0 <= j < |gs| && gs[j].seed == l
  }

  /** Visiting line `l` makes it a seed exactly when it is not yet covered. */
  lemma SeedAtVisit(C: map<int, seq<int>>, l: nat)
    requires forall m :: 0 <= m <= l ==> m in C
    ensures IsSeed(GroupsUpTo(C, l + 1), l) <==> !Covered(GroupsUpTo(C, l), l)
  {
    var gs := GroupsUpTo(C, l);
    GroupsStep(C, l);
    if !Covered(gs, l) {
      assert GroupsUpTo(C, l + 1)[|gs|].seed == l;
    } else {
      assert forall j :: 0 <= j < |gs| ==> SeededFrom(C, l, gs[j]);
    }
  }

  /** Later visits neither add nor remove a seed at an earlier line. */
  lemma SeedPersists(C: map<int, seq<int>>, k: nat, l: int)
    requires forall m :: 0 <= m <= k ==> m in C
    requires l < k
    ensures IsSeed(GroupsUpTo(C, k + 1), l) <==> IsSeed(GroupsUpTo(C, k), l)
  {
    var gs := GroupsUpTo(C, k);
    var gs' := GroupsUpTo(C, k + 1);
    GroupsStep(C, k);
    if !Covered(gs, k) {
      if IsSeed(gs', l) {
        var j :| 0 <= j < |gs'| && gs'[j].seed == l;
        assert j < |gs| && gs[j] == gs'[j];
      }
      if IsSeed(gs, l) {
        var j :| 0 <= j < |gs| && gs[j].seed == l;
        assert gs'[j] == gs[j];
      }
    }
  }

  /** A visited line seeds a group exactly when no group made before its visit contains it. */
  lemma {:induction false} SeedingRule(C: map<int, seq<int>>, k: nat, l: nat)
    requires forall m :: 0 <= m < k ==> m in C
    requires l < k
    ensures IsSeed(GroupsUpTo(C, k), l) <==> !Covered(GroupsUpTo(C, l), l)
    decreases k
  {
    if k - 1 == l {
      SeedAtVisit(C, l);
    } else {
      SeedingRule(C, k - 1, l);
      SeedPersists(C, k - 1, l);
    }
  }

  /** Seeds are created in strictly ascending line order. */
  lemma {:induction false} SeedsAscend(C: map<int, seq<int>>, k: nat, a: nat, b: nat)
    requires forall l :: 0 <= l < k ==> l in C
    requires a < b < |GroupsUpTo(C, k)|
    ensures GroupsUpTo(C, k)[a].seed < GroupsUpTo(C, k)[b].seed
    decreases k
  {
    var gs := GroupsUpTo(C, k - 1);
    GroupsStep(C, k - 1);
    if b < |gs| {
      SeedsAscend(C, k - 1, a, b);
    } else {
      assert SeededFrom(C, k - 1, gs[a]);
    }
  }

  /** The groups made before a visit are a prefix of the groups made after it. */
  lemma {:induction false} GroupsPrefix(C: map<int, seq<int>>, l: nat, k: nat)
    requires forall m :: 0 <= m < k ==> m in C
    requires l <= k
    ensures |GroupsUpTo(C, l)| <= |GroupsUpTo(C, k)|
    ensures GroupsUpTo(C, k)[..|GroupsUpTo(C, l)|] == GroupsUpTo(C, l)
    decreases k - l
  {
    if l < k {
      GroupsPrefix(C, l + 1, k);
      GroupsStep(C, l);
      var gl, gl1, gk := GroupsUpTo(C, l), GroupsUpTo(C, l + 1), GroupsUpTo(C, k);
      assert gk[..|gl1|][..|gl|] == gk[..|gl|];
    }
  }

  /** `scheme_dict[line] = group` for each line of one group, in order. */
  function Assign(m: map<int, string>, name: string, lines: seq<int>): (r: map<int, string>)
    ensures forall l :: l in r <==> l in m || l in lines
    ensures forall l :: l in lines ==> r[l] == name
    ensures forall l :: l in m && l !in lines ==> r[l] == m[l]
    decreases |lines|
  {
    if lines == [] then m
    else Assign(m[lines[0] := name], name, lines[1..])
  }

  /** The inversion of the groups into a line-to-label map; later groups overwrite
      earlier ones. Exactly the covered lines receive a label. */
  function SchemeDict(gs: seq<Group>): (m: map<int, string>)
    ensures forall l :: l in m <==> Covered(gs, l)
    decreases |gs|
  {
    if gs == [] then map[]
    else
      var init, last := gs[..|gs| - 1], gs[|gs| - 1];
      assert init + [last] == gs;
      assert forall l :: Covered(gs, l) <==> Covered(init, l) || l in last.Lines() by {
        forall l
          ensures Covered(gs, l) <==> Covered(init, l) || l in last.Lines()
        {
          CoveredSnoc(init, last, l);
        }
      }
      Assign(SchemeDict(init), last.Name(), last.Lines())
  }

  /** Group `j` is the last group of `gs` that contains line `l`. */
  ghost predicate LastHolder(gs: seq<Group>, l: int, j: int) {
    && 0 <= j < |gs|
    && l in gs[j].Lines()
    && forall j' :: j < j' < |gs| ==> l !in gs[j'].Lines()
  }

  /** A covered line carries the label of the last group that contains it. */
  lemma {:induction false} SchemeDictLastHolder(gs: seq<Group>, l: int, j: int)
    requires LastHolder(gs, l, j)
    ensures l in SchemeDict(gs) && SchemeDict(gs)[l] == gs[j].Name()
    decreases |gs|
  {
    if j < |gs| - 1 {
      var init := gs[..|gs| - 1];
      assert init[j] == gs[j];
      assert LastHolder(init, l, j);
      SchemeDictLastHolder(init, l, j);
    }
  }

  /** Every covered line has a last group containing it. */
  lemma {:induction false} LastHolderExists(gs: seq<Group>, l: int) returns (j: int)
    requires Covered(gs, l)
    ensures LastHolder(gs, l, j)
    decreases |gs|
  {
    var init, last := gs[..|gs| - 1], gs[|gs| - 1];
    assert init + [last] == gs;
    CoveredSnoc(init, last, l);
    if l in last.Lines() {
      j := |gs| - 1;
    } else {
      j := LastHolderExists(init, l);
      assert init[j] == gs[j];
    }
  }

  /** `''.join` of the labels of lines `0..n-1`, in line order. */
  function Render(m: map<int, string>, n: nat): string
    requires forall i :: 0 <= i < n ==> i in m
    decreases n
  {
    if n == 0 then ""
    else Render(m, n - 1) + m[n - 1]
  }

  /** When every label is a single letter, the scheme is one letter per line, in line order. */
  lemma {:induction false} RenderLetters(m: map<int, string>, n: nat)
    requires forall i :: 0 <= i < n ==> i in m && |m[i]| == 1
    ensures |Render(m, n)| == n
    ensures forall i :: 0 <= i < n ==> Render(m, n)[i] == m[i][0]
    decreases n
  {
    if n > 0 {
      RenderLetters(m, n - 1);
    }
  }

  /** The graph built from well-formed distances points forward inside the poem. */
  lemma PairsAreForward(s: seq<int>)
    requires Graph.WellFormed(s)
    ensures Closure.ForwardGraph(Graph.DistancesToPairs(s), |s|)
  {
  }

  /** The closure `distances_to_ab` computes over its inline graph. */
  function LineClosure(s: seq<int>): (C: map<int, seq<int>>)
    requires Graph.WellFormed(s)
    ensures forall l :: l in C <==> 0 <= l < |s|
    ensures Closure.ForwardGraph(C, |s|)
  {
    PairsAreForward(s);
    Closure.ClosureOf(Graph.DistancesToPairs(s), |s|)
  }

  /** The groups `distances_to_ab` builds. */
  function LineGroups(s: seq<int>): (gs: seq<Group>)
    requires Graph.WellFormed(s)
    ensures |gs| <= |s|
    ensures forall l :: 0 <= l < |s| ==> Covered(gs, l)
  {
    GroupsUpTo(LineClosure(s), |s|)
  }

  /** The groups hold no line outside the poem. */
  lemma LineGroupsInRange(s: seq<int>, l: int)
    requires Graph.WellFormed(s)
    requires Covered(LineGroups(s), l)
    ensures 0 <= l < |s|
  {
    var C := LineClosure(s);
    var gs := LineGroups(s);
    var j :| 0 <= j < |gs| && l in gs[j].Lines();
    assert SeededFrom(C, |s|, gs[j]);
    if l != gs[j].seed {
      var x :| 0 <= x < |C[gs[j].seed]| && C[gs[j].seed][x] == l;
    }
  }

  /** `scheme_dict`: the label every line ends up with. */
  function LineLabels(s: seq<int>): (m: map<int, string>)
    requires Graph.WellFormed(s)
    ensures forall l :: l in m <==> 0 <= l < |s|
  {
    var m := SchemeDict(LineGroups(s));
    assert forall l :: l in m ==> 0 <= l < |s| by {
      forall l | l in m
        ensures 0 <= l < |s|
      {
        LineGroupsInRange(s, l);
      }
    }
    m
  }

  /** `distances_to_ab`. */
  function DistancesToAb(s: seq<int>): (r: string)
    requires Graph.WellFormed(s)
  {
    Render(LineLabels(s), |s|)
  }
}
