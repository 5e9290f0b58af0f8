/** Properties of the finished scheme string of `distances_to_ab`, and the
    unrhymed poems. */
module Output {
  import Graph
  import Labels
  import Scheme
  import Components

  /** The first character of the rendering is the first character of line 0's label. */
  lemma {:induction false} RenderHead(m: map<int, string>, n: nat)
    requires forall i :: 0 <= i < n ==> i in m
    requires n > 0 && |m[0]| >= 1
    ensures |Scheme.Render(m, n)| >= 1 && Scheme.Render(m, n)[0] == m[0][0]
    decreases n
  {
    if n > 1 {
      RenderHead(m, n - 1);
    }
  }

  /** With at most 26 groups every label is a single letter. */
  lemma OneLetterLabels(s: seq<int>)
    requires Graph.WellFormed(s) && |Scheme.LineGroups(s)| <= 26
    ensures forall l :: 0 <= l < |s| ==> |Scheme.LineLabels(s)[l]| == 1
  {
    forall l | 0 <= l < |s|
      ensures |Scheme.LineLabels(s)[l]| == 1
    {
      var j := Components.LabelOfLine(s, l);
    }
  }

  /** With at most 26 groups the scheme has exactly one letter per line: the
      letter of the last group that holds the line. */
  lemma FewGroupsLetters(s: seq<int>, i: int, j: int)
    requires Graph.WellFormed(s) && |Scheme.LineGroups(s)| <= 26
    requires 0 <= i < |s| && Scheme.LastHolder(Scheme.LineGroups(s), i, j)
    ensures |Scheme.DistancesToAb(s)| == |s|
    ensures Scheme.DistancesToAb(s)[i] == Labels.AsciiUppercase[j]
  {
    var m := Scheme.LineLabels(s);
    OneLetterLabels(s);
    Scheme.RenderLetters(m, |s|);
    Scheme.SchemeDictLastHolder(Scheme.LineGroups(s), i, j);
    assert m[i] == Labels.Label(j);
  }

  /** The first group is seeded at line 0. */
  lemma FirstSeedIsLineZero(s: seq<int>)
    requires Graph.WellFormed(s) && |s| > 0
    ensures |Scheme.LineGroups(s)| >= 1 && Scheme.LineGroups(s)[0].seed == 0
  {
    var C := Scheme.LineClosure(s);
    Scheme.GroupsStep(C, 0);
    Scheme.GroupsPrefix(C, 1, |s|);
    assert Scheme.GroupsUpTo(C, 1)[0].seed == 0;
  }

  /** Only the first group holds line 0: every group holds its seed and lines after it. */
  lemma LineZeroHolder(s: seq<int>)
    requires Graph.WellFormed(s) && |s| > 0
    ensures Scheme.LastHolder(Scheme.LineGroups(s), 0, 0)
  {
    var gs := Scheme.LineGroups(s);
    FirstSeedIsLineZero(s);
    forall j' | 0 < j' < |gs| && 0 in gs[j'].Lines()
      ensures false
    {
      Components.InGroupReachable(s, j', 0);
      if gs[j'].seed == 0 {
        Components.SeedsDistinct(s, 0, j');
      } else {
        var b := Components.ReachableHasSource(s, gs[j'].seed, 0);
        Components.SourcesPrecede(s, b, 0);
      }
    }
  }

  /** Line 0 is always labelled `A`, and the scheme starts with `A`. */
  lemma FirstLineA(s: seq<int>)
    requires Graph.WellFormed(s) && |s| > 0
    ensures Scheme.LineLabels(s)[0] == "A"
    ensures |Scheme.DistancesToAb(s)| >= 1 && Scheme.DistancesToAb(s)[0] == 'A'
  {
    LineZeroHolder(s);
    var j := Components.LabelOfLine(s, 0);
    assert j == 0;
    RenderHead(Scheme.LineLabels(s), |s|);
  }

  /** Every distance is zero: no line rhymes with any other. */
  predicate AllZero(s: seq<int>) {
    forall i :: 0 <= i < |s| ==> s[i] == 0
  }

  /** When no visited line reaches another, the line visited `k`-th seeds the
      `k`-th group, alone. */
  lemma {:induction false} IsolatedGroups(C: map<int, seq<int>>, k: nat)
    requires forall l :: 0 <= l < k ==> l in C && C[l] == []
    ensures |Scheme.GroupsUpTo(C, k)| == k
    ensures forall j :: 0 <= j < k ==> Scheme.GroupsUpTo(C, k)[j] == Scheme.Group(j, j, [])
    decreases k
  {
    if k > 0 {
      IsolatedGroups(C, k - 1);
      var gs := Scheme.GroupsUpTo(C, k - 1);
      Scheme.GroupsStep(C, k - 1);
      assert !Scheme.Covered(gs, k - 1) by {
        forall j | 0 <= j < |gs|
          ensures k - 1 !in gs[j].Lines()
        {
          assert gs[j] == Scheme.Group(j, j, []);
        }
      }
      var gk := Scheme.GroupsUpTo(C, k);
      assert gk == gs + [Scheme.Group(k - 1, k - 1, [])];
      forall j | 0 <= j < k
        ensures gk[j] == Scheme.Group(j, j, [])
      {
        if j < k - 1 {
          assert gk[j] == gs[j];
        }
      }
    }
  }

  /** With no rhymes, line `j` seeds group `j`, which holds nothing else. */
  lemma ZeroGroups(s: seq<int>)
    requires AllZero(s)
    ensures Graph.WellFormed(s)
    ensures |Scheme.LineGroups(s)| == |s|
    ensures forall j :: 0 <= j < |s| ==> Scheme.LineGroups(s)[j] == Scheme.Group(j, j, [])
  {
    var D := Graph.DistancesToPairs(s);
    var C := Scheme.LineClosure(s);
    forall l | 0 <= l < |s|
      ensures l in C && C[l] == []
    {
      assert D[l] == [];
    }
    IsolatedGroups(C, |s|);
  }

  /** The first `n` labels, concatenated. */
  function Spelled(n: nat): (r: string)
    ensures |r| >= n
  {
    if n == 0 then "" else Spelled(n - 1) + Labels.Label(n - 1)
  }

  /** With no rhymes, line `i` gets the `i`-th label. */
  lemma AllZeroLabels(s: seq<int>, i: int)
    requires AllZero(s) && 0 <= i < |s|
    ensures Graph.WellFormed(s) && Scheme.LineLabels(s)[i] == Labels.Label(i)
  {
    ZeroGroups(s);
    var gs := Scheme.LineGroups(s);
    assert Scheme.LastHolder(gs, i, i) by {
      forall j | i < j < |gs|
        ensures i !in gs[j].Lines()
      {
        assert gs[j] == Scheme.Group(j, j, []);
      }
    }
    Scheme.SchemeDictLastHolder(gs, i, i);
  }

  /** Rendering the first `k` lines of a map that gives line `i` the `i`-th label. */
  lemma {:induction false} RenderSpelled(m: map<int, string>, k: nat)
    requires forall i :: 0 <= i < k ==> i in m && m[i] == Labels.Label(i)
    ensures Scheme.Render(m, k) == Spelled(k)
    decreases k
  {
    if k > 0 {
      RenderSpelled(m, k - 1);
      assert Scheme.Render(m, k) == Scheme.Render(m, k - 1) + m[k - 1];
      assert Spelled(k) == Spelled(k - 1) + Labels.Label(k - 1);
    }
  }

  /** With no rhymes the scheme spells out the labels in order, one per line. */
  lemma AllZeroScheme(s: seq<int>)
    requires AllZero(s)
    ensures Graph.WellFormed(s) && Scheme.DistancesToAb(s) == Spelled(|s|)
  {
    ZeroGroups(s);
    forall i | 0 <= i < |s|
      ensures Scheme.LineLabels(s)[i] == Labels.Label(i)
    {
      AllZeroLabels(s, i);
    }
    RenderSpelled(Scheme.LineLabels(s), |s|);
  }

  /** Up to the end of the alphabet the labels are single letters in order. */
  lemma {:induction false} SpelledAlphabet(k: nat)
    requires k <= 26
    ensures Spelled(k) == Labels.AsciiUppercase[..k]
    decreases k
  {
    if k > 0 {
      SpelledAlphabet(k - 1);
      assert Labels.AsciiUppercase[..k] == Labels.AsciiUppercase[..k - 1] + [Labels.AsciiUppercase[k - 1]];
    }
  }

  /** The first thirty labels: the alphabet, then `A1` to `D1`. */
  lemma SpelledThirty()
    ensures Spelled(30) == "ABCDEFGHIJKLMNOPQRSTUVWXYZA1B1C1D1"
  {
    Labels.SuffixExamples();
    SpelledAlphabet(26);
    assert Labels.AsciiUppercase[..26] == Labels.AsciiUppercase;
    assert Spelled(30) == Spelled(26) + "A1" + "B1" + "C1" + "D1";
  }

  /** Thirty unrhymed lines: the alphabet, then `A1` to `D1`; the string is longer than the poem. */
  lemma ThirtyUnrhymed()
    ensures Graph.WellFormed(seq(30, _ => 0))
    ensures Scheme.DistancesToAb(seq(30, _ => 0)) == "ABCDEFGHIJKLMNOPQRSTUVWXYZA1B1C1D1"
  {
    AllZeroScheme(seq(30, _ => 0));
    SpelledThirty();
  }
}
