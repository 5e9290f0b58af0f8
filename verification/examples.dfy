/** Worked examples of the labeler, each derived step by step through
    the graph, its closure, the seeding loop and the rendering. */
module Examples {
  import Graph
  import Closure
  import Labels
  import Scheme
  import Components
  import Output

  /** Line `i` is last held by group `holders[i]`. */
  ghost predicate HeldBy(gs: seq<Scheme.Group>, holders: seq<int>) {
    forall i :: 0 <= i < |holders| ==> Scheme.LastHolder(gs, i, holders[i])
  }

  /** At most 26 groups; line `i` is last held by group `holders[i]`, whose letter is `word[i]`. */
  ghost predicate SpelledBy(gs: seq<Scheme.Group>, holders: seq<int>, word: string) {
    && |gs| <= 26
    && |holders| == |word|
    && HeldBy(gs, holders)
    && (forall i :: 0 <= i < |word| ==> 0 <= holders[i] < 26 && word[i] == Labels.AsciiUppercase[holders[i]])
  }

  /** With at most 26 groups, the scheme is the word spelled by the letters of
      each line's last holding group. */
  lemma LettersFromHolders(s: seq<int>, gs: seq<Scheme.Group>, holders: seq<int>, word: string)
    requires Graph.WellFormed(s) && Scheme.LineGroups(s) == gs
    requires |word| == |s| && SpelledBy(gs, holders, word)
    ensures Scheme.DistancesToAb(s) == word
  {
    if |s| == 0 {
      assert Scheme.DistancesToAb(s) == "";
    } else {
      Output.FewGroupsLetters(s, 0, holders[0]);
    }
    forall i | 0 <= i < |s|
      ensures |Scheme.DistancesToAb(s)| == |s|
      ensures Scheme.DistancesToAb(s)[i] == word[i]
    {
      Output.FewGroupsLetters(s, i, holders[i]);
    }
  }

  /** `word` spells out the letters numbered by `holders`. */
  lemma Spells(holders: seq<int>, word: string)
    requires |holders| == |word|
    requires forall i :: 0 <= i < |word| ==> 'A' <= word[i] <= 'Z' && holders[i] == word[i] as int - 'A' as int
    ensures forall i :: 0 <= i < |word| ==> 0 <= holders[i] < 26 && word[i] == Labels.AsciiUppercase[holders[i]]
  {
    forall i | 0 <= i < |word|
      ensures 0 <= holders[i] < 26 && word[i] == Labels.AsciiUppercase[holders[i]]
    {
      Labels.AlphabetCodes(holders[i]);
    }
  }

  /** One visit of the seeding loop: line `k` seeds a group unless it is covered. */
  function Visit(C: map<int, seq<int>>, k: int, gs: seq<Scheme.Group>): (gs': seq<Scheme.Group>)
    requires k in C
    ensures Scheme.Covered(gs, k) <==> gs' == gs
  {
    if Scheme.Covered(gs, k) then gs
    else
      assert |gs + [Scheme.Group(|gs|, k, C[k])]| != |gs|;
      gs + [Scheme.Group(|gs|, k, C[k])]
  }

  /** `stages[k]` is the state of the seeding loop after visiting lines `0..k-1`. */
  predicate IsTrace(C: map<int, seq<int>>, stages: seq<seq<Scheme.Group>>) {
    && |stages| >= 1 && stages[0] == []
    && forall k :: 0 <= k < |stages| - 1 ==> k in C && stages[k + 1] == Visit(C, k, stages[k])
  }

  /** A trace checked visit by visit is the seeding loop's own history. */
  lemma {:induction false} TraceIsGroups(C: map<int, seq<int>>, stages: seq<seq<Scheme.Group>>, k: nat)
    requires IsTrace(C, stages) && k < |stages|
    ensures Scheme.GroupsUpTo(C, k) == stages[k]
    decreases k
  {
    if k > 0 {
      TraceIsGroups(C, stages, k - 1);
      Scheme.GroupsStep(C, k - 1);
    }
  }

  /** An empty poem has an empty scheme. */
  lemma EmptyPoem()
    ensures Scheme.DistancesToAb([]) == ""
  {
  }

  /** The graph and closure of `[0, 1, 0, 0]`: line 1 rhymes with line 2. */
  lemma ClosureOfAbbc()
    ensures Scheme.LineClosure([0, 1, 0, 0]) == map[0 := [], 1 := [2], 2 := [], 3 := []]
  {
    var s := [0, 1, 0, 0];
    var D := Graph.DistancesToPairs(s);
    assert D == map[0 := [], 1 := [2], 2 := [], 3 := []] by {
      assert D.Keys == {0, 1, 2, 3};
    }
    Scheme.PairsAreForward(s);
    Closure.ShallowClosure(D, |s|);
  }

  /** The groups of `[0, 1, 0, 0]`: line 2 is covered by the group of line 1. */
  lemma GroupsOfAbbc()
    ensures Scheme.LineGroups([0, 1, 0, 0])
         == [Scheme.Group(0, 0, []), Scheme.Group(1, 1, [2]), Scheme.Group(2, 3, [])]
  {
    var C := map[0 := [], 1 := [2], 2 := [], 3 := []];
    var g0, g1, g2 := Scheme.Group(0, 0, []), Scheme.Group(1, 1, [2]), Scheme.Group(2, 3, []);
    assert Visit(C, 1, [g0]) == [g0, g1] by {
      assert !Scheme.Covered([g0], 1);
    }
    assert Visit(C, 2, [g0, g1]) == [g0, g1] by {
      assert 2 in [g0, g1][1].Lines();
    }
    assert Visit(C, 3, [g0, g1]) == [g0, g1, g2] by {
      assert !Scheme.Covered([g0, g1], 3);
    }
    var stages := [[], [g0], [g0, g1], [g0, g1], [g0, g1, g2]];
    assert IsTrace(C, stages);
    ClosureOfAbbc();
    TraceIsGroups(C, stages, 4);
  }

  /** Where each line is last held. */
  lemma LastAbbc()
    ensures HeldBy([Scheme.Group(0, 0, []), Scheme.Group(1, 1, [2]), Scheme.Group(2, 3, [])], [0, 1, 1, 2])
  {
    var gs := [Scheme.Group(0, 0, []), Scheme.Group(1, 1, [2]), Scheme.Group(2, 3, [])];
    assert Scheme.LastHolder(gs, 0, 0);
    assert Scheme.LastHolder(gs, 1, 1);
    assert Scheme.LastHolder(gs, 2, 1);
    assert Scheme.LastHolder(gs, 3, 2);
  }

  /** The letters the last holders make. */
  lemma HoldersOfAbbc()
    ensures SpelledBy([Scheme.Group(0, 0, []), Scheme.Group(1, 1, [2]), Scheme.Group(2, 3, [])], [0, 1, 1, 2], "ABBC")
  {
    LastAbbc();
    Spells([0, 1, 1, 2], "ABBC");
  }

  /** `[0, 1, 0, 0]` is `ABBC`. */
  lemma SchemeAbbc()
    ensures Scheme.DistancesToAb([0, 1, 0, 0]) == "ABBC"
  {
    GroupsOfAbbc();
    HoldersOfAbbc();
    LettersFromHolders([0, 1, 0, 0], [Scheme.Group(0, 0, []), Scheme.Group(1, 1, [2]), Scheme.Group(2, 3, [])], [0, 1, 1, 2], "ABBC");
  }

  /** The graph and closure of `[2, 0, 0, 0, 0]`: line 0 rhymes with line 2. */
  lemma ClosureOfAbacd()
    ensures Scheme.LineClosure([2, 0, 0, 0, 0]) == map[0 := [2], 1 := [], 2 := [], 3 := [], 4 := []]
  {
    var s := [2, 0, 0, 0, 0];
    var D := Graph.DistancesToPairs(s);
    assert D == map[0 := [2], 1 := [], 2 := [], 3 := [], 4 := []] by {
      assert D.Keys == {0, 1, 2, 3, 4};
    }
    Scheme.PairsAreForward(s);
    Closure.ShallowClosure(D, |s|);
  }

  /** The groups of `[2, 0, 0, 0, 0]`: line 2 is covered by the group of line 0. */
  lemma GroupsOfAbacd()
    ensures Scheme.LineGroups([2, 0, 0, 0, 0])
         == [Scheme.Group(0, 0, [2]), Scheme.Group(1, 1, []), Scheme.Group(2, 3, []), Scheme.Group(3, 4, [])]
  {
    var C := map[0 := [2], 1 := [], 2 := [], 3 := [], 4 := []];
    var g0, g1, g2, g3 := Scheme.Group(0, 0, [2]), Scheme.Group(1, 1, []), Scheme.Group(2, 3, []), Scheme.Group(3, 4, []);
    assert Visit(C, 1, [g0]) == [g0, g1] by {
      assert !Scheme.Covered([g0], 1);
    }
    assert Visit(C, 2, [g0, g1]) == [g0, g1] by {
      assert 2 in [g0, g1][0].Lines();
    }
    assert Visit(C, 3, [g0, g1]) == [g0, g1, g2] by {
      assert !Scheme.Covered([g0, g1], 3);
    }
    assert Visit(C, 4, [g0, g1, g2]) == [g0, g1, g2, g3] by {
      assert !Scheme.Covered([g0, g1, g2], 4);
    }
    var stages := [[], [g0], [g0, g1], [g0, g1], [g0, g1, g2], [g0, g1, g2, g3]];
    assert IsTrace(C, stages);
    ClosureOfAbacd();
    TraceIsGroups(C, stages, 5);
  }

  /** Where each line is last held. */
  lemma LastAbacd()
    ensures HeldBy([Scheme.Group(0, 0, [2]), Scheme.Group(1, 1, []), Scheme.Group(2, 3, []), Scheme.Group(3, 4, [])], [0, 1, 0, 2, 3])
  {
    var gs := [Scheme.Group(0, 0, [2]), Scheme.Group(1, 1, []), Scheme.Group(2, 3, []), Scheme.Group(3, 4, [])];
    assert Scheme.LastHolder(gs, 0, 0);
    assert Scheme.LastHolder(gs, 1, 1);
    assert Scheme.LastHolder(gs, 2, 0);
    assert Scheme.LastHolder(gs, 3, 2);
    assert Scheme.LastHolder(gs, 4, 3);
  }

  /** The letters the last holders make. */
  lemma HoldersOfAbacd()
    ensures SpelledBy([Scheme.Group(0, 0, [2]), Scheme.Group(1, 1, []), Scheme.Group(2, 3, []), Scheme.Group(3, 4, [])], [0, 1, 0, 2, 3], "ABACD")
  {
    LastAbacd();
    Spells([0, 1, 0, 2, 3], "ABACD");
  }

  /** `[2, 0, 0, 0, 0]` is `ABACD`. */
  lemma SchemeAbacd()
    ensures Scheme.DistancesToAb([2, 0, 0, 0, 0]) == "ABACD"
  {
    GroupsOfAbacd();
    HoldersOfAbacd();
    assert Graph.WellFormed([2, 0, 0, 0, 0]);
    assert Scheme.LineGroups([2, 0, 0, 0, 0]) == [Scheme.Group(0, 0, [2]), Scheme.Group(1, 1, []), Scheme.Group(2, 3, []), Scheme.Group(3, 4, [])];
    LettersFromHolders([2, 0, 0, 0, 0], [Scheme.Group(0, 0, [2]), Scheme.Group(1, 1, []), Scheme.Group(2, 3, []), Scheme.Group(3, 4, [])], [0, 1, 0, 2, 3], "ABACD");
  }

  /** The graph and closure of `[2, 1, 0]`: lines 0 and 1 both rhyme onto line 2. */
  lemma ClosureOfAbb()
    ensures Scheme.LineClosure([2, 1, 0]) == map[0 := [2], 1 := [2], 2 := []]
  {
    var s := [2, 1, 0];
    var D := Graph.DistancesToPairs(s);
    assert D == map[0 := [2], 1 := [2], 2 := []] by {
      assert D.Keys == {0, 1, 2};
    }
    Scheme.PairsAreForward(s);
    Closure.ShallowClosure(D, |s|);
  }

  /** The groups of `[2, 1, 0]`: both groups hold line 2. */
  lemma GroupsOfAbb()
    ensures Scheme.LineGroups([2, 1, 0]) == [Scheme.Group(0, 0, [2]), Scheme.Group(1, 1, [2])]
  {
    var C := map[0 := [2], 1 := [2], 2 := []];
    var g0, g1 := Scheme.Group(0, 0, [2]), Scheme.Group(1, 1, [2]);
    assert Visit(C, 1, [g0]) == [g0, g1] by {
      assert !Scheme.Covered([g0], 1);
    }
    assert Visit(C, 2, [g0, g1]) == [g0, g1] by {
      assert 2 in [g0, g1][0].Lines();
    }
    var stages := [[], [g0], [g0, g1], [g0, g1]];
    assert IsTrace(C, stages);
    ClosureOfAbb();
    TraceIsGroups(C, stages, 3);
  }

  /** Where each line is last held. */
  lemma LastAbb()
    ensures HeldBy([Scheme.Group(0, 0, [2]), Scheme.Group(1, 1, [2])], [0, 1, 1])
  {
    var gs := [Scheme.Group(0, 0, [2]), Scheme.Group(1, 1, [2])];
    assert Scheme.LastHolder(gs, 0, 0);
    assert Scheme.LastHolder(gs, 1, 1);
    assert Scheme.LastHolder(gs, 2, 1);
  }

  /** The letters the last holders make. */
  lemma HoldersOfAbb()
    ensures SpelledBy([Scheme.Group(0, 0, [2]), Scheme.Group(1, 1, [2])], [0, 1, 1], "ABB")
  {
    LastAbb();
    Spells([0, 1, 1], "ABB");
  }

  /** `[2, 1, 0]` is `ABB`: line 2 keeps the label of the later group. */
  lemma SchemeAbb()
    ensures Scheme.DistancesToAb([2, 1, 0]) == "ABB"
  {
    GroupsOfAbb();
    HoldersOfAbb();
    LettersFromHolders([2, 1, 0], [Scheme.Group(0, 0, [2]), Scheme.Group(1, 1, [2])], [0, 1, 1], "ABB");
  }

  /** In `[2, 1, 0]` two lines rhyme onto line 2, and both groups hold it: groups
      may overlap when a line is rhymed onto twice. */
  lemma OverlapAbb()
    ensures !Components.SingleTargets([2, 1, 0])
    ensures Components.InGroup([2, 1, 0], 0, 2) && Components.InGroup([2, 1, 0], 1, 2)
  {
    var s := [2, 1, 0];
    GroupsOfAbb();
    assert s[0] + 0 == s[1] + 1;
  }
}
