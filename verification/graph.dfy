/** The graph builder: a rhyme-distance list becomes an adjacency map in which
    line `i` points forward to line `i + d`, and a distance of zero adds no edge. */
module Graph {

  /** Distances the model of the labeler accepts: none negative and every target
      inside the poem, so that every edge points forward. A target outside the poem
      makes the source fail with a missing-key lookup, and a negative distance that
      closes a cycle makes it recurse without end; a negative distance that stays
      inside the poem and closes no cycle yields a result the model does not cover. */
  predicate WellFormed(s: seq<int>) {
    forall i :: 0 <= i < |s| ==> 0 <= s[i] && i + s[i] < |s|
  }

  /** The neighbour list line `i` receives for distance `d`. */
  function Edges(i: int, d: int): seq<int> {
    if d != 0 then [i + d] else []
  }

  /** `distances_to_pairs`: one key per line, filled in line order as the source's loop does. */
  function DistancesToPairs(s: seq<int>): (D: map<int, seq<int>>)
    ensures forall i :: i in D <==> 0 <= i < |s|
    ensures forall i :: 0 <= i < |s| && s[i] == 0 ==> D[i] == []
    ensures forall i :: 0 <= i < |s| && s[i] != 0 ==> D[i] == [i + s[i]]
    decreases |s|
  {
    if s == [] then map[]
    else DistancesToPairs(s[..|s| - 1])[|s| - 1 := Edges(|s| - 1, s[|s| - 1])]
  }

  /** The loop `distances_to_ab` runs inline to build its own graph. */
  method InlinePairs(s: seq<int>) returns (pairs: map<int, seq<int>>)
    ensures pairs == DistancesToPairs(s)
  {
    pairs := map[];
    var idx := 0;
    while idx < |s|
      invariant 0 <= idx <= |s|
      invariant pairs == DistancesToPairs(s[..idx])
    {
      ghost var next := s[..idx + 1];
      assert next[..|next| - 1] == s[..idx];
      assert DistancesToPairs(next) == pairs[idx := Edges(idx, s[idx])];
      if s[idx] != 0 {
        pairs := pairs[idx := [idx + s[idx]]];
      } else {
        pairs := pairs[idx := []];
      }
      idx := idx + 1;
    }
    assert s[..|s|] == s;
  }

  /** Reads the distances back off an adjacency map over lines `0..n-1`. */
  function PairsToDistances(D: map<int, seq<int>>, n: nat): (s: seq<int>)
    requires forall i :: 0 <= i < n ==> i in D
    ensures |s| == n
  {
    seq(n, i requires 0 <= i < n => if D[i] == [] then 0 else D[i][0] - i)
  }

  /** The builder loses nothing: every distance list, in range or not, is recovered from its graph. */
  lemma PairsRoundTrip(s: seq<int>)
    ensures PairsToDistances(DistancesToPairs(s), |s|) == s
  {
    var D := DistancesToPairs(s);
    var t := PairsToDistances(D, |s|);
    forall i | 0 <= i < |s|
      ensures t[i] == s[i]
    {
      if s[i] == 0 {
        assert D[i] == [];
      } else {
        assert D[i] == [i + s[i]];
      }
    }
  }

  /** Example: three unrhymed lines give three empty neighbour lists. */
  lemma PairsOfZeros()
    ensures DistancesToPairs([0, 0, 0]) == map[0 := [], 1 := [], 2 := []]
  {
    var D := DistancesToPairs([0, 0, 0]);
    assert D.Keys == {0, 1, 2};
  }
}
