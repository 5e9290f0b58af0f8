/** The one-off generator, `get_oneoffs`: for every line with a strictly positive
    distance, the distance list with that one rhyme link removed, filed under the
    1-indexed pair of lines the link joined. */
module OneOffs {

  /** `distances[:idx] + [0] + distances[idx+1:]`. */
  function ZeroAt(s: seq<int>, idx: int): (r: seq<int>)
    requires 0 <= idx < |s|
    ensures |r| == |s| && r[idx] == 0
    ensures forall i :: 0 <= i < |s| && i != idx ==> r[i] == s[i]
  {
    s[..idx] + [0] + s[idx + 1..]
  }

  /** Putting the removed distance back gives the original list. */
  lemma RestoreOneoff(s: seq<int>, idx: int)
    requires 0 <= idx < |s|
    ensures ZeroAt(s, idx)[idx := s[idx]] == s
  {
  }

  /** `(idx+1, idx+distances[idx]+1)`: the rhymed line pair, counted from one. */
  function PairKey(s: seq<int>, idx: int): (int, int)
    requires 0 <= idx < |s|
  {
    (idx + 1, idx + s[idx] + 1)
  }

  /** `rhyme_idx`: exactly the indices whose distance is strictly positive, ascending. */
  function RhymeIndices(s: seq<int>): (r: seq<int>)
    ensures forall idx {:trigger idx in r} :: idx in r <==> 0 <= idx < |s| && s[idx] > 0
    decreases |s|
  {
    if s == [] then []
    else
      var init := s[..|s| - 1];
      var r := RhymeIndices(init);
      var last := |s| - 1;
      assert forall idx :: 0 <= idx < last ==> s[idx] == init[idx];
      if s[last] > 0 then
        assert forall idx :: idx in r + [last] <==> idx in r || idx == last;
        r + [last]
      else r
  }

  /** The indices come out in line order. */
  lemma {:induction false} RhymeIndicesAscend(s: seq<int>, a: int, b: int)
    requires 0 <= a < b < |RhymeIndices(s)|
    ensures RhymeIndices(s)[a] < RhymeIndices(s)[b]
    decreases |s|
  {
    var init := s[..|s| - 1];
    var r := RhymeIndices(init);
    if b < |r| {
      RhymeIndicesAscend(init, a, b);
    } else {
      assert r[a] in r;
    }
  }

  /** The loop over `ids`, each filing its variant under its line pair. */
  function Record(s: seq<int>, ids: seq<int>): (m: map<(int, int), seq<int>>)
    requires forall idx :: idx in ids ==> 0 <= idx < |s|
    ensures forall key :: key in m ==>
              1 <= key.0 <= |s| && key.0 - 1 in ids && key.1 == key.0 + s[key.0 - 1]
    ensures forall idx {:trigger PairKey(s, idx)} :: idx in ids ==>
              PairKey(s, idx) in m && m[PairKey(s, idx)] == ZeroAt(s, idx)
    decreases |ids|
  {
    if ids == [] then map[]
    else
      var init := ids[..|ids| - 1];
      var idx := ids[|ids| - 1];
      assert forall x :: x in ids <==> x in init || x == idx by {
        assert ids == init + [idx];
      }
      assert idx in ids;
      Record(s, init)[PairKey(s, idx) := ZeroAt(s, idx)]
  }

  /** `get_oneoffs`: exactly one entry per strictly positive distance, keyed by the
      line pair it joins, holding the list with only that distance zeroed. */
  function GetOneoffs(s: seq<int>): (m: map<(int, int), seq<int>>)
    ensures forall idx {:trigger PairKey(s, idx)} :: 0 <= idx < |s| && s[idx] > 0 ==>
              PairKey(s, idx) in m && m[PairKey(s, idx)] == ZeroAt(s, idx)
    ensures forall key :: key in m ==>
              1 <= key.0 <= |s| && s[key.0 - 1] > 0 && key.1 == key.0 + s[key.0 - 1]
  {
    Record(s, RhymeIndices(s))
  }

  /** Keys are distinct per line, and each pair runs forward: first line before the second. */
  lemma OneoffKeys(s: seq<int>, k1: (int, int), k2: (int, int))
    requires k1 in GetOneoffs(s) && k2 in GetOneoffs(s)
    ensures k1.0 < k1.1
    ensures k1.0 == k2.0 ==> k1 == k2
  {
  }

  /** A non-positive distance contributes no entry. */
  lemma NoOneoffWithoutRhyme(s: seq<int>, idx: int)
    requires 0 <= idx < |s| && s[idx] <= 0
    ensures forall key :: key in GetOneoffs(s) ==> key.0 != idx + 1
  {
  }

  /** The worked example: `[2, 0, 0]` has one rhyme, between lines 1 and 3. */
  lemma OneoffExample()
    ensures GetOneoffs([2, 0, 0]) == map[(1, 3) := [0, 0, 0]]
  {
    var s := [2, 0, 0];
    var m := GetOneoffs(s);
    assert PairKey(s, 0) == (1, 3);
    assert ZeroAt(s, 0) == [0, 0, 0];
    assert m.Keys == {(1, 3)};
  }
}
