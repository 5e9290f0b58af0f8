# Rhyme-distance functions, modelled in Dafny

This project models `guides/rhyme_functions.py`. That module turns a poem's rhyme
*distances* into a letter rhyme scheme. The distance list holds one integer per
line: `0` means the line rhymes with no later line, and `d > 0` means it rhymes with
the line `d` further on. The file has five parts:

- `distances_to_pairs` builds an adjacency map in which line `i` points to
  line `i + d`.
- `connect` and `closure` compute, for every line, the list of lines reachable
  from it.
- `distances_to_ab` first builds the same graph inline and takes its closure.
  It then visits lines in ascending order. Every line not yet held by a group
  seeds a new group: the line plus its closure. The group's label is letter
  `i % 26` of the alphabet, followed by `i // 26` once the alphabet is used up.
  The groups are then inverted into a line-to-label map, where later groups
  overwrite earlier ones, and the labels are joined in line order.
- `get_oneoffs` lists, for every line with a positive distance, the distance
  list with that one rhyme removed. Each entry is filed under the 1-indexed
  pair of lines the rhyme joined.

The Dafny modules follow those parts:

| file | modules | what it holds |
|---|---|---|
| `graph.dfy` | `Graph` | the graph builder, the inline builder, and a decoder back to distances |
| `closure.dfy` | `Closure` | `connect` and `closure`, with paths and reachability |
| `labels.dfy` | `Decimal`, `Labels` | `str(n)` with its parser, and the label encoder with its decoder |
| `scheme.dfy` | `Scheme` | the seeding loop, the inversion into `scheme_dict`, and the rendering |
| `components.dfy` | `Components` | how labels relate to undirected connectivity |
| `output.dfy` | `Output` | properties of the finished string: its length, its first letter, unrhymed poems |
| `examples.dfy` | `Examples` | worked examples, each derived through the seeding loop |
| `oneoffs.dfy` | `OneOffs` | `get_oneoffs` |

How the model represents the source's data:

- A distance list is a `seq<int>`. A graph is a `map<int, seq<int>>`.
- A group is a `Scheme.Group`: its counter `i`, its seeding line, and that line's
  closure. The source's `groups` dict is keyed by label. Distinct counters give
  distinct labels (`Labels.LabelInjective`), so the dict in insertion order is
  the sequence of groups in creation order.

### Behaviour worth knowing

The model follows the code as written.

- **Output length.** The result has one character per line only while there
  are at most 26 groups. From the 27th group on, labels such as `A1` have two
  characters, as the comment at line 51 anticipates (`Output.FewGroupsLetters`,
  `Output.ThirtyUnrhymed`).
- **Groups are not components.** The comment at line 50 says every connected
  component gets one letter. A group, however, is a forward closure, so two groups can share
  a line. `[2, 1, 0]` gives `"ABB"` (`Examples.SchemeAbb`), yet all three lines
  are joined by rhymes. `Examples.OverlapAbb` shows that line 2 lies in both
  groups.
- **What does hold.** In general, lines that share a label are joined by rhymes
  (`Components.SameLabelConnected`). The converse also holds, and labels are
  exactly the components, whenever no line is rhymed onto by two different lines
  (`Components.LabelsAreComponents`).

## Model

| member | source | states |
|---|---|---|
| Graph.DistancesToPairs | guides/rhyme_functions.py:23-31 | the map has exactly the keys `0..len-1`; a zero distance gives `[]` and a non-zero `d` at `i` gives `[i + d]` |
| Graph.InlinePairs | guides/rhyme_functions.py:41-45 | the loop inside `distances_to_ab` builds exactly the map `distances_to_pairs` returns |
| Graph.PairsRoundTrip | guides/rhyme_functions.py:26-30 | the graph loses nothing: reading each line's target back off the map recovers every distance |
| Graph.PairsOfZeros | guides/rhyme_functions.py:26-30 | three unrhymed lines give three keys with empty neighbour lists |
| Closure.Connect | guides/rhyme_functions.py:9-13 | every line listed by `connect` is a key of the graph lying strictly after the start line |
| Closure.ClosureOf | guides/rhyme_functions.py:15-19 | the closure has the graph's keys; each entry begins with the line's own neighbours; a line with no neighbours gets `[]` |
| Closure.ConnectSound | guides/rhyme_functions.py:9-13 | every line `connect` lists is reachable by a path of edges |
| Closure.ConnectComplete | guides/rhyme_functions.py:9-13 | the end of every path of edges is listed by `connect` from the path's start |
| Closure.ClosureIsReachability | guides/rhyme_functions.py:15-19 | a line is in the closure of `k` if and only if it is reachable from `k` |
| Closure.ClosureTransitive | guides/rhyme_functions.py:15-19 | the closure is transitive |
| Closure.ShallowClosure | guides/rhyme_functions.py:9-19 | when no neighbour has neighbours of its own, the closure equals the graph |
| Decimal.ParseNatToString | guides/rhyme_functions.py:57 | parsing the decimal digits of `str(n)` gives back `n` |
| Decimal.NatToStringInjective | guides/rhyme_functions.py:57 | distinct numbers print differently |
| Labels.Label | guides/rhyme_functions.py:55-60 | a label is letter `i % 26` followed by digits; it is one character exactly when `i < 26` |
| Labels.LabelRoundTrip | guides/rhyme_functions.py:55-61 | decoding a label (letter plus 26 times its suffix) gives back the counter |
| Labels.LabelInjective | guides/rhyme_functions.py:55-61 | distinct counters give distinct labels, so no group overwrites another's key |
| Labels.SuffixExamples | guides/rhyme_functions.py:55-57 | the 27th to 30th groups are `A1`, `B1`, `C1`, `D1`; the 52nd is `Z1` and the 53rd `A2` |
| Scheme.GroupsUpTo | guides/rhyme_functions.py:52-62 | after visiting `k` lines: at most `k` groups, counters `0, 1, 2, …`, each seeded at a visited line with that line's closure, and every visited line covered |
| Scheme.GroupsStep | guides/rhyme_functions.py:53-62 | one visit leaves the groups alone when the line is covered, and appends the group seeded at the line otherwise |
| Scheme.SeedingRule | guides/rhyme_functions.py:54 | a line seeds a group if and only if no group made before its visit holds it |
| Scheme.SeedsAscend | guides/rhyme_functions.py:53 | group seeds ascend strictly with the counter |
| Scheme.GroupsPrefix | guides/rhyme_functions.py:53-62 | groups are only ever appended: earlier groups are a prefix of later ones |
| Scheme.Assign | guides/rhyme_functions.py:64-65 | the lines of a group get its label; the other lines keep theirs |
| Scheme.SchemeDict | guides/rhyme_functions.py:63-65 | a line gets a label if and only if some group holds it |
| Scheme.SchemeDictLastHolder | guides/rhyme_functions.py:63-65 | a line ends with the label of the last group that holds it |
| Scheme.LastHolderExists | guides/rhyme_functions.py:63-65 | every held line has a last group holding it |
| Scheme.RenderLetters | guides/rhyme_functions.py:66-68 | when every label is one letter, the joined string has one letter per line, in line order |
| Scheme.LineLabels | guides/rhyme_functions.py:63-66 | `scheme_dict` has exactly the keys `0..len-1`, so sorting its items is line order |
| Components.SameLabelConnected | guides/rhyme_functions.py:50-68 | two lines with the same label are joined by a chain of rhymes |
| Components.OneGroupPerLine | guides/rhyme_functions.py:53-62 | when no line is rhymed onto twice, no line lies in two groups |
| Components.LabelsAreComponents | guides/rhyme_functions.py:50-68 | when no line is rhymed onto twice, two lines share a label if and only if they are joined by rhymes |
| Output.FewGroupsLetters | guides/rhyme_functions.py:55-68 | with at most 26 groups the scheme has one letter per line: the letter of the last group holding that line |
| Output.FirstLineA | guides/rhyme_functions.py:52-62 | a non-empty poem's scheme starts with `A` |
| Output.AllZeroScheme | guides/rhyme_functions.py:33-68 | with no rhymes the scheme spells out the labels `0, 1, 2, …` in order |
| Output.ThirtyUnrhymed | guides/rhyme_functions.py:33-68 | thirty unrhymed lines give `ABCDEFGHIJKLMNOPQRSTUVWXYZA1B1C1D1` |
| Examples.EmptyPoem | guides/rhyme_functions.py:33-68 | an empty poem gives the empty scheme |
| Examples.SchemeAbbc | guides/rhyme_functions.py:33-68 | `[0, 1, 0, 0]` gives `"ABBC"` |
| Examples.SchemeAbacd | guides/rhyme_functions.py:33-68 | `[2, 0, 0, 0, 0]` gives `"ABACD"` |
| Examples.SchemeAbb | guides/rhyme_functions.py:33-68 | `[2, 1, 0]` gives `"ABB"` |
| Examples.OverlapAbb | guides/rhyme_functions.py:53-61 | in `[2, 1, 0]` line 2 is rhymed onto twice and lies in both groups |
| OneOffs.ZeroAt | guides/rhyme_functions.py:75 | the variant has the same length, `0` at the removed line, and every other distance unchanged |
| OneOffs.RestoreOneoff | guides/rhyme_functions.py:75 | putting the removed distance back gives the original list |
| OneOffs.RhymeIndices | guides/rhyme_functions.py:73 | an index is listed if and only if its distance is strictly positive |
| OneOffs.RhymeIndicesAscend | guides/rhyme_functions.py:73 | the indices are listed in ascending order |
| OneOffs.Record | guides/rhyme_functions.py:74-77 | every listed index files its variant under its line pair, and nothing else is filed |
| OneOffs.GetOneoffs | guides/rhyme_functions.py:70-78 | exactly the positive distances have an entry; line `idx` files under `(idx+1, idx+d+1)`, holding the list with only that distance zeroed |
| OneOffs.OneoffKeys | guides/rhyme_functions.py:76 | each key's first line comes before its second; no two keys share a first line |
| OneOffs.NoOneoffWithoutRhyme | guides/rhyme_functions.py:73 | a line whose distance is zero or negative gets no entry |
| OneOffs.OneoffExample | guides/rhyme_functions.py:70-78 | `[2, 0, 0]` gives exactly `{(1, 3): [0, 0, 0]}` |

## Left out

- Negative distances and distances that point outside the poem are excluded by the precondition `Graph.WellFormed` on everything downstream of the graph, and `Closure.ForwardGraph` asks the same of `connect` and `closure`: every edge must point forward to a later line. The source does not require this. A target outside the poem fails with a missing-key lookup, and a negative distance that closes a cycle recurses without end. A negative distance that stays inside the poem and closes no cycle, however, returns a result: `[0, -1]` builds `{0: [], 1: [0]}` and gives `"BB"`, because the second group overwrites line 0. The forward-only restriction exists so that termination of the closure can be argued from line order; that case is not modelled. The graph builder and `get_oneoffs` accept any distances.
- `Closure.Connect`, `Closure.ConnectEach` and `Closure.ClosureOf` take an extra bound `n`, the number of lines, which the source does not have. It lets termination be argued from "every edge points forward inside the poem".
- The closure lists are computed as the source computes them, repeats included, but the properties proved about them speak of membership only. Their order and repetition are not stated, because nothing downstream depends on either.
- The cost of the closure is not modelled. It is exponential for long chains because shared subgraphs are traversed again and again.
- `int(d)` in `get_oneoffs` is not modelled: the distances are integers already.
- Python library mechanics are not modelled: `string.ascii_uppercase` is a constant string, `chain.from_iterable(...)` is the predicate `Scheme.Covered`, and the unused imports `defaultdict` and `reduce` are dropped.
- `sorted(scheme_dict.items())` is modelled as reading the labels of lines `0..len-1` in order. `Scheme.LineLabels` proves that these are exactly the keys.
- Dict iteration order is insertion order, as in Python 3.7 and later. The groups dict is iterated in creation order.
- Scheme.DistancesToAb: has no `ensures` of its own. Its behaviour is stated by the lemmas about it (`Output`, `Components`, `Examples`).
