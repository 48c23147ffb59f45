# Label propagation and example filters, modelled in Dafny

This project models two sequential parts of the Orange data-mining system.

**Label-propagation community detection** is modelled in `community.dfy`, module `Community`. It covers both algorithms of `orange/Orange/network/community.py`:

- `label_propagation` (Raghavan et al., 2007) together with its `next_label` rule.
- `label_propagation_hop_attenuation` (Leung et al., 2009).

Each run is at most `iterations` sweeps. A sweep visits the nodes in a shuffled order and updates their labels in place, then appends one snapshot of the labels to the run's history.

- Nodes are numbered by their rank in sorted-key order, so a snapshot in sorted-key order is the label sequence itself.
- The shuffle and `random.choice` are oracle inputs. For every sweep the oracle gives the visiting order (any permutation of the nodes). For every visit it gives a number `pick`, and the choice from `xs` is `xs[pick % |xs|]`.
- In hop attenuation, the factor `degrees[u]**m * weight` is a supplied weight function `w(v, u)`. Scores are exact reals.

**Example filters** are modelled in `filters.dfy`, module `Filters`. They cover `source/orange/filter.cpp`:

- The three-valued value conditions on discrete values, strings and string lists.
- `TFilter_values`, which evaluates a condition list with AND/OR and `negate`. Its editing operations (`findCondition`, `updateCondition`, the `addCondition` overloads, `removeCondition`) are methods of the class `ValuesFilter`, which updates its `conditions` field in place.
- The combinators `TFilter_conjunction` and `TFilter_disjunction`.
- The predicates `TFilter_sameValue`, `TFilter_hasSpecial` and `TFilter_hasClassValue`.

An example is the sequence of its values, with the class value last. A value is unknown (`Special`) or a discrete, continuous or string value.

`wrappers.dfy` holds the `Result` and `Outcome` types that carry the errors the source raises.

## Model

| member | source | states |
|---|---|---|
| Community.InitialLabels | orange/Orange/network/community.py:107-108 | node `nodes[k]` gets label `k`: the labels are a bijection from the nodes onto 0..n-1 (in range, pairwise distinct, every label used) |
| Community.Ones | orange/Orange/network/community.py:48 | every initial score is 1 |
| Community.NeighbourLabels | orange/Orange/network/community.py:102 | one label per neighbour, in neighbour-list order: entry k is the label of the k-th neighbour |
| Community.SortedDistinct | orange/Orange/network/community.py:102-103 | sorting then grouping yields each neighbour label exactly once, in strictly increasing order |
| Community.CountPairs | orange/Orange/network/community.py:103 | each group is paired with its multiplicity among the neighbour labels |
| Community.MaxScore | orange/Orange/network/community.py:104 | `max(lbls)[0]` is an upper bound of all group scores and is attained by one of them |
| Community.AtLeast | orange/Orange/network/community.py:105 | keeps exactly the labels whose score reaches the bound, in increasing order |
| Community.MaxLabels | orange/Orange/network/community.py:62-63 | the maximal labels of a non-empty group list form a non-empty increasing list |
| Community.MaxLabelsTop | orange/Orange/network/community.py:62-63 | a label is kept iff its group has the maximal score |
| Community.NextLabel | orange/Orange/network/community.py:97-105 | for a non-empty neighbourhood the result is non-empty and has no duplicates (strictly increasing) |
| Community.NextLabelModes | orange/Orange/network/community.py:97-105 | a label is in `next_label` iff its multiplicity among the neighbour labels is maximal (a mode) |
| Community.NextLabelFromNeighbour | orange/Orange/network/community.py:102-105 | every candidate label is the label of some neighbour |
| Community.GroupScore | orange/Orange/network/community.py:61 | the weighted score sum of a label group; a label that no neighbour carries scores 0 |
| Community.ScorePairs | orange/Orange/network/community.py:60-61 | each label group is paired with the weighted sum of its neighbours' scores |
| Community.HopMaxLabels | orange/Orange/network/community.py:60-63 | the maximal-score labels of a node with neighbours form a non-empty increasing list |
| Community.HopMaxLabelsTop | orange/Orange/network/community.py:60-63 | a label is maximal iff its neighbour group's score is at least every other group's |
| Community.HopMaxLabelFromNeighbour | orange/Orange/network/community.py:60-63 | every maximal label is some neighbour's label |
| Community.MaxScoreWithLabel | orange/Orange/network/community.py:69 | the inner `max` is the largest score among neighbours carrying the label and is attained by one of them |
| Community.AttenuatedScore | orange/Orange/network/community.py:69 | the new score meets Attenuated: it is non-negative, at least every same-label neighbour's score minus delta, and either 0 or exactly such a score minus delta |
| Community.AttenuatedUnique | orange/Orange/network/community.py:69 | at most one score meets Attenuated, so the attenuation rule determines the new score |
| Community.SimpleVisit | orange/Orange/network/community.py:113-123 | the result is a VisitStep: only node v changes, an isolated node is skipped, otherwise the new label is a mode of the neighbour labels; the "unstable" flag is set iff the old label was not a mode, and then the label changes; labels stay in range |
| Community.HopCandidates | orange/Orange/network/community.py:56-63 | the candidate list is non-empty and holds exactly the labels with maximal group score, each a neighbour's label |
| Community.HopRelabel | orange/Orange/network/community.py:67-69 | v takes the chosen label and a score that meets Attenuated for that label over the updated labels and the old scores; no other label or score changes; labels stay in range and scores non-negative |
| Community.HopVisit | orange/Orange/network/community.py:55-70 | the result is a HopVisitStep: a node that is isolated or holds a maximal label is left untouched; otherwise only v changes, it takes a different label of maximal group score (IsTopGroup) and a score that meets Attenuated; the "unstable" flag is set iff the node was not stable; labels stay in range and scores non-negative |
| Community.HopStepsMeaning | orange/Orange/network/community.py:53-70 | a hop sweep's trace satisfies HopSteps iff every state in it arises from the one before by a HopVisitStep of the next node of the order |
| Community.HopAllStableMeaning | orange/Orange/network/community.py:65-70 | HopAllStable holds iff every node visited along the trace was isolated or held a maximal label when it was visited |
| Community.HopTraceVisit | orange/Orange/network/community.py:54-70 | one visit of the sweep: the trace grows by the new state, HopSteps is kept, and the `stop` flag stays set iff it was set and the visited node was stable, exactly as HopAllStable of the longer trace |
| Community.StepsMeaning | orange/Orange/network/community.py:111-125 | a sweep's trace satisfies Steps iff every labelling in it arises from the one before by visiting the next node of the order |
| Community.AllStableMeaning | orange/Orange/network/community.py:118-121 | AllStable holds iff every node visited along the trace held a mode of its neighbour labels when it was visited |
| Community.SimpleSweep | orange/Orange/network/community.py:111-125 | the sweep's record: a trace from the old to the new labels, one visit per node of the order, and `stop` is set iff every visited node held a mode at its visit; isolated nodes keep their labels; labels stay in range; a cleared `stop` means some label changed; a sweep that changed nothing kept `stop` and left every node at a mode |
| Community.IsConfirmed | orange/Orange/network/community.py:129-136 | true iff the node is isolated or its label is among its `next_label` set |
| Community.ConfirmationPass | orange/Orange/network/community.py:128-138 | the pass confirms iff every node with neighbours holds a maximal label |
| Community.HopSweep | orange/Orange/network/community.py:53-72 | the sweep's record (HopSweepRecord): a trace from the old to the new state with one HopVisitStep per node of the order, and `stop` set iff every visited node was isolated or held a maximal label at its visit; isolated nodes keep label and score; labels stay in range and scores non-negative; `stop` holds iff no label changed, and then the state is unchanged and every node holds a maximal label |
| Community.SimpleRound | orange/Orange/network/community.py:110-138 | one pass of the loop: the sweep is recorded, and the run ends here iff the sweep's `stop` stayed set and the new labels pass the confirmation criterion |
| Community.LabelPropagation | orange/Orange/network/community.py:107-138 | labels stay in range; isolated nodes keep their initial label; one snapshot per sweep, at most `iterations`, the last equal to the returned labels; every sweep is recorded (its visits and its `stop` flag); the stop rule in both directions: no sweep before the last had `stop` set on converged labels, and ending before the cap means the last sweep's `stop` stayed set and its labels converged; every sweep but the last changed the labels |
| Community.HopRound | orange/Orange/network/community.py:51-75 | one pass of the loop: the sweep is recorded from the previous state, and the run ends here iff its `stop` flag is set, in which case the labels did not change and every node holds a maximal label |
| Community.HopLoop | orange/Orange/network/community.py:51-75 | the loop runs at most `iterations` sweeps and leaves either because a sweep's `stop` was set (the run's record ends there) or because the cap was reached with every sweep recorded and none stopping |
| Community.HopSweeps | orange/Orange/network/community.py:45-75 | scores start at 1 and labels at InitialLabels; every sweep is recorded (HopSweepRecords: sweep j starts from the previous state, visits `orders[j]` by HopVisitSteps, and `stops[j]` is set iff every visit was stable); one snapshot per sweep, at most `iterations`, snapshot j being the labels of state j and the last state being the result; the stop rule in both directions: no sweep before the last had `stop` set, and ending before the cap means the last sweep's `stop` was set, the labels did not change and every node holds a maximal label; every sweep but the last changed the labels; labels stay in range, scores non-negative, isolated nodes keep label and score |
| Community.LabelPropagationHopAttenuation | orange/Orange/network/community.py:41-84 | a directed graph is rejected before any state is built; otherwise the returned labels, scores, history and sweep count have all the properties of HopSweeps, including the record of every sweep's visits and `stop` flags and the stop rule in both directions |
| Filters.Scan | source/orange/filter.cpp:186-190 | the scan answers 1 iff the value is in the list and 0 iff it is not |
| Filters.DiscreteVerdict | source/orange/filter.cpp:181-191 | an unknown value gives acceptSpecial; otherwise 1 iff the value is listed, else 0 |
| Filters.StringListVerdict | source/orange/filter.cpp:250-262 | an unknown value gives acceptSpecial; otherwise 1 iff the string is listed, else 0 |
| Filters.ToInt | source/orange/filter.cpp:221-231 | TO_BOOL gives 1 exactly for true and 0 exactly for false |
| Filters.LexLess | source/orange/filter.cpp:223-226 | std::string order is irreflexive: a string below another differs from it |
| Filters.LexLessTransitive | source/orange/filter.cpp:223-226 | std::string order is transitive |
| Filters.LexLessTotal | source/orange/filter.cpp:223-226 | any two strings are equal or ordered one way |
| Filters.LexLessMeaning | source/orange/filter.cpp:223 | the recursive order agrees with the textbook one: proper prefix, or a smaller character at the first difference |
| Filters.CStr | source/orange/filter.cpp:229 | `c_str()` as seen by C routines is the prefix before the first NUL |
| Filters.StringVerdict | source/orange/filter.cpp:211-241 | an unknown value gives acceptSpecial; a known operator gives 0 or 1; an unknown operator gives -1 |
| Filters.BeginsWithIsPrefix | source/orange/filter.cpp:229 | for NUL-free strings, BeginsWith gives 1 iff ref is a prefix of the value |
| Filters.BeginsWithStopsAtNul | source/orange/filter.cpp:229 | with embedded NULs, BeginsWith accepts a value that ref is not a prefix of |
| Filters.EndsWithIsSuffix | source/orange/filter.cpp:233-236 | for NUL-free strings, EndsWith gives 1 iff ref is a suffix of the value |
| Filters.BetweenIsInclusive | source/orange/filter.cpp:230 | Between accepts exactly min <= value <= max, both ends included |
| Filters.OutsideAcceptsNothing | source/orange/filter.cpp:231 | as written, Outside rejects every string whenever min <= max |
| Filters.OutsideRejectsOutsider | source/orange/filter.cpp:231 | as written, Outside rejects "d" for the range "a" to "c" |
| Filters.IntendedStringVerdict | source/orange/filter.cpp:211-241 | agrees with StringVerdict except that Outside is read as value < min OR value > max |
| Filters.IntendedOutsideComplementsBetween | source/orange/filter.cpp:230-231 | read as intended, Outside accepts exactly the strings Between rejects, when min <= max |
| Filters.Take | source/orange/filter.cpp:229 | `strncmp` compares at most the first n characters: the prefix of length min(n, length) |
| Filters.OrderOperatorsComplement | source/orange/filter.cpp:223-226 | Less/GreaterEqual and Greater/LessEqual each split every string; LessEqual means value < ref or equal |
| Filters.ConditionVerdict | source/orange/filter.cpp:396 | an unknown value gives acceptSpecial; a discrete or string-list condition gives 1 iff the value is listed and 0 iff not; a string condition gives 0 or 1 for the operators it evaluates and -1 only for the others; a continuous condition answers through `cont` |
| Filters.IntendedConditionVerdict | source/orange/filter.cpp:396 | as ConditionVerdict except for Outside on a known string, which accepts exactly the strings below min or above max |
| Filters.ValuesVerdict | source/orange/filter.cpp:382-405 | the verdict differs from the default `conjunction != negate` only when some condition answers 0 (conjunction mode) or 1 (disjunction mode) |
| Filters.ConjunctionVerdict | source/orange/filter.cpp:395-404 | in conjunction mode the filter returns `negate` iff some condition answers 0, otherwise `!negate`; -1 and other codes are ignored |
| Filters.DisjunctionVerdict | source/orange/filter.cpp:395-404 | in disjunction mode it returns `!negate` iff some condition answers 1, otherwise `negate` (so an empty list gives `conjunction != negate`) |
| Filters.ValuesNegate | source/orange/filter.cpp:395-404 | flipping `negate` flips the values filter's verdict on every example |
| Filters.SignedChar | source/orange/filter.cpp:107 | the comparison result stored in a `signed char`: the value in -128..127 congruent to the input modulo 256, and the input itself when it already fits |
| Filters.Accepts | source/orange/filter.cpp:75-109 | a null or empty conjunction accepts, a null or empty disjunction rejects, and sameValue, after storing the comparison in a signed char, answers `negate` when it is -1 and otherwise whether it is non-zero, differing from `negate` |
| Filters.FirstSpecial | source/orange/filter.cpp:78-82 | the scan stops at the first unknown value, or at the end when there is none |
| Filters.AllAccept | source/orange/filter.cpp:446-449 | a true scan means every sub-filter accepts |
| Filters.AllAcceptMeaning | source/orange/filter.cpp:446-449 | the early-exit scan is true iff every sub-filter accepts |
| Filters.ConjunctionAcceptsAll | source/orange/filter.cpp:444-452 | the conjunction accepts iff its list is null or every sub-filter accepts (an empty list accepts) |
| Filters.AnyAccepts | source/orange/filter.cpp:467-470 | a true scan means some sub-filter accepts |
| Filters.AnyAcceptsMeaning | source/orange/filter.cpp:467-470 | the early-exit scan is true iff some sub-filter accepts |
| Filters.DisjunctionAcceptsAny | source/orange/filter.cpp:465-473 | the disjunction accepts iff its list is present and some sub-filter accepts (null or empty rejects) |
| Filters.HasSpecialMeaning | source/orange/filter.cpp:75-85 | accepts iff "some value is unknown" differs from `negate` |
| Filters.HasClassValueMeaning | source/orange/filter.cpp:93-94 | accepts iff "the class value is known" differs from `negate` |
| Filters.NegateFlips | source/orange/filter.cpp:75-109 | for hasSpecial, hasClassValue, sameValue (including an undecidable -1 comparison) and the values filter, flipping `negate` flips the verdict |
| Filters.FirstAt | source/orange/filter.cpp:283-296 | the index of the first condition on the position, every earlier one on another position, or the list length when none matches |
| Filters.Placed | source/orange/filter.cpp:300 | the condition moves to the variable's position and keeps its kind, acceptSpecial and every other field |
| Filters.UpdateThenFind | source/orange/filter.cpp:298-305 | after an update, finding the position yields the new filter |
| Filters.Updated | source/orange/filter.cpp:298-305 | the list grows by one exactly when no condition is on the position (and keeps its length otherwise), the new condition sits at the first index on its position (or is appended), and every other entry is unchanged |
| Filters.Removed | source/orange/filter.cpp:378 | erasing entry k shortens the list by one, keeps the other entries in order, and removes exactly that one entry from the multiset |
| Filters.UpdateKeepsUnique | source/orange/filter.cpp:298-305 | an update keeps the conditions' positions distinct |
| Filters.RemoveThenFind | source/orange/filter.cpp:370-379 | on a list with distinct positions, after removal no condition on the position remains |
| Filters.RemoveUndoesAppend | source/orange/filter.cpp:370-379 | removing the condition an update appended restores the original list |
| Filters.SetValue | source/orange/filter.cpp:325-330 | the condition stays discrete on its position; an unknown value sets acceptSpecial to 1 and keeps the list; a known value n keeps acceptSpecial and makes the condition accept exactly n |
| Filters.WithValue | source/orange/filter.cpp:308-331 | the list grows by one exactly when no condition is on the position, and every entry other than the first on the position is unchanged |
| Filters.WithValueEffect | source/orange/filter.cpp:308-331 | an unknown value sets acceptSpecial to 1 and keeps the list; any other value makes the list exactly [val]; a missing condition is created; nothing else changes |
| Filters.WithValueAcceptsExactly | source/orange/filter.cpp:308-331 | after `addCondition(var, n)` the variable's condition accepts exactly the value n |
| Filters.WithValues | source/orange/filter.cpp:334-349 | the list grows by one exactly when no condition is on the position, and every entry other than the first on the position is unchanged |
| Filters.WithValuesEffect | source/orange/filter.cpp:334-349 | the first condition on the position (created at the end if missing) becomes a discrete condition holding exactly the given values, keeping its acceptSpecial or taking the default when created; every other entry is unchanged |
| Filters.WithValuesAcceptsListed | source/orange/filter.cpp:334-349 | after `addCondition(var, list)` the variable's condition accepts exactly the listed values |
| Filters.ValuesFilter.constructor | source/orange/filter.cpp:269-273 | a new values filter has no conditions and the given mode and `negate` |
| Filters.ValuesFilter.FindCondition | source/orange/filter.cpp:283-296 | a wrong variable type is an error unless the expected type is 0; otherwise the index of the first condition on the variable's position, or the list length |
| Filters.ValuesFilter.UpdateCondition | source/orange/filter.cpp:298-305 | on a type error nothing changes; otherwise the list becomes the update of the old list with the filter moved to the variable's position |
| Filters.ValuesFilter.AddValue | source/orange/filter.cpp:308-331 | four paths: a wrong type and a non-discrete condition are errors that change nothing; otherwise the list becomes WithValue of the old list |
| Filters.ValuesFilter.AddValues | source/orange/filter.cpp:334-349 | errors as AddValue; otherwise the variable's discrete condition, created when missing, gets the list |
| Filters.ValuesFilter.AddContinuous | source/orange/filter.cpp:352-355 | a non-continuous variable is an error; otherwise the continuous condition replaces or is appended |
| Filters.ValuesFilter.AddString | source/orange/filter.cpp:358-361 | a non-string variable is an error; otherwise the string condition replaces or is appended |
| Filters.ValuesFilter.AddStringList | source/orange/filter.cpp:364-367 | a non-string variable is an error; otherwise the string-list condition replaces or is appended |
| Filters.ValuesFilter.RemoveCondition | source/orange/filter.cpp:370-379 | an error naming the variable when no condition is on its position; otherwise exactly the first matching entry is erased and the rest keep their order |

## Findings

| source | as written | input that shows it | evidently intended | confidence | as-written member | corrected member |
|---|---|---|---|---|---|---|
| source/orange/filter.cpp:231 | the string condition's Outside is `value < min && value > max`, which no string satisfies when min <= max | min "a", max "c", value "d": rejected although it lies beyond max | `value < min \|\| value > max`, as the continuous condition has it at source/orange/filter.cpp:162 | high; not executed | Filters.StringVerdict (with Filters.OutsideAcceptsNothing, Filters.OutsideRejectsOutsider) | Filters.IntendedStringVerdict and Filters.IntendedConditionVerdict (with Filters.IntendedOutsideComplementsBetween) |

## Left out

- Printing the iteration count (orange/Orange/network/community.py:83, 146) is left out. With `iterations == 0` that statement would fail on an unbound `i`; the model just returns the initial labels with an empty history.
- Exporting results and history into data tables (`add_results_to_items`, `add_history_to_items`, orange/Orange/network/community.py:6-28) is left out. It builds external tables; the history export is the transpose of the snapshot list.
- Snapshots are label sequences, not lists of label strings (`str(labels[key])`). The conversion is one-to-one and does not affect any property.
- True randomness is replaced by the oracle described above. A cumulative in-place shuffle is given as the resulting order of each sweep.
- The float arithmetic of hop attenuation is not modelled. The degree factor `degrees[u]**m` with a real exponent and the edge weight become the supplied function `w`, and scores are exact reals rather than floats.
- The graph itself (neighbour lookup, directedness) is an input value; the graph library is not part of this model.
- Community.LabelPropagation: when it stops early, the final sweep may still have re-drawn labels among equally maximal ones. So unlike the hop variant, it does not promise that the last sweep left the labels unchanged, only that every node then holds a mode.
- `TValueFilter_continuous` (source/orange/filter.cpp:118-166) is not modelled: its tolerance-based float comparisons are the oracle `cont`. Only its treatment of unknown values (acceptSpecial) is modelled.
- Value equality (`TValue::operator==`, which may answer -1) is the oracle `eq` used by `TFilter_sameValue`.
- `TFilter_random`, `TFilter_sameExample` and `TFilter_compatibleExample` are not part of this model. They depend on a random generator and on external example comparison.
- Converting an example to the filter's own domain, the reference-counted wrappers and the `checkProperty` checks for missing domains or condition lists are left out. Lists are never null, except that a combinator's list is marked absent with `present == false`.
- The variable's position in the domain (`getVarNum`) is given as part of the variable.
- The default `acceptSpecial` that a new condition receives is taken to be 0 (`DefaultAcceptSpecial`). This covers the discrete conditions that `addCondition` creates and the continuous, string and string-list conditions that AddContinuous, AddString and AddStringList are given. The header that defines it is not part of this model.
- Filters.ValuesVerdict evaluates string conditions as the source is written, through StringVerdict; the corrected reading is Filters.IntendedConditionVerdict, which the values filter does not use.
- Meta attributes are not part of an example. `TFilter_hasSpecial` looks at all of the domain's variables, which are the whole example here.
