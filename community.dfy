/**
 * Label-propagation community detection over an in-memory graph.
 *
 * Two algorithms share one sweep structure: at most `iterations` sweeps, each
 * visiting every node once in a random order and updating the node's label in
 * place, so that later visits in the same sweep already see earlier updates.
 *
 *  - LabelPropagation (Raghavan et al., 2007) re-draws every visited node's
 *    label among the neighbour labels of maximal multiplicity (NextLabel), and
 *    stops early only when a confirmation pass finds every node's label among
 *    its maximal labels.
 *  - LabelPropagationHopAttenuation (Leung et al., 2009) scores every
 *    neighbour label, relabels a node only when its label is not maximal, sets
 *    the node's score from its new neighbours' scores minus `delta` (floored at
 *    0), and stops after the first sweep that changes nothing.
 *
 * Nodes are identified by their rank 0..n-1 in the sorted order of the node
 * keys, so a snapshot of the labels listed in sorted-key order is the labels
 * sequence itself. The graph's own enumeration order is `nodes`, a permutation
 * of 0..n-1; the initial label of `nodes[k]` is `k`.
 *
 * Randomness is an oracle: for every sweep the visiting order (the list after
 * shuffling) and, for every visit, a number `pick`; choosing at random from a
 * candidate list `xs` is `xs[pick % |xs|]`.
 */
module Community {
  import opened Wrappers

  type Node = nat

  /** A read-only graph: `adj[v]` is the neighbour list of node v. */
  datatype Graph = Graph(directed: bool, nodes: seq<Node>, adj: seq<seq<Node>>)

  /** The entries of `s` are distinct and below m. */
  predicate DistinctBelow(s: seq<nat>, m: nat) {
    && (forall k :: 0 <= k < |s| ==> s[k] < m)
    && (forall j, k :: 0 <= j < k < |s| ==> s[j] != s[k])
  }

  /** `s` lists each of 0..n-1 exactly once (see PermutationCovers). */
  predicate IsPermutation(s: seq<nat>, n: nat) {
    |s| == n && DistinctBelow(s, n)
  }

  /** Pigeonhole: distinct entries below m are at most m many. */
  lemma {:induction false} DistinctBound(s: seq<nat>, m: nat)
    requires DistinctBelow(s, m)
    ensures |s| <= m
    decreases |s|
  {
    if s != [] {
      // drop s[0] and close the gap it leaves in 0..m-1
      var x := s[0];
      var t := seq(|s| - 1, j requires 0 <= j < |s| - 1 => if s[j + 1] > x then s[j + 1] - 1 else s[j + 1]);
      assert DistinctBelow(t, m - 1);
      DistinctBound(t, m - 1);
    }
  }

  /** A permutation of 0..n-1 visits every node. */
  lemma PermutationCovers(s: seq<nat>, n: nat, v: nat)
    requires IsPermutation(s, n) && v < n
    ensures v in s
  {
    if v in s {
      return;
    }
    var t := seq(|s|, j requires 0 <= j < |s| => if s[j] > v then s[j] - 1 else s[j]);
    assert DistinctBelow(t, n - 1);
    DistinctBound(t, n - 1);
    assert false;
  }

  /** Every entry of a neighbour list names a node of an n-node graph. */
  predicate Fits(nbh: seq<Node>, n: nat) {
    forall k :: 0 <= k < |nbh| ==> nbh[k] < n
  }

  predicate ValidGraph(g: Graph) {
    && IsPermutation(g.nodes, |g.adj|)
    && forall v :: 0 <= v < |g.adj| ==> Fits(g.adj[v], |g.adj|)
  }

  /** The random choices of a run: per sweep a visiting order and a pick per visit. */
  datatype Oracle = Oracle(orders: seq<seq<Node>>, picks: seq<seq<nat>>)

  predicate ValidOracle(o: Oracle, iterations: nat, n: nat) {
    && |o.orders| >= iterations
    && |o.picks| >= iterations
    && forall i :: 0 <= i < iterations ==> IsPermutation(o.orders[i], n) && |o.picks[i]| == n
  }

  /** Every label lies in the range 0..n-1 of the initial labels. */
  predicate InRange(labels: seq<int>, n: nat) {
    forall v :: 0 <= v < |labels| ==> 0 <= labels[v] < n
  }

  predicate NonNegative(scores: seq<real>) {
    forall v :: 0 <= v < |scores| ==> scores[v] >= 0.0
  }

  predicate StrictlyIncreasing(s: seq<int>) {
    forall j, k :: 0 <= j < k < |s| ==> s[j] < s[k]
  }

  // ---------------------------------------------------------------------------
  // Initial state
  // ---------------------------------------------------------------------------

  function IndexOf(s: seq<Node>, v: Node): (k: nat)
    requires v in s
    ensures k < |s| && s[k] == v
  {
    if s[0] == v then 0 else 1 + IndexOf(s[1..], v)
  }

  /** The initial labels: node `nodes[k]` gets label k, a bijection onto 0..n-1. */
  function InitialLabels(nodes: seq<Node>): (labels: seq<int>)
    requires IsPermutation(nodes, |nodes|)
    ensures |labels| == |nodes|
    ensures forall k :: 0 <= k < |nodes| ==> labels[nodes[k]] == k
    ensures InRange(labels, |nodes|)
    ensures forall u, v :: 0 <= u < v < |labels| ==> labels[u] != labels[v]
    ensures forall k :: 0 <= k < |nodes| ==> k in labels
  {
    var labels := seq(|nodes|, v requires 0 <= v < |nodes| =>
      PermutationCovers(nodes, |nodes|, v); IndexOf(nodes, v));
    assert forall k :: 0 <= k < |nodes| ==> labels[nodes[k]] == k by {
      forall k | 0 <= k < |nodes| ensures labels[nodes[k]] == k {
        PermutationCovers(nodes, |nodes|, nodes[k]);
        var j := IndexOf(nodes, nodes[k]);
        assert nodes[j] == nodes[k];
      }
    }
    assert forall k :: 0 <= k < |nodes| ==> k in labels by {
      forall k | 0 <= k < |nodes| ensures k in labels {
        assert labels[nodes[k]] == k;
      }
    }
    labels
  }

  // ---------------------------------------------------------------------------
  // Maximal labels: sort, group by label, score the groups, keep the maximal
  // ---------------------------------------------------------------------------

  /** The labels of the neighbours, in neighbour-list order. */
  function NeighbourLabels(labels: seq<int>, nbh: seq<Node>): (ls: seq<int>)
    requires Fits(nbh, |labels|)
    ensures |ls| == |nbh|
    ensures forall k :: 0 <= k < |nbh| ==> ls[k] == labels[nbh[k]]
  {
    if nbh == [] then [] else [labels[nbh[0]]] + NeighbourLabels(labels, nbh[1..])
  }

  lemma ConsIncreasing(a: int, rest: seq<int>)
    requires StrictlyIncreasing(rest)
    requires forall y :: y in rest ==> a < y
    ensures StrictlyIncreasing([a] + rest)
  {
    var s := [a] + rest;
    forall j, k | 0 <= j < k < |s| ensures s[j] < s[k] {
      assert s[k] == rest[k - 1] && rest[k - 1] in rest;
      if j > 0 {
        assert s[j] == rest[j - 1];
      }
    }
  }

  function InsertSorted(s: seq<int>, x: int): (r: seq<int>)
    requires StrictlyIncreasing(s)
    ensures StrictlyIncreasing(r)
    ensures forall y :: y in r <==> y in s || y == x
  {
    if s == [] then [x]
    else if x < s[0] then
      ConsIncreasing(x, s);
      [x] + s
    else if x == s[0] then s
    else
      var rest := InsertSorted(s[1..], x);
      assert forall y :: y in rest ==> s[0] < y;
      ConsIncreasing(s[0], rest);
      [s[0]] + rest
  }

  /** The group keys of sorting then grouping `xs`: its distinct values, ascending. */
  function SortedDistinct(xs: seq<int>): (r: seq<int>)
    ensures StrictlyIncreasing(r)
    ensures forall y :: y in r <==> y in xs
  {
    if xs == [] then [] else InsertSorted(SortedDistinct(xs[1..]), xs[0])
  }

  /** One (score, label) pair of the grouped neighbour list. */
  datatype Scored = Scored(score: real, key: int)

  predicate LabelsIncreasing(lbls: seq<Scored>) {
    forall j, k :: 0 <= j < k < |lbls| ==> lbls[j].key < lbls[k].key
  }

  /** max(lbls)[0]: the largest score of the pairs. */
  function MaxScore(lbls: seq<Scored>): (m: real)
    requires lbls != []
    ensures forall k :: 0 <= k < |lbls| ==> lbls[k].score <= m
    ensures exists k :: 0 <= k < |lbls| && lbls[k].score == m
  {
    if |lbls| == 1 then lbls[0].score
    else
      var rest := MaxScore(lbls[1..]);
      assert forall k :: 1 <= k < |lbls| ==> lbls[k] == lbls[1..][k - 1];
      if lbls[0].score >= rest then lbls[0].score
      else
        assert exists k :: 0 <= k < |lbls| && lbls[k].score == rest by {
          var k :| 0 <= k < |lbls| - 1 && lbls[1..][k].score == rest;
          assert lbls[k + 1].score == rest;
        }
        rest
  }

  /** Some pair carries label x and scores at least m. */
  predicate HasPairAtLeast(lbls: seq<Scored>, x: int, m: real) {
    exists k :: 0 <= k < |lbls| && lbls[k].key == x && lbls[k].score >= m
  }

  /** The labels of the pairs scoring at least m, in their original order. */
  function AtLeast(lbls: seq<Scored>, m: real): (r: seq<int>)
    ensures forall x :: x in r <==> HasPairAtLeast(lbls, x, m)
    ensures LabelsIncreasing(lbls) ==> StrictlyIncreasing(r)
  {
    if lbls == [] then []
    else
      var rest := AtLeast(lbls[1..], m);
      assert forall x :: HasPairAtLeast(lbls, x, m) <==>
        ((lbls[0].key == x && lbls[0].score >= m) || HasPairAtLeast(lbls[1..], x, m)) by {
        forall x ensures HasPairAtLeast(lbls, x, m) ==>
          ((lbls[0].key == x && lbls[0].score >= m) || HasPairAtLeast(lbls[1..], x, m)) {
          if HasPairAtLeast(lbls, x, m) {
            var k :| 0 <= k < |lbls| && lbls[k].key == x && lbls[k].score >= m;
            if k > 0 {
              assert lbls[1..][k - 1] == lbls[k];
            }
          }
        }
        forall x ensures HasPairAtLeast(lbls[1..], x, m) ==> HasPairAtLeast(lbls, x, m) {
          if HasPairAtLeast(lbls[1..], x, m) {
            var k :| 0 <= k < |lbls| - 1 && lbls[1..][k].key == x && lbls[1..][k].score >= m;
            assert lbls[k + 1] == lbls[1..][k];
          }
        }
      }
      if lbls[0].score >= m then
        if LabelsIncreasing(lbls) then
          assert forall y :: y in rest ==> lbls[0].key < y by {
            forall y | y in rest ensures lbls[0].key < y {
              var k :| 0 <= k < |lbls| - 1 && lbls[1..][k].key == y && lbls[1..][k].score >= m;
              assert lbls[k + 1] == lbls[1..][k];
            }
          }
          ConsIncreasing(lbls[0].key, rest);
          [lbls[0].key] + rest
        else [lbls[0].key] + rest
      else rest
  }

  /** max_lbls: the labels of the pairs of maximal score, in pair order. */
  function MaxLabels(lbls: seq<Scored>): (r: seq<int>)
    requires lbls != []
    ensures r != []
    ensures LabelsIncreasing(lbls) ==> StrictlyIncreasing(r)
  {
    var m := MaxScore(lbls);
    var r := AtLeast(lbls, m);
    assert r != [] by {
      var k :| 0 <= k < |lbls| && lbls[k].score == m;
      assert lbls[k].key in r;
    }
    r
  }

  /** Label x belongs to a pair that no other pair outscores. */
  predicate IsTopPair(lbls: seq<Scored>, x: int) {
    exists k :: 0 <= k < |lbls| && lbls[k].key == x &&
      forall j :: 0 <= j < |lbls| ==> lbls[j].score <= lbls[k].score
  }

  /** MaxLabels keeps exactly the labels of the top-scoring pairs. */
  lemma MaxLabelsTop(lbls: seq<Scored>, x: int)
    requires lbls != []
    ensures x in MaxLabels(lbls) <==> IsTopPair(lbls, x)
  {
    var m := MaxScore(lbls);
    assert MaxLabels(lbls) == AtLeast(lbls, m);
    if IsTopPair(lbls, x) {
      var k :| 0 <= k < |lbls| && lbls[k].key == x &&
        forall j :: 0 <= j < |lbls| ==> lbls[j].score <= lbls[k].score;
      var i :| 0 <= i < |lbls| && lbls[i].score == m;
      assert lbls[k].score >= m;
    }
  }

  /** The count pairs of next_label: one (multiplicity, label) pair per group key. */
  function CountPairs(groups: seq<int>, ls: seq<int>): (r: seq<Scored>)
    ensures |r| == |groups|
    ensures forall k :: 0 <= k < |r| ==> r[k] == Scored(multiset(ls)[groups[k]] as real, groups[k])
  {
    if groups == [] then []
    else [Scored(multiset(ls)[groups[0]] as real, groups[0])] + CountPairs(groups[1..], ls)
  }

  /** x is a neighbour label of maximal multiplicity. */
  predicate IsMode(ls: seq<int>, x: int) {
    x in ls && forall y :: y in ls ==> multiset(ls)[y] <= multiset(ls)[x]
  }

  /**
   * next_label: the labels of maximal multiplicity among the neighbours'
   * labels, ascending and each once.
   */
  function NextLabel(labels: seq<int>, nbh: seq<Node>): (r: seq<int>)
    requires nbh != [] && Fits(nbh, |labels|)
    ensures r != [] && StrictlyIncreasing(r)
  {
    var ls := NeighbourLabels(labels, nbh);
    var groups := SortedDistinct(ls);
    assert ls[0] in groups;
    MaxLabels(CountPairs(groups, ls))
  }

  /** NextLabel holds exactly the neighbour labels of maximal multiplicity. */
  lemma NextLabelModes(labels: seq<int>, nbh: seq<Node>, x: int)
    requires nbh != [] && Fits(nbh, |labels|)
    ensures x in NextLabel(labels, nbh) <==> IsMode(NeighbourLabels(labels, nbh), x)
  {
    var ls := NeighbourLabels(labels, nbh);
    var groups := SortedDistinct(ls);
    assert ls[0] in groups;
    var lbls := CountPairs(groups, ls);
    MaxLabelsTop(lbls, x);
    if IsTopPair(lbls, x) {
      var k :| 0 <= k < |lbls| && lbls[k].key == x &&
        forall j :: 0 <= j < |lbls| ==> lbls[j].score <= lbls[k].score;
      assert groups[k] in groups;
      forall y | y in ls ensures multiset(ls)[y] <= multiset(ls)[x] {
        assert y in groups;
        var j :| 0 <= j < |groups| && groups[j] == y;
        assert lbls[j].score <= lbls[k].score;
      }
    }
    if IsMode(ls, x) {
      assert x in groups;
      var k :| 0 <= k < |groups| && groups[k] == x;
      forall j | 0 <= j < |lbls| ensures lbls[j].score <= lbls[k].score {
        assert groups[j] in groups;
      }
    }
  }

  /** Every label NextLabel offers is the label of some neighbour. */
  lemma NextLabelFromNeighbour(labels: seq<int>, nbh: seq<Node>, x: int)
    requires nbh != [] && Fits(nbh, |labels|)
    requires x in NextLabel(labels, nbh)
    ensures exists k :: 0 <= k < |nbh| && labels[nbh[k]] == x
  {
    NextLabelModes(labels, nbh, x);
    var ls := NeighbourLabels(labels, nbh);
    var k :| 0 <= k < |ls| && ls[k] == x;
  }

  /** The summed score of the neighbours of v that carry label l; 0 when none does. */
  function GroupScore(nbh: seq<Node>, labels: seq<int>, scores: seq<real>,
                      w: (Node, Node) -> real, v: Node, l: int): (r: real)
    requires Fits(nbh, |labels|) && |scores| == |labels|
    ensures (forall k :: 0 <= k < |nbh| ==> labels[nbh[k]] != l) ==> r == 0.0
  {
    if nbh == [] then 0.0
    else
      var u := nbh[0];
      (if labels[u] == l then scores[u] * w(v, u) else 0.0)
        + GroupScore(nbh[1..], labels, scores, w, v, l)
  }

  /** The score pairs of the hop-attenuation variant: one (group score, label) pair per group key. */
  function ScorePairs(groups: seq<int>, nbh: seq<Node>, labels: seq<int>, scores: seq<real>,
                      w: (Node, Node) -> real, v: Node): (r: seq<Scored>)
    requires Fits(nbh, |labels|) && |scores| == |labels|
    ensures |r| == |groups|
    ensures forall k :: 0 <= k < |r| ==>
      r[k] == Scored(GroupScore(nbh, labels, scores, w, v, groups[k]), groups[k])
  {
    if groups == [] then []
    else
      var first := Scored(GroupScore(nbh, labels, scores, w, v, groups[0]), groups[0]);
      [first] + ScorePairs(groups[1..], nbh, labels, scores, w, v)
  }

  /** x is a neighbour label of v whose group score is maximal. */
  predicate IsTopGroup(nbh: seq<Node>, labels: seq<int>, scores: seq<real>,
                       w: (Node, Node) -> real, v: Node, x: int)
    requires Fits(nbh, |labels|) && |scores| == |labels|
  {
    var ls := NeighbourLabels(labels, nbh);
    x in ls && forall y :: y in ls ==> GroupScore(nbh, labels, scores, w, v, y) <= GroupScore(nbh, labels, scores, w, v, x)
  }

  /** The hop-attenuation maximal labels of v: neighbour labels of maximal group score. */
  function HopMaxLabels(g: Graph, w: (Node, Node) -> real, labels: seq<int>, scores: seq<real>, v: Node): (r: seq<int>)
    requires ValidGraph(g) && |labels| == |g.adj| && |scores| == |g.adj|
    requires v < |g.adj| && g.adj[v] != []
    ensures r != [] && StrictlyIncreasing(r)
  {
    var nbh := g.adj[v];
    var ls := NeighbourLabels(labels, nbh);
    var groups := SortedDistinct(ls);
    assert ls[0] in groups;
    MaxLabels(ScorePairs(groups, nbh, labels, scores, w, v))
  }

  /** HopMaxLabels holds exactly the neighbour labels of maximal group score. */
  lemma HopMaxLabelsTop(g: Graph, w: (Node, Node) -> real, labels: seq<int>, scores: seq<real>, v: Node, x: int)
    requires ValidGraph(g) && |labels| == |g.adj| && |scores| == |g.adj|
    requires v < |g.adj| && g.adj[v] != []
    ensures x in HopMaxLabels(g, w, labels, scores, v) <==> IsTopGroup(g.adj[v], labels, scores, w, v, x)
  {
    var nbh := g.adj[v];
    var ls := NeighbourLabels(labels, nbh);
    var groups := SortedDistinct(ls);
    assert ls[0] in groups;
    var lbls := ScorePairs(groups, nbh, labels, scores, w, v);
    MaxLabelsTop(lbls, x);
    if IsTopPair(lbls, x) {
      var k :| 0 <= k < |lbls| && lbls[k].key == x &&
        forall j :: 0 <= j < |lbls| ==> lbls[j].score <= lbls[k].score;
      assert groups[k] in groups;
      forall y | y in ls ensures GroupScore(nbh, labels, scores, w, v, y) <= GroupScore(nbh, labels, scores, w, v, x) {
        assert y in groups;
        var j :| 0 <= j < |groups| && groups[j] == y;
        assert lbls[j].score <= lbls[k].score;
      }
    }
    if IsTopGroup(nbh, labels, scores, w, v, x) {
      assert x in groups;
      var k :| 0 <= k < |groups| && groups[k] == x;
      forall j | 0 <= j < |lbls| ensures lbls[j].score <= lbls[k].score {
        assert groups[j] in groups;
      }
    }
  }

  /** Every label HopMaxLabels offers is the label of some neighbour. */
  lemma HopMaxLabelFromNeighbour(g: Graph, w: (Node, Node) -> real, labels: seq<int>, scores: seq<real>, v: Node, x: int)
    requires ValidGraph(g) && |labels| == |g.adj| && |scores| == |g.adj|
    requires v < |g.adj| && g.adj[v] != []
    requires x in HopMaxLabels(g, w, labels, scores, v)
    ensures exists k :: 0 <= k < |g.adj[v]| && labels[g.adj[v][k]] == x
  {
    HopMaxLabelsTop(g, w, labels, scores, v, x);
    var ls := NeighbourLabels(labels, g.adj[v]);
    var k :| 0 <= k < |ls| && ls[k] == x;
  }
  /** The largest score among the neighbours that carry label l. */
  function MaxScoreWithLabel(nbh: seq<Node>, labels: seq<int>, scores: seq<real>, l: int): (m: real)
    requires Fits(nbh, |labels|) && |scores| == |labels|
    requires exists k :: 0 <= k < |nbh| && labels[nbh[k]] == l
    ensures exists k :: 0 <= k < |nbh| && labels[nbh[k]] == l && scores[nbh[k]] == m
    ensures forall k :: 0 <= k < |nbh| && labels[nbh[k]] == l ==> scores[nbh[k]] <= m
  {
    var u := nbh[0];
    if labels[u] != l then
      MaxScoreWithLabel(nbh[1..], labels, scores, l)
    else if !(exists k :: 1 <= k < |nbh| && labels[nbh[k]] == l) then
      scores[u]
    else
      var rest := MaxScoreWithLabel(nbh[1..], labels, scores, l);
      if scores[u] >= rest then scores[u] else rest
  }

  /**
   * score is max(0, best - delta), where best is the largest score among the
   * neighbours carrying label l: it is non-negative, reaches every such
   * neighbour's score less delta, and is 0 or one of those values.
   */
  predicate Attenuated(nbh: seq<Node>, labels: seq<int>, scores: seq<real>, l: int, delta: real, score: real)
    requires Fits(nbh, |labels|) && |scores| == |labels|
  {
    && score >= 0.0
    && (forall u :: u in nbh && labels[u] == l ==> score >= scores[u] - delta)
    && (score == 0.0 || exists u :: u in nbh && labels[u] == l && score == scores[u] - delta)
  }

  /** At most one score meets Attenuated, so the rule fixes the new score. */
  lemma AttenuatedUnique(nbh: seq<Node>, labels: seq<int>, scores: seq<real>, l: int, delta: real, a: real, b: real)
    requires Fits(nbh, |labels|) && |scores| == |labels|
    requires Attenuated(nbh, labels, scores, l, delta, a) && Attenuated(nbh, labels, scores, l, delta, b)
    ensures a == b
  {
    if a != 0.0 {
      var u :| u in nbh && labels[u] == l && a == scores[u] - delta;
      assert b >= a;
    }
    if b != 0.0 {
      var u :| u in nbh && labels[u] == l && b == scores[u] - delta;
      assert a >= b;
    }
  }

  /**
   * The new score of a relabelled node: the best score among its neighbours
   * carrying its new label l, less delta, and never below 0.
   */
  function AttenuatedScore(nbh: seq<Node>, labels: seq<int>, scores: seq<real>, l: int, delta: real): (score: real)
    requires Fits(nbh, |labels|) && |scores| == |labels|
    requires exists k :: 0 <= k < |nbh| && labels[nbh[k]] == l
    ensures Attenuated(nbh, labels, scores, l, delta, score)
  {
    var best := MaxScoreWithLabel(nbh, labels, scores, l);
    if best - delta > 0.0 then best - delta else 0.0
  }

  // ---------------------------------------------------------------------------
  // Per-node updates
  // ---------------------------------------------------------------------------

  /**
   * v has no neighbours, or its label has maximal multiplicity among its
   * neighbours' labels (by NextLabelModes: it is among NextLabel's labels).
   */
  predicate StableAt(g: Graph, labels: seq<int>, v: Node)
    requires ValidGraph(g) && |labels| == |g.adj| && v < |g.adj|
  {
    g.adj[v] == [] || IsMode(NeighbourLabels(labels, g.adj[v]), labels[v])
  }

  /** The confirmation criterion of the simple variant. */
  predicate Converged(g: Graph, labels: seq<int>)
    requires ValidGraph(g) && |labels| == |g.adj|
  {
    forall v :: 0 <= v < |g.adj| ==> StableAt(g, labels, v)
  }

  /**
   * `after` is a possible result of visiting v in `before`: only v may change,
   * an isolated v does not, and otherwise v takes a label of maximal
   * multiplicity among its neighbours' labels in `before`.
   */
  predicate VisitStep(g: Graph, before: seq<int>, v: Node, after: seq<int>)
    requires ValidGraph(g) && |before| == |g.adj| && v < |g.adj|
  {
    && |after| == |before| && after == before[v := after[v]]
    && (g.adj[v] == [] ==> after[v] == before[v])
    && (g.adj[v] != [] ==> IsMode(NeighbourLabels(before, g.adj[v]), after[v]))
  }

  /**
   * The visit of node v in a simple sweep: a node with neighbours always
   * re-draws its label among NextLabel; `unstable` says its old label was not
   * among them (which clears the sweep's stop flag).
   */
  method SimpleVisit(g: Graph, labels: seq<int>, v: Node, pick: nat) returns (next: seq<int>, unstable: bool)
    requires ValidGraph(g) && |labels| == |g.adj| && v < |g.adj|
    ensures |next| == |labels|
    ensures forall u :: 0 <= u < |labels| && u != v ==> next[u] == labels[u]
    ensures g.adj[v] == [] ==> next == labels && !unstable
    ensures g.adj[v] != [] ==> IsMode(NeighbourLabels(labels, g.adj[v]), next[v])
    ensures unstable <==> !StableAt(g, labels, v)
    ensures unstable ==> next[v] != labels[v]
    ensures next[v] == labels[v] ==> next == labels && StableAt(g, labels, v)
    ensures InRange(labels, |g.adj|) ==> InRange(next, |g.adj|)
    ensures VisitStep(g, labels, v, next)
  {
    var nbh := g.adj[v];
    if nbh == [] {
      return labels, false;
    }
    var maxLabels := NextLabel(labels, nbh);
    var l := maxLabels[pick % |maxLabels|];
    NextLabelModes(labels, nbh, l);
    NextLabelModes(labels, nbh, labels[v]);
    NextLabelFromNeighbour(labels, nbh, l);
    unstable := labels[v] !in maxLabels;
    next := labels[v := l];
  }

  datatype HopState = HopState(labels: seq<int>, scores: seq<real>)

  predicate ValidState(g: Graph, s: HopState) {
    |s.labels| == |g.adj| && |s.scores| == |g.adj|
  }

  /**
   * v has no neighbours, or its label has maximal group score among its
   * neighbours' labels (by HopMaxLabelsTop: it is among HopMaxLabels).
   */
  predicate HopStableAt(g: Graph, w: (Node, Node) -> real, s: HopState, v: Node)
    requires ValidGraph(g) && ValidState(g, s) && v < |g.adj|
  {
    g.adj[v] == [] || IsTopGroup(g.adj[v], s.labels, s.scores, w, v, s.labels[v])
  }

  /** Every node with neighbours holds one of its hop-attenuation maximal labels. */
  predicate HopStable(g: Graph, w: (Node, Node) -> real, s: HopState)
    requires ValidGraph(g) && ValidState(g, s)
  {
    forall v :: 0 <= v < |g.adj| ==> HopStableAt(g, w, s, v)
  }

  /** The maximal labels of v as a sweep computes them (HopMaxLabels), with their meaning. */
  method HopCandidates(g: Graph, w: (Node, Node) -> real, s: HopState, v: Node) returns (maxLabels: seq<int>)
    requires ValidGraph(g) && ValidState(g, s) && v < |g.adj| && g.adj[v] != []
    ensures maxLabels != []
    ensures forall x :: x in maxLabels <==> IsTopGroup(g.adj[v], s.labels, s.scores, w, v, x)
    ensures forall x :: x in maxLabels ==> exists k :: 0 <= k < |g.adj[v]| && s.labels[g.adj[v][k]] == x
  {
    maxLabels := HopMaxLabels(g, w, s.labels, s.scores, v);
    forall x ensures x in maxLabels <==> IsTopGroup(g.adj[v], s.labels, s.scores, w, v, x) {
      HopMaxLabelsTop(g, w, s.labels, s.scores, v, x);
    }
    forall x | x in maxLabels ensures exists k :: 0 <= k < |g.adj[v]| && s.labels[g.adj[v][k]] == x {
      HopMaxLabelFromNeighbour(g, w, s.labels, s.scores, v, x);
    }
  }

  /**
   * `after` is a possible result of visiting v in a hop-attenuation sweep
   * from `before`: a node that is isolated or holds a maximal label is left
   * as it is; otherwise only v changes, taking a different maximal label and
   * the attenuated score over the neighbours that now share that label.
   */
  predicate HopVisitStep(g: Graph, w: (Node, Node) -> real, delta: real, before: HopState, v: Node, after: HopState)
    requires ValidGraph(g) && ValidState(g, before) && v < |g.adj|
  {
    && ValidState(g, after)
    && (HopStableAt(g, w, before, v) ==> after == before)
    && (!HopStableAt(g, w, before, v) ==>
          && after.labels == before.labels[v := after.labels[v]]
          && after.scores == before.scores[v := after.scores[v]]
          && after.labels[v] != before.labels[v]
          && IsTopGroup(g.adj[v], before.labels, before.scores, w, v, after.labels[v])
          && Attenuated(g.adj[v], after.labels, before.scores, after.labels[v], delta, after.scores[v]))
  }

  /**
   * The visit of node v in a hop-attenuation sweep. `unstable` says v's label
   * was not maximal; only then is v relabelled (to a maximal label) and its
   * score set to max(0, best score of the neighbours now sharing its label - delta).
   */
  method HopVisit(g: Graph, w: (Node, Node) -> real, delta: real, s: HopState, v: Node, pick: nat)
    returns (next: HopState, unstable: bool)
    requires ValidGraph(g) && ValidState(g, s) && v < |g.adj|
    ensures HopVisitStep(g, w, delta, s, v, next)
    ensures ValidState(g, next)
    ensures forall u :: 0 <= u < |g.adj| && u != v ==>
      next.labels[u] == s.labels[u] && next.scores[u] == s.scores[u]
    ensures unstable <==> !HopStableAt(g, w, s, v)
    ensures !unstable ==> next == s
    ensures InRange(s.labels, |g.adj|) ==> InRange(next.labels, |g.adj|)
    ensures NonNegative(s.scores) ==> NonNegative(next.scores)
  {
    var nbh := g.adj[v];
    if nbh == [] {
      return s, false;
    }
    var maxLabels := HopCandidates(g, w, s, v);
    if s.labels[v] in maxLabels {
      return s, false;
    }
    var l := maxLabels[pick % |maxLabels|];
    assert l in maxLabels;
    next := HopRelabel(g, w, delta, s, v, l);
    unstable := true;
  }

  /**
   * The relabelling step of HopVisit: v takes label l, carried by one of its
   * neighbours, and its score becomes max(0, best score of the neighbours
   * now sharing l - delta).
   */
  method HopRelabel(g: Graph, w: (Node, Node) -> real, delta: real, s: HopState, v: Node, l: int)
    returns (next: HopState)
    requires ValidGraph(g) && ValidState(g, s) && v < |g.adj|
    requires exists k :: 0 <= k < |g.adj[v]| && s.labels[g.adj[v][k]] == l
    ensures ValidState(g, next)
    ensures next.labels == s.labels[v := l] && next.scores == s.scores[v := next.scores[v]]
    ensures Attenuated(g.adj[v], next.labels, s.scores, l, delta, next.scores[v])
    ensures InRange(s.labels, |g.adj|) ==> InRange(next.labels, |g.adj|)
    ensures NonNegative(s.scores) ==> NonNegative(next.scores)
  {
    var nbh := g.adj[v];
    ghost var k :| 0 <= k < |nbh| && s.labels[nbh[k]] == l;
    var labels := s.labels[v := l];
    assert labels[nbh[k]] == l;
    assert InRange(s.labels, |g.adj|) ==> 0 <= l < |g.adj|;
    var score := AttenuatedScore(nbh, labels, s.scores, l, delta);
    next := HopState(labels, s.scores[v := score]);
  }

  // ---------------------------------------------------------------------------
  // Sweeps
  // ---------------------------------------------------------------------------

  /** `trace` holds labellings of the graph, at most one per visit of `order` plus the final one. */
  predicate TraceShape(g: Graph, order: seq<Node>, trace: seq<seq<int>>) {
    |trace| <= |order| + 1 && forall k :: 0 <= k < |trace| ==> |trace[k]| == |g.adj|
  }

  /** Each labelling of `trace` arises from the one before by visiting the next node of `order`. */
  predicate Steps(g: Graph, order: seq<Node>, trace: seq<seq<int>>)
    requires ValidGraph(g) && Fits(order, |g.adj|) && TraceShape(g, order, trace)
    decreases |trace|
  {
    |trace| <= 1 ||
    (Steps(g, order, trace[..|trace| - 1]) &&
     VisitStep(g, trace[|trace| - 2], order[|trace| - 2], trace[|trace| - 1]))
  }

  /** Every node visited along `trace` held a maximal label when it was visited. */
  predicate AllStable(g: Graph, order: seq<Node>, trace: seq<seq<int>>)
    requires ValidGraph(g) && Fits(order, |g.adj|) && TraceShape(g, order, trace)
    decreases |trace|
  {
    |trace| <= 1 ||
    (AllStable(g, order, trace[..|trace| - 1]) && StableAt(g, trace[|trace| - 2], order[|trace| - 2]))
  }

  /** Along a trace with Steps, trace[i + 1] arises from trace[i] by visiting order[i]. */
  lemma {:induction false} StepsAt(g: Graph, order: seq<Node>, trace: seq<seq<int>>, i: nat)
    requires ValidGraph(g) && Fits(order, |g.adj|) && TraceShape(g, order, trace)
    requires Steps(g, order, trace) && i < |trace| - 1
    ensures VisitStep(g, trace[i], order[i], trace[i + 1])
    decreases |trace|
  {
    if i < |trace| - 2 {
      var prefix := trace[..|trace| - 1];
      StepsAt(g, order, prefix, i);
      assert prefix[i] == trace[i] && prefix[i + 1] == trace[i + 1];
    }
  }

  /** A trace whose every labelling arises from the one before by a visit satisfies Steps. */
  lemma {:induction false} StepsFrom(g: Graph, order: seq<Node>, trace: seq<seq<int>>)
    requires ValidGraph(g) && Fits(order, |g.adj|) && TraceShape(g, order, trace)
    requires forall i :: 0 <= i < |trace| - 1 ==> VisitStep(g, trace[i], order[i], trace[i + 1])
    ensures Steps(g, order, trace)
    decreases |trace|
  {
    if |trace| > 1 {
      var prefix := trace[..|trace| - 1];
      forall i | 0 <= i < |prefix| - 1 ensures VisitStep(g, prefix[i], order[i], prefix[i + 1]) {
        assert prefix[i] == trace[i] && prefix[i + 1] == trace[i + 1];
      }
      StepsFrom(g, order, prefix);
    }
  }

  lemma StepsMeaning(g: Graph, order: seq<Node>, trace: seq<seq<int>>)
    requires ValidGraph(g) && Fits(order, |g.adj|) && TraceShape(g, order, trace)
    ensures Steps(g, order, trace) <==>
      forall i :: 0 <= i < |trace| - 1 ==> VisitStep(g, trace[i], order[i], trace[i + 1])
  {
    if Steps(g, order, trace) {
      forall i | 0 <= i < |trace| - 1 ensures VisitStep(g, trace[i], order[i], trace[i + 1]) {
        StepsAt(g, order, trace, i);
      }
    } else if forall i :: 0 <= i < |trace| - 1 ==> VisitStep(g, trace[i], order[i], trace[i + 1]) {
      StepsFrom(g, order, trace);
    }
  }

  /** The visit of order[i] along a trace with AllStable found a maximal label. */
  lemma {:induction false} AllStableAt(g: Graph, order: seq<Node>, trace: seq<seq<int>>, i: nat)
    requires ValidGraph(g) && Fits(order, |g.adj|) && TraceShape(g, order, trace)
    requires AllStable(g, order, trace) && i < |trace| - 1
    ensures StableAt(g, trace[i], order[i])
    decreases |trace|
  {
    if i < |trace| - 2 {
      var prefix := trace[..|trace| - 1];
      AllStableAt(g, order, prefix, i);
      assert prefix[i] == trace[i];
    }
  }

  /** A trace whose every visit found a maximal label satisfies AllStable. */
  lemma {:induction false} AllStableFrom(g: Graph, order: seq<Node>, trace: seq<seq<int>>)
    requires ValidGraph(g) && Fits(order, |g.adj|) && TraceShape(g, order, trace)
    requires forall i :: 0 <= i < |trace| - 1 ==> StableAt(g, trace[i], order[i])
    ensures AllStable(g, order, trace)
    decreases |trace|
  {
    if |trace| > 1 {
      var prefix := trace[..|trace| - 1];
      forall i | 0 <= i < |prefix| - 1 ensures StableAt(g, prefix[i], order[i]) {
        assert prefix[i] == trace[i];
      }
      AllStableFrom(g, order, prefix);
    }
  }

  lemma AllStableMeaning(g: Graph, order: seq<Node>, trace: seq<seq<int>>)
    requires ValidGraph(g) && Fits(order, |g.adj|) && TraceShape(g, order, trace)
    ensures AllStable(g, order, trace) <==>
      forall i :: 0 <= i < |trace| - 1 ==> StableAt(g, trace[i], order[i])
  {
    if AllStable(g, order, trace) {
      forall i | 0 <= i < |trace| - 1 ensures StableAt(g, trace[i], order[i]) {
        AllStableAt(g, order, trace, i);
      }
    } else if forall i :: 0 <= i < |trace| - 1 ==> StableAt(g, trace[i], order[i]) {
      AllStableFrom(g, order, trace);
    }
  }

  /** Extending a trace by one visit. */
  lemma StepsSnoc(g: Graph, order: seq<Node>, trace: seq<seq<int>>, i: nat, before: seq<int>, v: Node, x: seq<int>)
    requires ValidGraph(g) && Fits(order, |g.adj|) && TraceShape(g, order, trace)
    requires |trace| == i + 1 && i < |order| && |x| == |g.adj|
    requires before == trace[i] && v == order[i]
    ensures TraceShape(g, order, trace + [x])
    ensures Steps(g, order, trace + [x]) <==> Steps(g, order, trace) && VisitStep(g, before, v, x)
    ensures AllStable(g, order, trace + [x]) <==> AllStable(g, order, trace) && StableAt(g, before, v)
  {
    var t := trace + [x];
    assert t[..|trace|] == trace && t[i] == before && t[i + 1] == x;
  }

  /**
   * The record of one simple sweep over `order`: trace[i] is the labelling
   * when order[i] is visited, the trace runs from `before` to `after`, and
   * `stop` says that every visited node held a maximal label at its visit
   * (StepsMeaning and AllStableMeaning spell both out index by index).
   */
  predicate SweepRecord(g: Graph, before: seq<int>, order: seq<Node>, trace: seq<seq<int>>,
                        after: seq<int>, stop: bool)
    requires ValidGraph(g) && Fits(order, |g.adj|)
  {
    && |trace| == |order| + 1
    && TraceShape(g, order, trace)
    && trace[0] == before && trace[|order|] == after
    && Steps(g, order, trace)
    && (stop <==> AllStable(g, order, trace))
  }

  /**
   * One sweep of the simple variant: visits `order`, re-drawing labels in
   * place. The stop flag stays set exactly when every visited node held a
   * maximal label at its visit (recorded in the ghost `trace`). If the sweep
   * changes no label, the flag is set and the labels pass the confirmation
   * criterion; a cleared flag means some label changed.
   */
  method SimpleSweep(g: Graph, labels: seq<int>, order: seq<Node>, picks: seq<nat>)
    returns (next: seq<int>, stop: bool, ghost trace: seq<seq<int>>)
    requires ValidGraph(g) && |labels| == |g.adj|
    requires IsPermutation(order, |g.adj|) && |picks| == |order|
    ensures SweepRecord(g, labels, order, trace, next, stop)
    ensures |next| == |labels|
    ensures forall v :: 0 <= v < |labels| && g.adj[v] == [] ==> next[v] == labels[v]
    ensures InRange(labels, |g.adj|) ==> InRange(next, |g.adj|)
    ensures !stop ==> next != labels
    ensures next == labels ==> stop && Converged(g, next)
  {
    next, stop := labels, true;
    trace := [labels];
    ghost var same := true;  // no label has changed so far
    for i := 0 to |order|
      invariant |trace| == i + 1 && trace[0] == labels && trace[i] == next
      invariant TraceShape(g, order, trace)
      invariant Steps(g, order, trace)
      invariant stop <==> AllStable(g, order, trace)
      invariant |next| == |labels|
      invariant forall v :: 0 <= v < |labels| && g.adj[v] == [] ==> next[v] == labels[v]
      invariant InRange(labels, |g.adj|) ==> InRange(next, |g.adj|)
      invariant forall k :: i <= k < |order| ==> next[order[k]] == labels[order[k]]
      invariant same ==> stop && next == labels && forall k :: 0 <= k <= i ==> trace[k] == labels
      invariant !same ==> exists k :: 0 <= k < i && next[order[k]] != labels[order[k]]
    {
      var v := order[i];
      var visited, unstable := SimpleVisit(g, next, v, picks[i]);
      if visited[v] != next[v] {
        same := false;
      }
      StepsSnoc(g, order, trace, i, next, v, visited);
      next := visited;
      stop := stop && !unstable;
      trace := trace + [next];
    }
    if same {
      AllStableMeaning(g, order, trace);
      forall v | 0 <= v < |g.adj| ensures StableAt(g, next, v) {
        PermutationCovers(order, |g.adj|, v);
        var k :| 0 <= k < |order| && order[k] == v;
        assert trace[k] == labels;
      }
    }
  }

  /** One check of the confirmation pass: is v's label among NextLabel's labels? */
  method IsConfirmed(g: Graph, labels: seq<int>, v: Node) returns (ok: bool)
    requires ValidGraph(g) && |labels| == |g.adj| && v < |g.adj|
    ensures ok == StableAt(g, labels, v)
  {
    var nbh := g.adj[v];
    if nbh == [] {
      return true;
    }
    var maxLabels := NextLabel(labels, nbh);
    NextLabelModes(labels, nbh, labels[v]);
    ok := labels[v] in maxLabels;
  }

  /**
   * The confirmation pass of the simple variant: no label changes; the result
   * says whether every node's label is among its maximal labels.
   */
  method ConfirmationPass(g: Graph, labels: seq<int>, order: seq<Node>) returns (stop: bool)
    requires ValidGraph(g) && |labels| == |g.adj| && IsPermutation(order, |g.adj|)
    ensures stop == Converged(g, labels)
  {
    for i := 0 to |order|
      invariant forall k :: 0 <= k < i ==> StableAt(g, labels, order[k])
    {
      var ok := IsConfirmed(g, labels, order[i]);
      if !ok {
        return false;
      }
    }
    forall v | 0 <= v < |g.adj| ensures StableAt(g, labels, v) {
      PermutationCovers(order, |g.adj|, v);
    }
    return true;
  }

  /** `trace` holds hop-attenuation states, at most one per visit of `order` plus the final one. */
  predicate HopTraceShape(g: Graph, order: seq<Node>, trace: seq<HopState>) {
    |trace| <= |order| + 1 && forall k :: 0 <= k < |trace| ==> ValidState(g, trace[k])
  }

  /** Each state of `trace` arises from the one before by a hop visit of the next node of `order`. */
  predicate HopSteps(g: Graph, w: (Node, Node) -> real, delta: real, order: seq<Node>, trace: seq<HopState>)
    requires ValidGraph(g) && Fits(order, |g.adj|) && HopTraceShape(g, order, trace)
    decreases |trace|
  {
    |trace| <= 1 ||
    (HopSteps(g, w, delta, order, trace[..|trace| - 1]) &&
     HopVisitStep(g, w, delta, trace[|trace| - 2], order[|trace| - 2], trace[|trace| - 1]))
  }

  /** Every node visited along `trace` was isolated or held a maximal label when it was visited. */
  predicate HopAllStable(g: Graph, w: (Node, Node) -> real, order: seq<Node>, trace: seq<HopState>)
    requires ValidGraph(g) && Fits(order, |g.adj|) && HopTraceShape(g, order, trace)
    decreases |trace|
  {
    |trace| <= 1 ||
    (HopAllStable(g, w, order, trace[..|trace| - 1]) && HopStableAt(g, w, trace[|trace| - 2], order[|trace| - 2]))
  }

  /** Along a trace with HopSteps, trace[i + 1] arises from trace[i] by visiting order[i]. */
  lemma {:induction false} HopStepsAt(g: Graph, w: (Node, Node) -> real, delta: real, order: seq<Node>,
                                      trace: seq<HopState>, i: nat)
    requires ValidGraph(g) && Fits(order, |g.adj|) && HopTraceShape(g, order, trace)
    requires HopSteps(g, w, delta, order, trace) && i < |trace| - 1
    ensures HopVisitStep(g, w, delta, trace[i], order[i], trace[i + 1])
    decreases |trace|
  {
    if i < |trace| - 2 {
      var prefix := trace[..|trace| - 1];
      HopStepsAt(g, w, delta, order, prefix, i);
      assert prefix[i] == trace[i] && prefix[i + 1] == trace[i + 1];
    }
  }

  /** A trace whose every state arises from the one before by a hop visit satisfies HopSteps. */
  lemma {:induction false} HopStepsFrom(g: Graph, w: (Node, Node) -> real, delta: real, order: seq<Node>,
                                        trace: seq<HopState>)
    requires ValidGraph(g) && Fits(order, |g.adj|) && HopTraceShape(g, order, trace)
    requires forall i :: 0 <= i < |trace| - 1 ==> HopVisitStep(g, w, delta, trace[i], order[i], trace[i + 1])
    ensures HopSteps(g, w, delta, order, trace)
    decreases |trace|
  {
    if |trace| > 1 {
      var prefix := trace[..|trace| - 1];
      forall i | 0 <= i < |prefix| - 1 ensures HopVisitStep(g, w, delta, prefix[i], order[i], prefix[i + 1]) {
        assert prefix[i] == trace[i] && prefix[i + 1] == trace[i + 1];
      }
      HopStepsFrom(g, w, delta, order, prefix);
    }
  }

  lemma HopStepsMeaning(g: Graph, w: (Node, Node) -> real, delta: real, order: seq<Node>, trace: seq<HopState>)
    requires ValidGraph(g) && Fits(order, |g.adj|) && HopTraceShape(g, order, trace)
    ensures HopSteps(g, w, delta, order, trace) <==>
      forall i :: 0 <= i < |trace| - 1 ==> HopVisitStep(g, w, delta, trace[i], order[i], trace[i + 1])
  {
    if HopSteps(g, w, delta, order, trace) {
      forall i | 0 <= i < |trace| - 1 ensures HopVisitStep(g, w, delta, trace[i], order[i], trace[i + 1]) {
        HopStepsAt(g, w, delta, order, trace, i);
      }
    } else if forall i :: 0 <= i < |trace| - 1 ==> HopVisitStep(g, w, delta, trace[i], order[i], trace[i + 1]) {
      HopStepsFrom(g, w, delta, order, trace);
    }
  }

  /** The visit of order[i] along a trace with HopAllStable found it isolated or holding a maximal label. */
  lemma {:induction false} HopAllStableAt(g: Graph, w: (Node, Node) -> real, order: seq<Node>,
                                          trace: seq<HopState>, i: nat)
    requires ValidGraph(g) && Fits(order, |g.adj|) && HopTraceShape(g, order, trace)
    requires HopAllStable(g, w, order, trace) && i < |trace| - 1
    ensures HopStableAt(g, w, trace[i], order[i])
    decreases |trace|
  {
    if i < |trace| - 2 {
      var prefix := trace[..|trace| - 1];
      HopAllStableAt(g, w, order, prefix, i);
      assert prefix[i] == trace[i];
    }
  }

  /** A trace whose every visit found a maximal label satisfies HopAllStable. */
  lemma {:induction false} HopAllStableFrom(g: Graph, w: (Node, Node) -> real, order: seq<Node>, trace: seq<HopState>)
    requires ValidGraph(g) && Fits(order, |g.adj|) && HopTraceShape(g, order, trace)
    requires forall i :: 0 <= i < |trace| - 1 ==> HopStableAt(g, w, trace[i], order[i])
    ensures HopAllStable(g, w, order, trace)
    decreases |trace|
  {
    if |trace| > 1 {
      var prefix := trace[..|trace| - 1];
      forall i | 0 <= i < |prefix| - 1 ensures HopStableAt(g, w, prefix[i], order[i]) {
        assert prefix[i] == trace[i];
      }
      HopAllStableFrom(g, w, order, prefix);
    }
  }

  lemma HopAllStableMeaning(g: Graph, w: (Node, Node) -> real, order: seq<Node>, trace: seq<HopState>)
    requires ValidGraph(g) && Fits(order, |g.adj|) && HopTraceShape(g, order, trace)
    ensures HopAllStable(g, w, order, trace) <==>
      forall i :: 0 <= i < |trace| - 1 ==> HopStableAt(g, w, trace[i], order[i])
  {
    if HopAllStable(g, w, order, trace) {
      forall i | 0 <= i < |trace| - 1 ensures HopStableAt(g, w, trace[i], order[i]) {
        HopAllStableAt(g, w, order, trace, i);
      }
    } else if forall i :: 0 <= i < |trace| - 1 ==> HopStableAt(g, w, trace[i], order[i]) {
      HopAllStableFrom(g, w, order, trace);
    }
  }

  /** Extending a hop trace by one visit. */
  lemma HopStepsSnoc(g: Graph, w: (Node, Node) -> real, delta: real, order: seq<Node>, trace: seq<HopState>,
                     i: nat, before: HopState, v: Node, x: HopState)
    requires ValidGraph(g) && Fits(order, |g.adj|) && HopTraceShape(g, order, trace)
    requires |trace| == i + 1 && i < |order| && ValidState(g, x)
    requires before == trace[i] && v == order[i]
    ensures HopTraceShape(g, order, trace + [x])
    ensures HopSteps(g, w, delta, order, trace + [x]) <==>
      HopSteps(g, w, delta, order, trace) && HopVisitStep(g, w, delta, before, v, x)
    ensures HopAllStable(g, w, order, trace + [x]) <==> HopAllStable(g, w, order, trace) && HopStableAt(g, w, before, v)
  {
    var t := trace + [x];
    assert t[..|trace|] == trace && t[i] == before && t[i + 1] == x;
  }

  /**
   * The record of one hop-attenuation sweep over `order`: trace[i] is the
   * state when order[i] is visited, the trace runs from `before` to `after`,
   * each visit is a HopVisitStep, and `stop` says that every visited node was
   * isolated or held a maximal label at its visit (HopStepsMeaning and
   * HopAllStableMeaning spell both out index by index).
   */
  predicate HopSweepRecord(g: Graph, w: (Node, Node) -> real, delta: real, before: HopState,
                           order: seq<Node>, trace: seq<HopState>, after: HopState, stop: bool)
    requires ValidGraph(g) && Fits(order, |g.adj|)
  {
    && |trace| == |order| + 1
    && HopTraceShape(g, order, trace)
    && trace[0] == before && trace[|order|] == after
    && HopSteps(g, w, delta, order, trace)
    && (stop <==> HopAllStable(g, w, order, trace))
  }

  /**
   * One hop-attenuation sweep over `order`, visiting the nodes in place (the
   * visits are recorded in the ghost `trace`). The stop flag stays set
   * exactly when every visited node held a maximal label at its visit, which
   * is exactly when no label changed; then nothing changed and every node
   * holds a maximal label.
   */
  /** One visit of HopSweep: visits order[i] and extends the trace by the state it leaves. */
  method HopTraceVisit(g: Graph, w: (Node, Node) -> real, delta: real, order: seq<Node>, i: nat, pick: nat,
                       s: HopState, stop: bool, ghost trace: seq<HopState>)
    returns (next: HopState, stop': bool, ghost trace': seq<HopState>)
    requires ValidGraph(g) && Fits(order, |g.adj|) && i < |order|
    requires HopTraceShape(g, order, trace) && |trace| == i + 1 && trace[i] == s
    requires HopSteps(g, w, delta, order, trace) && (stop <==> HopAllStable(g, w, order, trace))
    ensures trace' == trace + [next]
    ensures HopTraceShape(g, order, trace') && HopSteps(g, w, delta, order, trace')
    ensures stop' <==> HopAllStable(g, w, order, trace')
    ensures stop' == (stop && HopStableAt(g, w, s, order[i]))
    ensures ValidState(g, next)
    ensures forall u :: 0 <= u < |g.adj| && u != order[i] ==>
      next.labels[u] == s.labels[u] && next.scores[u] == s.scores[u]
    ensures HopStableAt(g, w, s, order[i]) ==> next == s
    ensures !HopStableAt(g, w, s, order[i]) ==> next.labels[order[i]] != s.labels[order[i]]
    ensures InRange(s.labels, |g.adj|) ==> InRange(next.labels, |g.adj|)
    ensures NonNegative(s.scores) ==> NonNegative(next.scores)
  {
    var v := order[i];
    var unstable;
    next, unstable := HopVisit(g, w, delta, s, v, pick);
    HopStepsSnoc(g, w, delta, order, trace, i, s, v, next);
    trace' := trace + [next];
    stop' := stop && !unstable;
  }

  method HopSweep(g: Graph, w: (Node, Node) -> real, delta: real, s: HopState,
                  order: seq<Node>, picks: seq<nat>)
    returns (next: HopState, stop: bool, ghost trace: seq<HopState>)
    requires ValidGraph(g) && ValidState(g, s)
    requires IsPermutation(order, |g.adj|) && |picks| == |order|
    ensures HopSweepRecord(g, w, delta, s, order, trace, next, stop)
    ensures ValidState(g, next)
    ensures forall v :: 0 <= v < |g.adj| && g.adj[v] == [] ==>
      next.labels[v] == s.labels[v] && next.scores[v] == s.scores[v]
    ensures InRange(s.labels, |g.adj|) ==> InRange(next.labels, |g.adj|)
    ensures NonNegative(s.scores) ==> NonNegative(next.scores)
    ensures stop <==> next.labels == s.labels
    ensures stop ==> next == s && HopStable(g, w, next)
  {
    next, stop := s, true;
    trace := [s];
    for i := 0 to |order|
      invariant |trace| == i + 1 && trace[0] == s && trace[i] == next
      invariant HopTraceShape(g, order, trace)
      invariant HopSteps(g, w, delta, order, trace)
      invariant stop <==> HopAllStable(g, w, order, trace)
      invariant ValidState(g, next)
      invariant forall v :: 0 <= v < |g.adj| && g.adj[v] == [] ==>
        next.labels[v] == s.labels[v] && next.scores[v] == s.scores[v]
      invariant InRange(s.labels, |g.adj|) ==> InRange(next.labels, |g.adj|)
      invariant NonNegative(s.scores) ==> NonNegative(next.scores)
      invariant forall k :: i <= k < |order| ==> next.labels[order[k]] == s.labels[order[k]]
      invariant stop ==> next == s && forall k :: 0 <= k <= i ==> trace[k] == s
      invariant !stop ==> exists k :: 0 <= k < i && next.labels[order[k]] != s.labels[order[k]]
    {
      next, stop, trace := HopTraceVisit(g, w, delta, order, i, picks[i], next, stop, trace);
    }
    if stop {
      forall v | 0 <= v < |g.adj| ensures HopStableAt(g, w, next, v) {
        PermutationCovers(order, |g.adj|, v);
        var k :| 0 <= k < |order| && order[k] == v;
        HopAllStableAt(g, w, order, trace, k);
      }
    }
  }

  // ---------------------------------------------------------------------------
  // Runs
  // ---------------------------------------------------------------------------

  /** The labels after the sweeps of `history`: its last snapshot, or the initial labels. */
  function Last<T>(initial: T, history: seq<T>): (r: T) {
    if history == [] then initial else history[|history| - 1]
  }

  /** Every snapshot of `history` differs from the labels before its sweep. */
  predicate EachChanged(initial: seq<int>, history: seq<seq<int>>) {
    history == [] ||
    var before := history[..|history| - 1];
    EachChanged(initial, before) && history[|history| - 1] != Last(initial, before)
  }

  /**
   * The sweeps of a simple run: sweep j visited orders[j], starting from the
   * initial labels or the previous snapshot and ending at snapshot j, with
   * visits recorded in traces[j] and its stop flag in stops[j].
   */
  predicate SweepRecords(g: Graph, initial: seq<int>, orders: seq<seq<Node>>, history: seq<seq<int>>,
                         traces: seq<seq<seq<int>>>, stops: seq<bool>)
    requires ValidGraph(g)
  {
    && |traces| == |history| && |stops| == |history| && |history| <= |orders|
    && forall j :: 0 <= j < |history| ==>
         Fits(orders[j], |g.adj|) &&
         SweepRecord(g, Last(initial, history[..j]), orders[j], traces[j], history[j], stops[j])
  }

  /**
   * The state of a simple run after the sweeps of `history`: `labels` are the
   * last snapshot, every sweep is recorded and changed the labels, and none of
   * them ended the run (its stop flag stayed set on converged labels).
   */
  predicate SimpleRun(g: Graph, initial: seq<int>, orders: seq<seq<Node>>, labels: seq<int>,
                      history: seq<seq<int>>, traces: seq<seq<seq<int>>>, stops: seq<bool>)
    requires ValidGraph(g)
  {
    && |labels| == |g.adj| && Last(initial, history) == labels
    && (forall j :: 0 <= j < |history| ==> |history[j]| == |g.adj|)
    && EachChanged(initial, history)
    && SweepRecords(g, initial, orders, history, traces, stops)
    && forall j :: 0 <= j < |history| ==> !(stops[j] && Converged(g, history[j]))
  }

  /** Recording one more sweep. */
  lemma SweepRecordsSnoc(g: Graph, initial: seq<int>, orders: seq<seq<Node>>, history: seq<seq<int>>,
                         traces: seq<seq<seq<int>>>, stops: seq<bool>,
                         after: seq<int>, trace: seq<seq<int>>, stop: bool)
    requires ValidGraph(g) && SweepRecords(g, initial, orders, history, traces, stops)
    requires |history| < |orders| && Fits(orders[|history|], |g.adj|)
    requires SweepRecord(g, Last(initial, history), orders[|history|], trace, after, stop)
    ensures SweepRecords(g, initial, orders, history + [after], traces + [trace], stops + [stop])
  {
    var h, ts, ss := history + [after], traces + [trace], stops + [stop];
    forall j | 0 <= j < |h|
      ensures Fits(orders[j], |g.adj|) &&
              SweepRecord(g, Last(initial, h[..j]), orders[j], ts[j], h[j], ss[j])
    {
      if j < |history| {
        assert h[..j] == history[..j] && h[j] == history[j] && ts[j] == traces[j] && ss[j] == stops[j];
      } else {
        assert h[..j] == history && h[j] == after && ts[j] == trace && ss[j] == stop;
      }
    }
  }

  /**
   * Recording one more sweep of a simple run: the record is kept, and the
   * earlier sweeps still did not end the run. If the new sweep does not end
   * it either, the run goes on with its labels.
   */
  lemma SimpleRunSnoc(g: Graph, initial: seq<int>, orders: seq<seq<Node>>, labels: seq<int>,
                      history: seq<seq<int>>, traces: seq<seq<seq<int>>>, stops: seq<bool>,
                      next: seq<int>, trace: seq<seq<int>>, stop: bool)
    requires ValidGraph(g) && SimpleRun(g, initial, orders, labels, history, traces, stops)
    requires |history| < |orders| && Fits(orders[|history|], |g.adj|)
    requires SweepRecord(g, labels, orders[|history|], trace, next, stop)
    requires |next| == |g.adj| && (next == labels ==> stop && Converged(g, next))
    ensures SweepRecords(g, initial, orders, history + [next], traces + [trace], stops + [stop])
    ensures forall j :: 0 <= j < |history| ==> !((stops + [stop])[j] && Converged(g, (history + [next])[j]))
    ensures (history + [next])[..|history|] == history
    ensures !(stop && Converged(g, next)) ==>
      SimpleRun(g, initial, orders, next, history + [next], traces + [trace], stops + [stop])
  {
    SweepRecordsSnoc(g, initial, orders, history, traces, stops, next, trace, stop);
    var h, ss := history + [next], stops + [stop];
    assert h[..|history|] == history;
    forall j | 0 <= j < |history|
      ensures !(ss[j] && Converged(g, h[j]))
    {
      assert ss[j] == stops[j] && h[j] == history[j];
    }
  }

  /**
   * One pass of label_propagation's loop: a sweep over `order`, then, if its
   * stop flag stayed set, the confirmation pass; `done` says the run ends
   * here. The run's record grows by the sweep.
   */
  method SimpleRound(g: Graph, initial: seq<int>, orders: seq<seq<Node>>, labels: seq<int>,
                     history: seq<seq<int>>, ghost traces: seq<seq<seq<int>>>, ghost stops: seq<bool>,
                     picks: seq<nat>)
    returns (next: seq<int>, done: bool, ghost trace: seq<seq<int>>, ghost stop: bool)
    requires ValidGraph(g) && SimpleRun(g, initial, orders, labels, history, traces, stops)
    requires |history| < |orders| && IsPermutation(orders[|history|], |g.adj|)
    requires |picks| == |orders[|history|]|
    ensures |next| == |g.adj|
    ensures forall v :: 0 <= v < |g.adj| && g.adj[v] == [] ==> next[v] == labels[v]
    ensures InRange(labels, |g.adj|) ==> InRange(next, |g.adj|)
    ensures SweepRecords(g, initial, orders, history + [next], traces + [trace], stops + [stop])
    ensures forall j :: 0 <= j < |history| ==> !((stops + [stop])[j] && Converged(g, (history + [next])[j]))
    ensures done <==> stop && Converged(g, next)
    ensures !done ==> SimpleRun(g, initial, orders, next, history + [next], traces + [trace], stops + [stop])
  {
    var stable;
    next, stable, trace := SimpleSweep(g, labels, orders[|history|], picks);
    stop := stable;
    SimpleRunSnoc(g, initial, orders, labels, history, traces, stops, next, trace, stop);
    done := false;
    if stable {
      done := ConfirmationPass(g, next, orders[|history|]);
    }
  }

  /**
   * label_propagation (Raghavan et al., 2007): node nodes[k] starts with
   * label k; the run ends after `iterations` sweeps, or early exactly after
   * the first sweep whose stop flag stayed set and whose labels pass the
   * confirmation pass. Returns the final labels, one snapshot per sweep, the
   * number of sweeps run and, as ghosts, every sweep's visits and stop flag.
   */
  method LabelPropagation(g: Graph, iterations: nat, oracle: Oracle)
    returns (labels: seq<int>, history: seq<seq<int>>, sweeps: nat,
             ghost traces: seq<seq<seq<int>>>, ghost stops: seq<bool>)
    requires ValidGraph(g) && ValidOracle(oracle, iterations, |g.adj|)
    ensures |labels| == |g.adj| && InRange(labels, |g.adj|)
    ensures forall v :: 0 <= v < |g.adj| && g.adj[v] == [] ==> labels[v] == InitialLabels(g.nodes)[v]
    ensures sweeps <= iterations && |history| == sweeps
    ensures iterations > 0 ==> sweeps > 0
    ensures sweeps == 0 ==> labels == InitialLabels(g.nodes)
    ensures sweeps > 0 ==> history[sweeps - 1] == labels
    ensures forall j :: 0 <= j < sweeps ==> |history[j]| == |g.adj|
    ensures SweepRecords(g, InitialLabels(g.nodes), oracle.orders, history, traces, stops)
    ensures forall j :: 0 <= j < sweeps - 1 ==> !(stops[j] && Converged(g, history[j]))
    ensures sweeps < iterations ==> sweeps > 0 && stops[sweeps - 1] && Converged(g, labels)
    ensures sweeps > 0 ==> EachChanged(InitialLabels(g.nodes), history[..sweeps - 1])
  {
    var initial := InitialLabels(g.nodes);
    labels, history, sweeps := initial, [], 0;
    traces, stops := [], [];
    while sweeps < iterations
      invariant sweeps <= iterations && |history| == sweeps
      invariant |labels| == |g.adj| && InRange(labels, |g.adj|)
      invariant forall v :: 0 <= v < |g.adj| && g.adj[v] == [] ==> labels[v] == initial[v]
      invariant SimpleRun(g, initial, oracle.orders, labels, history, traces, stops)
    {
      var next, done;
      ghost var trace, stop;
      next, done, trace, stop := SimpleRound(g, initial, oracle.orders, labels, history, traces, stops,
                                             oracle.picks[sweeps]);
      labels, history, sweeps := next, history + [next], sweeps + 1;
      traces, stops := traces + [trace], stops + [stop];
      if done {
        assert history[..sweeps - 1] == history[..|history| - 1];
        break;
      }
    }
  }

  datatype GraphError = DirectedGraph

  /** The outcome of a hop-attenuation run; the scores are exposed for their invariant. */
  datatype HopRun = HopRun(labels: seq<int>, scores: seq<real>, history: seq<seq<int>>, sweeps: nat)

  /** The initial scores: 1 for every node. */
  function Ones(n: nat): (r: seq<real>)
    ensures |r| == n && forall v :: 0 <= v < n ==> r[v] == 1.0
  {
    if n == 0 then [] else Ones(n - 1) + [1.0]
  }

  /**
   * The sweeps of a hop-attenuation run: sweep j visited orders[j], starting
   * from `start` or the state the previous sweep left, ending at states[j],
   * with its visits recorded in traces[j] and its stop flag in stops[j].
   */
  predicate HopSweepRecords(g: Graph, w: (Node, Node) -> real, delta: real, start: HopState,
                            orders: seq<seq<Node>>, states: seq<HopState>,
                            traces: seq<seq<HopState>>, stops: seq<bool>)
    requires ValidGraph(g)
  {
    && |traces| == |states| && |stops| == |states| && |states| <= |orders|
    && forall j :: 0 <= j < |states| ==>
         Fits(orders[j], |g.adj|) &&
         HopSweepRecord(g, w, delta, Last(start, states[..j]), orders[j], traces[j], states[j], stops[j])
  }

  /** Recording one more hop-attenuation sweep. */
  lemma HopSweepRecordsSnoc(g: Graph, w: (Node, Node) -> real, delta: real, start: HopState,
                            orders: seq<seq<Node>>, states: seq<HopState>,
                            traces: seq<seq<HopState>>, stops: seq<bool>,
                            after: HopState, trace: seq<HopState>, stop: bool)
    requires ValidGraph(g) && HopSweepRecords(g, w, delta, start, orders, states, traces, stops)
    requires |states| < |orders| && Fits(orders[|states|], |g.adj|)
    requires HopSweepRecord(g, w, delta, Last(start, states), orders[|states|], trace, after, stop)
    ensures HopSweepRecords(g, w, delta, start, orders, states + [after], traces + [trace], stops + [stop])
  {
    var h, ts, ss := states + [after], traces + [trace], stops + [stop];
    forall j | 0 <= j < |h|
      ensures Fits(orders[j], |g.adj|) &&
              HopSweepRecord(g, w, delta, Last(start, h[..j]), orders[j], ts[j], h[j], ss[j])
    {
      if j < |states| {
        assert h[..j] == states[..j] && h[j] == states[j] && ts[j] == traces[j] && ss[j] == stops[j];
      } else {
        assert h[..j] == states && h[j] == after && ts[j] == trace && ss[j] == stop;
      }
    }
  }

  /**
   * The state of a hop-attenuation run after the sweeps of `history`: every
   * sweep is recorded, `s` is the state the last one left (or `start`), and
   * each snapshot holds the labels of its state.
   */
  predicate HopRecord(g: Graph, w: (Node, Node) -> real, delta: real, start: HopState, orders: seq<seq<Node>>,
                      s: HopState, history: seq<seq<int>>, states: seq<HopState>,
                      traces: seq<seq<HopState>>, stops: seq<bool>)
    requires ValidGraph(g)
  {
    && HopSweepRecords(g, w, delta, start, orders, states, traces, stops)
    && |states| == |history| && Last(start, states) == s
    && forall j :: 0 <= j < |history| ==> history[j] == states[j].labels
  }

  /** Recording one more sweep of a hop-attenuation run. */
  lemma HopRecordSnoc(g: Graph, w: (Node, Node) -> real, delta: real, start: HopState, orders: seq<seq<Node>>,
                      s: HopState, history: seq<seq<int>>, states: seq<HopState>,
                      traces: seq<seq<HopState>>, stops: seq<bool>,
                      next: HopState, trace: seq<HopState>, stop: bool)
    requires ValidGraph(g) && HopRecord(g, w, delta, start, orders, s, history, states, traces, stops)
    requires |history| < |orders| && Fits(orders[|history|], |g.adj|)
    requires HopSweepRecord(g, w, delta, s, orders[|history|], trace, next, stop)
    ensures HopRecord(g, w, delta, start, orders, next, history + [next.labels], states + [next],
                      traces + [trace], stops + [stop])
  {
    HopSweepRecordsSnoc(g, w, delta, start, orders, states, traces, stops, next, trace, stop);
    var h, st := history + [next.labels], states + [next];
    forall j | 0 <= j < |h| ensures h[j] == st[j].labels {
      if j < |history| {
        assert h[j] == history[j] && st[j] == states[j];
      }
    }
  }

  /**
   * The state of a hop-attenuation run that goes on after the sweeps of
   * `history`: the record holds, labels stay in range and scores
   * non-negative, isolated nodes keep their start, every sweep changed the
   * labels, and no stop flag was set.
   */
  predicate HopGoesOn(g: Graph, w: (Node, Node) -> real, delta: real, start: HopState, orders: seq<seq<Node>>,
                      s: HopState, history: seq<seq<int>>, states: seq<HopState>,
                      traces: seq<seq<HopState>>, stops: seq<bool>)
    requires ValidGraph(g)
  {
    && HopRecord(g, w, delta, start, orders, s, history, states, traces, stops)
    && ValidState(g, start) && ValidState(g, s) && InRange(s.labels, |g.adj|) && NonNegative(s.scores)
    && (forall v :: 0 <= v < |g.adj| && g.adj[v] == [] ==>
          s.labels[v] == start.labels[v] && s.scores[v] == start.scores[v])
    && (forall j :: 0 <= j < |history| ==> |history[j]| == |g.adj|)
    && Last(start.labels, history) == s.labels
    && EachChanged(start.labels, history)
    && forall j :: 0 <= j < |stops| ==> !stops[j]
  }

  /**
   * The state of a hop-attenuation run that has just ended early: the record
   * holds, labels stay in range and scores non-negative, isolated nodes keep
   * their start, every sweep but the last changed the labels and had its stop
   * flag cleared, and the last one kept it set, changed nothing and left every
   * node at a maximal label.
   */
  predicate HopStopped(g: Graph, w: (Node, Node) -> real, delta: real, start: HopState, orders: seq<seq<Node>>,
                       s: HopState, history: seq<seq<int>>, states: seq<HopState>,
                       traces: seq<seq<HopState>>, stops: seq<bool>)
    requires ValidGraph(g)
  {
    && HopRecord(g, w, delta, start, orders, s, history, states, traces, stops)
    && ValidState(g, start) && ValidState(g, s) && InRange(s.labels, |g.adj|) && NonNegative(s.scores)
    && (forall v :: 0 <= v < |g.adj| && g.adj[v] == [] ==>
          s.labels[v] == start.labels[v] && s.scores[v] == start.scores[v])
    && (forall j :: 0 <= j < |history| ==> |history[j]| == |g.adj|)
    && |history| > 0
    && Last(start.labels, history[..|history| - 1]) == s.labels
    && EachChanged(start.labels, history[..|history| - 1])
    && (forall j :: 0 <= j < |stops| - 1 ==> !stops[j])
    && stops[|stops| - 1] && HopStable(g, w, s)
  }

  /**
   * One pass of label_propagation_hop_attenuation's loop: a sweep over
   * `orders[|history|]` from `s`, added to the run's record. If its stop flag
   * stayed set the run has stopped, otherwise it goes on.
   */
  method HopRound(g: Graph, w: (Node, Node) -> real, delta: real, start: HopState, orders: seq<seq<Node>>,
                  s: HopState, history: seq<seq<int>>, ghost states: seq<HopState>,
                  ghost traces: seq<seq<HopState>>, ghost stops: seq<bool>, picks: seq<nat>)
    returns (next: HopState, stop: bool, ghost trace: seq<HopState>)
    requires ValidGraph(g) && HopGoesOn(g, w, delta, start, orders, s, history, states, traces, stops)
    requires |history| < |orders| && IsPermutation(orders[|history|], |g.adj|)
    requires |picks| == |orders[|history|]|
    ensures stop ==> HopStopped(g, w, delta, start, orders, next, history + [next.labels], states + [next],
                               traces + [trace], stops + [stop])
    ensures !stop ==> HopGoesOn(g, w, delta, start, orders, next, history + [next.labels], states + [next],
                                traces + [trace], stops + [stop])
  {
    next, stop, trace := HopSweep(g, w, delta, s, orders[|history|], picks);
    HopRecordSnoc(g, w, delta, start, orders, s, history, states, traces, stops, next, trace, stop);
    var h, ss := history + [next.labels], stops + [stop];
    assert h[..|history|] == history;
    assert forall j :: 0 <= j < |stops| ==> ss[j] == stops[j];
    if !stop {
      assert Last(start.labels, h) == next.labels;
    }
  }

  /** What a hop-attenuation run has established when its loop ends, early or at the cap. */
  lemma HopConclude(g: Graph, iterations: nat, delta: real, w: (Node, Node) -> real, oracle: Oracle,
                    s: HopState, history: seq<seq<int>>, sweeps: nat,
                    states: seq<HopState>, traces: seq<seq<HopState>>, stops: seq<bool>, stopped: bool)
    requires ValidGraph(g) && |history| == sweeps && sweeps <= iterations
    requires stopped ==> HopStopped(g, w, delta, HopState(InitialLabels(g.nodes), Ones(|g.adj|)), oracle.orders,
                                    s, history, states, traces, stops)
    requires !stopped ==> (sweeps == iterations &&
      HopGoesOn(g, w, delta, HopState(InitialLabels(g.nodes), Ones(|g.adj|)), oracle.orders,
                s, history, states, traces, stops))
    ensures HopSweepRecords(g, w, delta, HopState(InitialLabels(g.nodes), Ones(|g.adj|)), oracle.orders,
                            states, traces, stops)
    ensures |states| == sweeps && |history| == sweeps && |stops| == sweeps
    ensures forall j :: 0 <= j < sweeps ==> history[j] == states[j].labels
    ensures sweeps > 0 ==> states[sweeps - 1] == s
    ensures forall j :: 0 <= j < sweeps - 1 ==> !stops[j]
    ensures sweeps < iterations ==> sweeps > 0 && stops[sweeps - 1]
    ensures ValidState(g, s) && InRange(s.labels, |g.adj|) && NonNegative(s.scores)
    ensures forall v :: 0 <= v < |g.adj| && g.adj[v] == [] ==>
      s.labels[v] == InitialLabels(g.nodes)[v] && s.scores[v] == 1.0
    ensures sweeps <= iterations && |history| == sweeps
    ensures iterations > 0 ==> sweeps > 0
    ensures sweeps == 0 ==> s.labels == InitialLabels(g.nodes) && forall v :: 0 <= v < |g.adj| ==> s.scores[v] == 1.0
    ensures sweeps > 0 ==> history[sweeps - 1] == s.labels
    ensures forall j :: 0 <= j < sweeps ==> |history[j]| == |g.adj|
    ensures sweeps < iterations ==>
      sweeps > 0 && s.labels == Last(InitialLabels(g.nodes), history[..sweeps - 1]) && HopStable(g, w, s)
    ensures sweeps > 0 ==> EachChanged(InitialLabels(g.nodes), history[..sweeps - 1])
  {
    var start := HopState(InitialLabels(g.nodes), Ones(|g.adj|));
    if sweeps > 0 {
      assert Last(start, states) == states[sweeps - 1];
    }
  }

  /**
   * The loop of label_propagation_hop_attenuation from the state `start`:
   * sweeps until one keeps its stop flag set (`stopped`) or `iterations`
   * sweeps have run.
   */
  method HopLoop(g: Graph, iterations: nat, delta: real, w: (Node, Node) -> real, oracle: Oracle, start: HopState)
    returns (s: HopState, history: seq<seq<int>>, sweeps: nat,
             ghost states: seq<HopState>, ghost traces: seq<seq<HopState>>, ghost stops: seq<bool>,
             ghost stopped: bool)
    requires ValidGraph(g) && ValidOracle(oracle, iterations, |g.adj|)
    requires HopGoesOn(g, w, delta, start, oracle.orders, start, [], [], [], [])
    ensures |history| == sweeps && sweeps <= iterations
    ensures stopped ==> HopStopped(g, w, delta, start, oracle.orders, s, history, states, traces, stops)
    ensures !stopped ==>
      (sweeps == iterations && HopGoesOn(g, w, delta, start, oracle.orders, s, history, states, traces, stops))
  {
    s := start;
    history, sweeps := [], 0;
    states, traces, stops := [], [], [];
    stopped := false;
    while sweeps < iterations
      invariant sweeps <= iterations && |history| == sweeps && !stopped
      invariant HopGoesOn(g, w, delta, start, oracle.orders, s, history, states, traces, stops)
    {
      var next, stop;
      ghost var trace;
      next, stop, trace := HopRound(g, w, delta, start, oracle.orders, s, history, states, traces, stops,
                                    oracle.picks[sweeps]);
      s, history, sweeps := next, history + [next.labels], sweeps + 1;
      states, traces, stops := states + [next], traces + [trace], stops + [stop];
      if stop {
        stopped := true;
        break;
      }
    }
  }

  /**
   * The sweeps of label_propagation_hop_attenuation on an undirected graph:
   * scores start at 1, and the run stops after the first sweep whose stop
   * flag stayed set (no label changed), or after `iterations` sweeps. Returns
   * the final state, the label snapshots, the number of sweeps and, as
   * ghosts, the state after each sweep, its visits and its stop flag.
   */
  method HopSweeps(g: Graph, iterations: nat, delta: real, w: (Node, Node) -> real, oracle: Oracle)
    returns (s: HopState, history: seq<seq<int>>, sweeps: nat,
             ghost states: seq<HopState>, ghost traces: seq<seq<HopState>>, ghost stops: seq<bool>)
    requires ValidGraph(g) && ValidOracle(oracle, iterations, |g.adj|)
    ensures HopSweepRecords(g, w, delta, HopState(InitialLabels(g.nodes), Ones(|g.adj|)), oracle.orders,
                            states, traces, stops)
    ensures |states| == sweeps && |history| == sweeps && |stops| == sweeps
    ensures forall j :: 0 <= j < sweeps ==> history[j] == states[j].labels
    ensures sweeps > 0 ==> states[sweeps - 1] == s
    ensures forall j :: 0 <= j < sweeps - 1 ==> !stops[j]
    ensures sweeps < iterations ==> sweeps > 0 && stops[sweeps - 1]
    ensures ValidState(g, s) && InRange(s.labels, |g.adj|) && NonNegative(s.scores)
    ensures forall v :: 0 <= v < |g.adj| && g.adj[v] == [] ==>
      s.labels[v] == InitialLabels(g.nodes)[v] && s.scores[v] == 1.0
    ensures sweeps <= iterations && |history| == sweeps
    ensures iterations > 0 ==> sweeps > 0
    ensures sweeps == 0 ==> s.labels == InitialLabels(g.nodes) && forall v :: 0 <= v < |g.adj| ==> s.scores[v] == 1.0
    ensures sweeps > 0 ==> history[sweeps - 1] == s.labels
    ensures forall j :: 0 <= j < sweeps ==> |history[j]| == |g.adj|
    ensures sweeps < iterations ==>
      sweeps > 0 && s.labels == Last(InitialLabels(g.nodes), history[..sweeps - 1]) && HopStable(g, w, s)
    ensures sweeps > 0 ==> EachChanged(InitialLabels(g.nodes), history[..sweeps - 1])
  {
    var start := HopState(InitialLabels(g.nodes), Ones(|g.adj|));
    assert HopGoesOn(g, w, delta, start, oracle.orders, start, [], [], [], []);
    ghost var stopped;
    s, history, sweeps, states, traces, stops, stopped := HopLoop(g, iterations, delta, w, oracle, start);
    HopConclude(g, iterations, delta, w, oracle, s, history, sweeps, states, traces, stops, stopped);
  }

  /**
   * label_propagation_hop_attenuation (Leung et al., 2009). `w(v, u)` stands
   * for degree(u)^m times the weight of edge (v, u). Rejects a directed graph
   * before building any state; otherwise runs until a sweep changes nothing
   * or `iterations` sweeps have run, with the ghost record of HopSweeps.
   */
  method LabelPropagationHopAttenuation(g: Graph, iterations: nat, delta: real,
                                        w: (Node, Node) -> real, oracle: Oracle)
    returns (r: Result<HopRun, GraphError>,
             ghost states: seq<HopState>, ghost traces: seq<seq<HopState>>, ghost stops: seq<bool>)
    requires ValidGraph(g) && ValidOracle(oracle, iterations, |g.adj|)
    ensures r.Failure? <==> g.directed
    ensures r.Success? ==> |r.value.labels| == |g.adj| && InRange(r.value.labels, |g.adj|)
    ensures r.Success? ==> |r.value.scores| == |g.adj| && NonNegative(r.value.scores)
    ensures r.Success? ==> forall v :: 0 <= v < |g.adj| && g.adj[v] == [] ==>
      r.value.labels[v] == InitialLabels(g.nodes)[v] && r.value.scores[v] == 1.0
    ensures r.Success? ==> r.value.sweeps <= iterations && |r.value.history| == r.value.sweeps
    ensures r.Success? && iterations > 0 ==> r.value.sweeps > 0
    ensures r.Success? && r.value.sweeps == 0 ==>
      r.value.labels == InitialLabels(g.nodes) && forall v :: 0 <= v < |g.adj| ==> r.value.scores[v] == 1.0
    ensures r.Success? && r.value.sweeps > 0 ==> r.value.history[r.value.sweeps - 1] == r.value.labels
    ensures r.Success? ==> forall j :: 0 <= j < r.value.sweeps ==> |r.value.history[j]| == |g.adj|
    ensures r.Success? && r.value.sweeps < iterations ==>
      r.value.sweeps > 0 &&
      r.value.labels == Last(InitialLabels(g.nodes), r.value.history[..r.value.sweeps - 1]) &&
      HopStable(g, w, HopState(r.value.labels, r.value.scores))
    ensures r.Success? && r.value.sweeps > 0 ==>
      EachChanged(InitialLabels(g.nodes), r.value.history[..r.value.sweeps - 1])
    ensures r.Success? ==>
      HopSweepRecords(g, w, delta, HopState(InitialLabels(g.nodes), Ones(|g.adj|)), oracle.orders,
                      states, traces, stops)
    ensures r.Success? ==>
      |states| == r.value.sweeps && |stops| == r.value.sweeps &&
      forall j :: 0 <= j < r.value.sweeps ==> r.value.history[j] == states[j].labels
    ensures r.Success? && r.value.sweeps > 0 ==> states[r.value.sweeps - 1] == HopState(r.value.labels, r.value.scores)
    ensures r.Success? ==> forall j :: 0 <= j < r.value.sweeps - 1 ==> !stops[j]
    ensures r.Success? && r.value.sweeps < iterations ==> r.value.sweeps > 0 && stops[r.value.sweeps - 1]
  {
    if g.directed {
      return Failure(DirectedGraph), [], [], [];
    }
    var s, history, sweeps;
    s, history, sweeps, states, traces, stops := HopSweeps(g, iterations, delta, w, oracle);
    r := Success(HopRun(s.labels, s.scores, history, sweeps));
  }
}
