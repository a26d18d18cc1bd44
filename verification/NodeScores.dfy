/** Scoring nodes for the scheduler: prioritize/hostpath_diskusage.go, in exact arithmetic. */
module NodeScores {
  import opened MapSums

  const DEFAULT_NODE_SCORE := 100

  /** The percentage of a node's capacity that is not allocated, rounded down. */
  function RawScore(capacity: int, quotaSize: int): int {
    if capacity <= 0 || capacity <= quotaSize then 0
    else 100 * (capacity - quotaSize) / capacity
  }

  function FinalScore(score: int, maxCount: int): int {
    if maxCount > 0 then 10 * score / maxCount else 0
  }

  lemma DivAtLeast(n: int, d: int, q: int)
    requires 0 < d && q * d <= n
    ensures q <= n / d
  {
    if n / d < q {
      TimesMonotone(n / d + 1, q, d);
    }
  }

  lemma RawScoreRange(capacity: int, quotaSize: int)
    requires 0 <= quotaSize
    ensures 0 <= RawScore(capacity, quotaSize) <= 100
  {
    if 0 < capacity && quotaSize < capacity {
      DivAtLeast(100 * (capacity - quotaSize), capacity, 0);
      if 100 < RawScore(capacity, quotaSize) {
        TimesMonotone(101, RawScore(capacity, quotaSize), capacity);
      }
    }
  }

  /** The free part of a node, as a numerator over its capacity. */
  function FreePart(capacity: int, quotaSize: int): int {
    if capacity <= 0 || capacity <= quotaSize then 0 else capacity - quotaSize
  }

  /** `n1/d1 <= n2/d2`, with a node without capacity counting as entirely full. */
  predicate NoFreer(c1: int, a1: int, c2: int, a2: int) {
    c1 <= 0 || (0 < c2 && FreePart(c1, a1) * c2 <= FreePart(c2, a2) * c1)
  }

  lemma RawScoreMonotone(c1: int, a1: int, c2: int, a2: int)
    requires 0 <= a1 && 0 <= a2 && NoFreer(c1, a1, c2, a2)
    ensures RawScore(c1, a1) <= RawScore(c2, a2)
  {
    RawScoreRange(c2, a2);
    if 0 < c1 && a1 < c1 {
      var f1, f2, q := FreePart(c1, a1), FreePart(c2, a2), RawScore(c1, a1);
      assert q * c1 <= 100 * f1;
      PositiveTimes(f1, c2);
      assert f2 > 0;
      CrossMultiply(q, f1, c1, f2, c2);
      DivAtLeast(100 * f2, c2, q);
    }
  }

  lemma PositiveTimes(a: int, b: int)
    requires 0 < a && 0 < b
    ensures 0 < a * b
  {
  }

  lemma CrossMultiply(q: int, f1: int, c1: int, f2: int, c2: int)
    requires 0 < c1 && 0 < c2 && q * c1 <= 100 * f1 && f1 * c2 <= f2 * c1
    ensures q * c2 <= 100 * f2
  {
    TimesMonotone(q * c1, 100 * f1, c2);
    assert (q * c2) * c1 == (q * c1) * c2;
    assert (100 * f2) * c1 == 100 * (f2 * c1);
    assert 100 * f1 * c2 == 100 * (f1 * c2);
    assert (100 * f2 + 1) * c1 == (100 * f2) * c1 + c1;
    if 100 * f2 < q * c2 {
      TimesMonotone(100 * f2 + 1, q * c2, c1);
    }
  }

  lemma DivMonotone(a: int, b: int, d: int)
    requires a <= b && 0 < d
    ensures a / d <= b / d
  {
    DivAtLeast(b, d, a / d);
  }

  lemma FinalScoreMonotone(s1: nat, s2: nat, maxCount: nat)
    requires s1 <= s2 <= maxCount
    ensures 0 <= FinalScore(s1, maxCount) <= FinalScore(s2, maxCount) <= 10
    ensures maxCount > 0 ==> FinalScore(maxCount, maxCount) == 10
  {
    if maxCount > 0 {
      DivMonotone(0, 10 * s1, maxCount);
      DivMonotone(10 * s1, 10 * s2, maxCount);
      DivMonotone(10 * s2, 10 * maxCount, maxCount);
      TenTimes(maxCount);
    }
  }

  lemma TenTimes(d: int)
    requires 0 < d
    ensures 10 * d / d == 10
  {
    var q := 10 * d / d;
    DivAtLeast(10 * d, d, 10);
    assert q * d <= 10 * d;
    if 10 < q {
      TimesMonotone(11, q, d);
    }
  }

  datatype Node = Node(isHostPath: bool, capacity: int, quotaSize: int)

  predicate NodeNoFreer(a: Node, b: Node) {
    NoFreer(a.capacity, a.quotaSize, b.capacity, b.quotaSize)
  }

  ghost predicate IsMaximum(scores: seq<int>, m: int) {
    (forall i :: 0 <= i < |scores| ==> scores[i] <= m) && (m == 0 || m in scores)
  }

  /** `q` is `n / d` rounded down. */
  predicate RoundedDown(q: int, n: int, d: int) {
    q * d <= n < (q + 1) * d
  }

  lemma DivRoundsDown(n: int, d: int)
    requires 0 < d
    ensures RoundedDown(n / d, n, d)
  {
    assert n == d * (n / d) + n % d;
    assert (n / d + 1) * d == (n / d) * d + d;
  }

  lemma RawScoreIs(capacity: int, quotaSize: int)
    ensures var raw := RawScore(capacity, quotaSize);
            if 0 < capacity && quotaSize < capacity then RoundedDown(raw, 100 * (capacity - quotaSize), capacity)
            else raw == 0
  {
    if 0 < capacity && quotaSize < capacity {
      DivRoundsDown(100 * (capacity - quotaSize), capacity);
    }
  }

  lemma FinalScoreIs(score: int, maxCount: int)
    ensures if maxCount > 0 then RoundedDown(FinalScore(score, maxCount), 10 * score, maxCount)
            else FinalScore(score, maxCount) == 0
  {
    if maxCount > 0 {
      DivRoundsDown(10 * score, maxCount);
    }
  }

  /** The raw score of one node into its cell. */
  method MapScoringNode(hasHostPath: bool, node: Node, scores: array<int>, i: nat)
    requires i < scores.Length
    modifies scores
    ensures scores[i] == if hasHostPath then RawScore(node.capacity, node.quotaSize) else DEFAULT_NODE_SCORE
    ensures hasHostPath && 0 < node.capacity && node.quotaSize < node.capacity ==>
      scores[i] * node.capacity <= 100 * (node.capacity - node.quotaSize) < (scores[i] + 1) * node.capacity
    ensures hasHostPath && (node.capacity <= 0 || node.capacity <= node.quotaSize) ==> scores[i] == 0
    ensures !hasHostPath ==> scores[i] == 100
    ensures forall j :: 0 <= j < scores.Length && j != i ==> scores[j] == old(scores[j])
  {
    var count;
    if !hasHostPath {
      count := DEFAULT_NODE_SCORE;
    } else if node.capacity <= 0 || node.capacity <= node.quotaSize {
      count := 0;
    } else {
      count := (100 * (node.capacity - node.quotaSize)) / node.capacity;
    }
    scores[i] := count;
    RawScoreIs(node.capacity, node.quotaSize);
  }

  method ReduceScoringNode(scores: array<int>, hasHostPath: bool) returns (ghost maxCount: int)
    modifies scores
    ensures !hasHostPath ==> scores[..] == old(scores[..])
    ensures hasHostPath && (forall j :: 0 <= j < scores.Length ==> 0 <= old(scores[j])) ==> IsMaximum(old(scores[..]), maxCount)
    ensures hasHostPath ==> forall j :: 0 <= j < scores.Length ==> scores[j] == FinalScore(old(scores[j]), maxCount)
    ensures hasHostPath && maxCount > 0 ==> forall j :: 0 <= j < scores.Length ==>
      scores[j] * maxCount <= 10 * old(scores[j]) < (scores[j] + 1) * maxCount
    ensures hasHostPath && maxCount <= 0 ==> forall j :: 0 <= j < scores.Length ==> scores[j] == 0
  {
    maxCount := 0;
    if !hasHostPath {
      return;
    }
    var most := 0;
    for i := 0 to scores.Length
      invariant 0 <= most && forall j :: 0 <= j < i ==> scores[j] <= most
      invariant most == 0 || most in scores[..i]
    {
      if scores[i] > most {
        most := scores[i];
      }
      assert scores[..i + 1] == scores[..i] + [scores[i]];
    }
    assert scores[..scores.Length] == scores[..];
    for i := 0 to scores.Length
      invariant forall j :: i <= j < scores.Length ==> scores[j] == old(scores[j])
      invariant forall j :: 0 <= j < i ==> scores[j] == FinalScore(old(scores[j]), most)
    {
      scores[i] := if most > 0 then 10 * scores[i] / most else 0;
    }
    maxCount := most;
    forall j | 0 <= j < scores.Length
      ensures most > 0 ==> scores[j] * most <= 10 * old(scores[j]) < (scores[j] + 1) * most
      ensures most <= 0 ==> scores[j] == 0
    {
      FinalScoreIs(old(scores[j]), most);
    }
  }

  /** Whether every node is one with host-path disks; one that is not settles it. */
  method HaveHostPath(nodes: seq<Node>) returns (hasHostPath: bool)
    ensures hasHostPath <==> forall n :: n in nodes ==> n.isHostPath
  {
    hasHostPath := true;
    for i := 0 to |nodes|
      invariant hasHostPath && forall j :: 0 <= j < i ==> nodes[j].isHostPath
    {
      if !nodes[i].isHostPath {
        hasHostPath := false;
        assert nodes[i] in nodes;
        break;
      }
    }
  }

  /** The free percentage of a node, rounded down. */
  predicate IsRawScore(node: Node, raw: int) {
    if 0 < node.capacity && node.quotaSize < node.capacity then
      raw * node.capacity <= 100 * (node.capacity - node.quotaSize) < (raw + 1) * node.capacity
    else raw == 0
  }

  /** All nodes are scored, each in its own cell, then reduced: `raw` are the free percentages and
      `most` the largest, and a score is ten times the one over the other, rounded down. */
  method ScoreNodes(nodes: seq<Node>) returns (scores: array<int>, ghost raw: seq<int>, ghost most: int)
    ensures fresh(scores) && scores.Length == |nodes|
    ensures (exists n :: n in nodes && !n.isHostPath) ==> forall i :: 0 <= i < |nodes| ==> scores[i] == 100
    ensures AllHostPath(nodes) && SizesNotNegative(nodes) ==> Ranked(nodes, scores[..])
    ensures AllHostPath(nodes) ==> |raw| == |nodes| && forall i :: 0 <= i < |nodes| ==> IsRawScore(nodes[i], raw[i])
    ensures AllHostPath(nodes) && SizesNotNegative(nodes) ==>
      && (forall i :: 0 <= i < |nodes| ==> raw[i] <= most) && (most == 0 || most in raw)
      && forall i :: 0 <= i < |nodes| ==>
           if most > 0 then scores[i] * most <= 10 * raw[i] < (scores[i] + 1) * most else scores[i] == 0
  {
    var hasHostPath := HaveHostPath(nodes);
    scores := new int[|nodes|];
    for i := 0 to |nodes|
      invariant forall j :: 0 <= j < i ==>
        scores[j] == if hasHostPath then RawScore(nodes[j].capacity, nodes[j].quotaSize) else DEFAULT_NODE_SCORE
    {
      MapScoringNode(hasHostPath, nodes[i], scores, i);
    }
    raw := scores[..];
    forall i | 0 <= i < |nodes| && hasHostPath ensures IsRawScore(nodes[i], raw[i]) {
      RawScoreIs(nodes[i].capacity, nodes[i].quotaSize);
    }
    if hasHostPath && SizesNotNegative(nodes) {
      forall i | 0 <= i < |nodes| ensures 0 <= raw[i] <= 100 {
        assert nodes[i] in nodes;
        RawScoreRange(nodes[i].capacity, nodes[i].quotaSize);
      }
    }
    most := ReduceScoringNode(scores, hasHostPath);
    if hasHostPath && SizesNotNegative(nodes) {
      ScoresKeepOrder(nodes, raw, scores[..], most);
    }
  }

  ghost predicate AllHostPath(nodes: seq<Node>) {
    forall n :: n in nodes ==> n.isHostPath
  }

  ghost predicate SizesNotNegative(nodes: seq<Node>) {
    forall n :: n in nodes ==> 0 <= n.quotaSize
  }

  /** Scores are 0 to 10, a freer node never scores lower, and if any node has a positive raw
      score some node scores 10. */
  ghost predicate Ranked(nodes: seq<Node>, scores: seq<int>)
    requires |scores| == |nodes|
  {
    && (forall i :: 0 <= i < |nodes| ==> 0 <= scores[i] <= 10)
    && (forall i, j ::
          0 <= i < |nodes| && 0 <= j < |nodes| && NodeNoFreer(nodes[i], nodes[j]) ==> scores[i] <= scores[j])
    && ((exists i :: 0 <= i < |nodes| && 0 < RawScore(nodes[i].capacity, nodes[i].quotaSize)) ==> 10 in scores)
  }

  lemma ScoresKeepOrder(nodes: seq<Node>, raw: seq<int>, final: seq<int>, most: int)
    requires |nodes| == |raw| == |final| && IsMaximum(raw, most)
    requires forall i :: 0 <= i < |nodes| ==>
      0 <= nodes[i].quotaSize && 0 <= raw[i] && raw[i] == RawScore(nodes[i].capacity, nodes[i].quotaSize)
    requires forall i :: 0 <= i < |nodes| ==> final[i] == FinalScore(raw[i], most)
    ensures Ranked(nodes, final)
  {
    forall i | 0 <= i < |nodes| ensures 0 <= final[i] <= 10 {
      FinalScoreMonotone(raw[i], raw[i], most);
    }
    forall i, j | 0 <= i < |nodes| && 0 <= j < |nodes| && NodeNoFreer(nodes[i], nodes[j])
      ensures final[i] <= final[j]
    {
      RawScoreMonotone(nodes[i].capacity, nodes[i].quotaSize, nodes[j].capacity, nodes[j].quotaSize);
      FinalScoreMonotone(raw[i], raw[j], most);
    }
    if k :| 0 <= k < |nodes| && 0 < raw[k] {
      var i :| 0 <= i < |raw| && raw[i] == most;
      FinalScoreMonotone(most, most, most);
      assert final[i] == 10;
    }
  }
}
