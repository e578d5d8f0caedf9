/** The dashboard's aggregates over the stored enrollment list: counts,
    the proportional refund total, the average score, the pie-chart split and
    the recent-activity feed. */
module Dashboard {
  import opened Nullable
  import opened EnrolledCourses
  import Rounding

  /** `course.price || 0`. */
  function PriceOrZero(r: Record): real {
    r.price.GetOr(0.0)
  }

  /** `(score / 100) * price`: the refund for one score and price. */
  function Refund(score: int, price: real): (amount: real)
    ensures 0 <= score <= 100 && price >= 0.0 ==> 0.0 <= amount <= price
    ensures score == 0 ==> amount == 0.0
    ensures score == 100 ==> amount == price
  {
    PercentOf(score, price);
    score as real / 100.0 * price
  }

  /** A percentage in [0, 100] of a non-negative price lies between 0 and the price. */
  lemma PercentOf(score: int, price: real)
    ensures 0 <= score <= 100 && price >= 0.0 ==> 0.0 <= score as real / 100.0 * price <= price
  {
    if 0 <= score <= 100 && price > 0.0 {
      var f := score as real / 100.0;
      assert 0.0 <= f <= 1.0;
      Rounding.ScaleWeak(0.0, f, price);
      Rounding.ScaleWeak(f, 1.0, price);
    }
  }

  /** A larger score never gives a smaller refund on the same non-negative price. */
  lemma RefundMonotone(s1: int, s2: int, price: real)
    requires s1 <= s2 && price >= 0.0
    ensures Refund(s1, price) <= Refund(s2, price)
  {
    assert Refund(s2, price) - Refund(s1, price) == (s2 - s1) as real * price / 100.0;
  }

  /** The worked refund calculation: 85% of 100 is 85 back, 15 paid. */
  lemma RefundExampleSingle()
    ensures Refund(85, 100.0) == 85.0 && 100.0 - Refund(85, 100.0) == 15.0
  {
  }

  /** The worked tiers on a price of 200: 70%, 85% and 95% give 140, 170 and
      190 back, the last leaving 10 to pay. */
  lemma RefundExampleTiers()
    ensures Refund(70, 200.0) == 140.0
    ensures Refund(85, 200.0) == 170.0
    ensures Refund(95, 200.0) == 190.0 && 200.0 - Refund(95, 200.0) == 10.0
  {
  }

  /** A record that feeds the refund total and the average. */
  predicate IsScored(r: Record) {
    r.hasTakenTest && r.testScore.Some?
  }

  /** `filter(course => course.hasTakenTest).length`. */
  function Completed(list: seq<Record>): (n: nat)
    ensures n <= |list|
  {
    if |list| == 0 then 0
    else (if list[0].hasTakenTest then 1 else 0) + Completed(list[1..])
  }

  function TotalRefund(list: seq<Record>): real
  {
    if |list| == 0 then 0.0
    else
      var r := list[0];
      (if IsScored(r) then Refund(r.testScore.value, PriceOrZero(r)) else 0.0) + TotalRefund(list[1..])
  }

  function ScoreSum(list: seq<Record>): int
  {
    if |list| == 0 then 0
    else (if IsScored(list[0]) then list[0].testScore.value else 0) + ScoreSum(list[1..])
  }

  function TestsTaken(list: seq<Record>): (n: nat)
    ensures n <= Completed(list)
  {
    if |list| == 0 then 0
    else (if IsScored(list[0]) then 1 else 0) + TestsTaken(list[1..])
  }

  /** The sum of the prices of the scored records, missing prices counting 0. */
  function ScoredPriceSum(list: seq<Record>): real
  {
    if |list| == 0 then 0.0
    else (if IsScored(list[0]) then PriceOrZero(list[0]) else 0.0) + ScoredPriceSum(list[1..])
  }

  /** Scores within [0, 100] and no negative price. */
  predicate Sane(list: seq<Record>) {
    && ScoresInRange(list)
    && forall i :: 0 <= i < |list| ==> PriceOrZero(list[i]) >= 0.0
  }

  /** Every stored score is a percentage. */
  predicate ScoresInRange(list: seq<Record>) {
    forall i :: 0 <= i < |list| ==> list[i].testScore.Some? ==> 0 <= list[i].testScore.value <= 100
  }

  /** On sane data the refund total lies between 0 and the scored prices' sum. */
  lemma {:induction false} TotalRefundBounds(list: seq<Record>)
    requires Sane(list)
    ensures 0.0 <= TotalRefund(list) <= ScoredPriceSum(list)
  {
    if |list| > 0 {
      assert Sane(list[1..]) by {
        assert forall i :: 1 <= i < |list| ==> list[i] == list[1..][i - 1];
      }
      TotalRefundBounds(list[1..]);
    }
  }

  /** On sane data the score sum lies between 0 and 100 per scored record. */
  lemma {:induction false} ScoreSumBounds(list: seq<Record>)
    requires ScoresInRange(list)
    ensures 0 <= ScoreSum(list) <= 100 * TestsTaken(list)
  {
    if |list| > 0 {
      assert ScoresInRange(list[1..]) by {
        assert forall i :: 1 <= i < |list| ==> list[i] == list[1..][i - 1];
      }
      ScoreSumBounds(list[1..]);
    }
  }

  /** Each aggregate of a concatenation is the combination of the parts'. */
  lemma {:induction false} AggregatesAppend(a: seq<Record>, b: seq<Record>)
    ensures Completed(a + b) == Completed(a) + Completed(b)
    ensures TotalRefund(a + b) == TotalRefund(a) + TotalRefund(b)
    ensures ScoreSum(a + b) == ScoreSum(a) + ScoreSum(b)
    ensures TestsTaken(a + b) == TestsTaken(a) + TestsTaken(b)
  {
    if |a| == 0 {
      assert a + b == b;
    } else {
      assert (a + b)[1..] == a[1..] + b;
      AggregatesAppend(a[1..], b);
    }
  }

  /** A taken test with a `null` score counts as completed but adds nothing to
      the refund, the score sum or the number of tests averaged. */
  lemma NullScoreCountsOnlyAsCompleted(list: seq<Record>, r: Record)
    requires r.hasTakenTest && r.testScore.None?
    ensures Completed(list + [r]) == Completed(list) + 1
    ensures TotalRefund(list + [r]) == TotalRefund(list)
    ensures ScoreSum(list + [r]) == ScoreSum(list)
    ensures TestsTaken(list + [r]) == TestsTaken(list)
  {
    AggregatesAppend(list, [r]);
    assert [r][1..] == [];
  }

  /** `testsTaken > 0 ? Math.round(totalScoreSum / testsTaken) : 0`. */
  function Average(sum: int, taken: nat): int
  {
    if taken > 0 then Rounding.Round(sum as real / taken as real) else 0
  }

  /** The average stays within [0, 100] when every score does. */
  lemma AverageBounds(list: seq<Record>)
    requires ScoresInRange(list)
    ensures 0 <= Average(ScoreSum(list), TestsTaken(list)) <= 100
  {
    ScoreSumBounds(list);
    var s := ScoreSum(list);
    var n := TestsTaken(list);
    if n > 0 {
      Rounding.RoundRatio(s, n);
      assert 0 <= (2 * s + n) / (2 * n) <= 100 by {
        assert 2 * s + n < 2 * n * 101;
        assert 2 * s + n >= 0;
        DivBelow(2 * s + n, 2 * n, 101);
      }
    }
  }

  lemma SaneBounds(list: seq<Record>)
    ensures Sane(list) ==> 0.0 <= TotalRefund(list) <= ScoredPriceSum(list)
    ensures Sane(list) ==> 0 <= Average(ScoreSum(list), TestsTaken(list)) <= 100
  {
    if Sane(list) {
      TotalRefundBounds(list);
      AverageBounds(list);
    }
  }

  lemma DivBelow(a: int, b: int, k: int)
    requires 0 <= a < b * k && b > 0
    ensures 0 <= a / b < k
  {
  }

  /** One entry of the recent-activity feed. */
  datatype Activity =
    | TestCompleted(course: string, score: Option<int>)
    | EnrolledIn(course: string)
    | RefundProcessed(course: string, amount: real)

  /** The refund line's amount: `null / 100` is 0 in JavaScript. */
  function ActivityRefund(r: Record): real {
    Refund(r.testScore.GetOr(0), PriceOrZero(r))
  }

  function Completions(list: seq<Record>): (a: seq<Activity>)
    ensures forall i :: 0 <= i < |a| ==> a[i].TestCompleted?
    ensures |a| == Completed(list)
  {
    if |list| == 0 then []
    else (if list[0].hasTakenTest then [TestCompleted(list[0].title, list[0].testScore)] else [])
         + Completions(list[1..])
  }

  function Enrollments(list: seq<Record>): (a: seq<Activity>)
    ensures forall i :: 0 <= i < |a| ==> a[i].EnrolledIn?
    ensures |a| == |list|
    ensures forall i :: 0 <= i < |a| ==> a[i].course == list[i].title
  {
    if |list| == 0 then []
    else [EnrolledIn(list[0].title)] + Enrollments(list[1..])
  }

  function Refunds(list: seq<Record>): (a: seq<Activity>)
    ensures forall i :: 0 <= i < |a| ==> a[i].RefundProcessed?
    ensures |a| == Completed(list)
  {
    if |list| == 0 then []
    else (if list[0].hasTakenTest then [RefundProcessed(list[0].title, ActivityRefund(list[0]))] else [])
         + Refunds(list[1..])
  }

  /** The completion and refund entries of a concatenation are the parts'
      entries, in order. */
  lemma {:induction false} ActivitiesAppend(a: seq<Record>, b: seq<Record>)
    ensures Completions(a + b) == Completions(a) + Completions(b)
    ensures Refunds(a + b) == Refunds(a) + Refunds(b)
    decreases |a|
  {
    if |a| == 0 {
      assert a + b == b;
    } else {
      assert (a + b)[1..] == a[1..] + b;
      ActivitiesAppend(a[1..], b);
    }
  }

  /** A record with a taken test contributes one completion entry with its
      title and score and one refund entry with its title and score% of its
      price, a null score refunding 0; any other record contributes neither. */
  lemma ActivitiesSingle(r: Record)
    ensures r.hasTakenTest ==> Completions([r]) == [TestCompleted(r.title, r.testScore)]
    ensures r.hasTakenTest ==>
              Refunds([r]) == [RefundProcessed(r.title, Refund(r.testScore.GetOr(0), PriceOrZero(r)))]
    ensures r.hasTakenTest && r.testScore.None? ==> Refunds([r])[0].amount == 0.0
    ensures !r.hasTakenTest ==> Completions([r]) == [] && Refunds([r]) == []
  {
    assert [r][1..] == [];
  }

  /** Test completions sort before enrollments, enrollments before refunds. */
  function Rank(a: Activity): nat {
    match a
    case TestCompleted(_, _) => 0
    case EnrolledIn(_) => 1
    case RefundProcessed(_, _) => 2
  }

  const FeedLimit := 5

  /** `[...testCompletions, ...enrollments, ...refunds].slice(0, 5)`. */
  function Feed(list: seq<Record>): (feed: seq<Activity>)
    ensures |feed| <= FeedLimit
    ensures |feed| == if 2 * Completed(list) + |list| < FeedLimit then 2 * Completed(list) + |list| else FeedLimit
    ensures feed <= Completions(list) + Enrollments(list) + Refunds(list)
    ensures forall i, j :: 0 <= i < j < |feed| ==> Rank(feed[i]) <= Rank(feed[j])
  {
    var all := Completions(list) + Enrollments(list) + Refunds(list);
    var n := if |all| < FeedLimit then |all| else FeedLimit;
    all[..n]
  }

  /** The pie chart's two slices. */
  datatype Slice = Slice(name: string, value: int)

  /** Everything `loadDashboardData` sets. */
  datatype Metrics = Metrics(
    enrolled: nat,
    completed: nat,
    totalRefund: real,
    averageScore: int,
    chart: seq<Slice>,
    activity: seq<Activity>)

  const Empty := Metrics(0, 0, 0.0, 0, [Slice("Completed", 0), Slice("In Progress", 0)], [])

  function Load(store: Store): (m: Metrics)
    // nothing stored shows zeros everywhere and an empty feed
    ensures store.None? ==> m == Empty
    ensures store.Some? ==> m.enrolled == |store.value|
    ensures m.completed <= m.enrolled
    // the chart splits the enrolled courses into two non-negative parts
    ensures |m.chart| == 2 && m.chart[0].value == m.completed
    ensures m.chart[1].value == m.enrolled - m.completed >= 0
    ensures |m.activity| <= FeedLimit
    ensures store.Some? && Sane(store.value) ==> 0.0 <= m.totalRefund <= ScoredPriceSum(store.value)
    ensures store.Some? && Sane(store.value) ==> 0 <= m.averageScore <= 100
    // what is shown is the page's own aggregates of the stored list
    ensures store.Some? ==>
              && m.completed == Completed(store.value)
              && m.totalRefund == TotalRefund(store.value)
              && m.averageScore == Average(ScoreSum(store.value), TestsTaken(store.value))
              && m.activity == Feed(store.value)
  {
    match store
    case None => Empty
    case Some(list) =>
      var enrolled := |list|;
      var completed := Completed(list);
      SaneBounds(list);
      Metrics(enrolled, completed, TotalRefund(list), Average(ScoreSum(list), TestsTaken(list)),
              [Slice("Completed", completed), Slice("In Progress", enrolled - completed)],
              Feed(list))
  }

  /** The empty stored list shows the same zeros as no list at all. */
  lemma EmptyListLikeNoStore()
    ensures Load(Some([])) == Load(None)
  {
  }

  /** The `forEach` accumulation of the page, step by step. */
  method SumScored(list: seq<Record>) returns (refund: real, scoreSum: int, taken: nat)
    ensures refund == TotalRefund(list)
    ensures scoreSum == ScoreSum(list)
    ensures taken == TestsTaken(list)
  {
    refund, scoreSum, taken := 0.0, 0, 0;
    var i := 0;
    while i < |list|
      invariant 0 <= i <= |list|
      invariant refund + TotalRefund(list[i..]) == TotalRefund(list)
      invariant scoreSum + ScoreSum(list[i..]) == ScoreSum(list)
      invariant taken + TestsTaken(list[i..]) == TestsTaken(list)
    {
      var r := list[i];
      assert list[i..][1..] == list[i + 1..];
      if r.hasTakenTest && r.testScore.Some? {
        refund := refund + r.testScore.value as real / 100.0 * PriceOrZero(r);
        scoreSum := scoreSum + r.testScore.value;
        taken := taken + 1;
      }
      i := i + 1;
    }
  }
}
