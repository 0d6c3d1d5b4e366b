/**
 * The bar chart's input: labels are the table's keys, data its values, both in the
 * table's key order.
 */
module Chart {
  import opened TopicStatistics

  datatype ChartData = ChartData(labels: seq<string>, data: seq<int>)

  /** `Object.keys(topicStats)` and `Object.values(topicStats)`, side by side. */
  function ToChartData(stats: TopicStats): (chart: ChartData)
    requires stats.Valid()
    ensures |chart.labels| == |chart.data| == |stats.count|
    ensures forall tag :: tag in stats.count <==> tag in chart.labels
    ensures forall i :: 0 <= i < |chart.labels| ==>
              chart.labels[i] in stats.count && chart.data[i] == stats.count[chart.labels[i]]
    ensures forall i :: 0 <= i < |chart.data| ==> chart.data[i] >= 1
  {
    KeysCardinality(stats);
    ChartData(stats.keys, seq(|stats.keys|, i requires 0 <= i < |stats.keys| => stats.count[stats.keys[i]]))
  }

  /** A well-formed table lists each of its keys exactly once, so it has as many keys as entries. */
  lemma KeysCardinality(stats: TopicStats)
    requires stats.Valid()
    ensures |stats.keys| == |stats.count|
  {
    DistinctCardinality(stats.keys);
    assert stats.count.Keys == set k | k in stats.keys;
  }

  /** A list without repetitions has as many elements as the set of its elements. */
  lemma {:induction false} DistinctCardinality(s: seq<string>)
    requires Distinct(s)
    ensures |set k | k in s| == |s|
  {
    if s != [] {
      var init, last := s[..|s| - 1], s[|s| - 1];
      DistinctInit(s);
      DistinctCardinality(init);
      assert s == init + [last];
      assert (set k | k in s) == (set k | k in init) + {last};
    }
  }

  lemma DistinctInit(s: seq<string>)
    requires Distinct(s) && s != []
    ensures Distinct(s[..|s| - 1]) && s[|s| - 1] !in s[..|s| - 1]
  {
  }

  /** `Object.keys(topicStats).length > 0`: the statistics section is rendered. */
  predicate ShowsChart(stats: TopicStats) {
    |stats.keys| > 0
  }

  /** The statistics section is rendered exactly when the table has an entry. */
  lemma ShowsChartIffEntries(stats: TopicStats)
    requires stats.Valid()
    ensures ShowsChart(stats) <==> exists tag :: tag in stats.count
  {
    if |stats.keys| > 0 {
      assert stats.keys[0] in stats.count;
    }
  }

  /**
   * The chart of a query's histogram is shown exactly when some accepted submission
   * has at least one tag, and its labels follow the order in which tags were first met.
   */
  lemma HistogramChart(subs: seq<Submission>)
    ensures Histogram(subs).Valid()
    ensures ShowsChart(Histogram(subs)) <==> |AcceptedTags(subs)| > 0
    ensures forall tag :: tag in ToChartData(Histogram(subs)).labels <==> tag in AcceptedTags(subs)
    ensures InFirstOccurrenceOrder(ToChartData(Histogram(subs)).labels, AcceptedTags(subs))
  {
    var tags := AcceptedTags(subs);
    TallyCounts(tags);
    TallyKeyOrder(tags);
    if |tags| > 0 {
      assert tags[0] in Tally(tags).count;
    }
  }

  /** The empty table shows no chart. */
  lemma EmptyShowsNoChart()
    ensures !ShowsChart(Empty)
    ensures ToChartData(Empty) == ChartData([], [])
  {
  }
}
