/**
 * The page's state and its query handler. The two remote calls are not made here:
 * their outcomes are parameters (`None` for a failed call), and so is the random draw.
 */
module HomePage {
  import opened Wrappers
  import opened TopicStatistics
  import opened Rating
  import opened Chart

  /** The profile fields the page shows. */
  datatype UserData = UserData(handle: string, rating: int, maxRating: int, rank: string, maxRank: string)

  const InvalidUsernameMessage: string := "Please enter a valid Codeforces username."
  const FetchFailedMessage: string := "Failed to fetch user data. Please check the username."

  /** The five state variables of the page: input, profile, histogram, prediction, error. */
  class Home {
    var username: string
    var userData: Option<UserData>
    var topicStats: TopicStats
    var predictedRating: Option<int>
    var error: string

    /**
     * The table is well formed; a profile is shown exactly when a prediction is, and
     * the prediction lies within [rating - 50, rating + 49]; an error message comes
     * with no profile, no prediction and an empty table.
     */
    ghost predicate Valid()
      reads this
    {
      && topicStats.Valid()
      && (userData.Some? <==> predictedRating.Some?)
      && (predictedRating.Some? ==>
            userData.value.rating - 50 <= predictedRating.value <= userData.value.rating + 49)
      && (error != "" ==> userData.None? && predictedRating.None? && topicStats == Empty)
    }

    /** The initial state: every `useState` default. */
    constructor ()
      ensures Valid()
      ensures username == "" && userData == None && topicStats == Empty
      ensures predictedRating == None && error == ""
    {
      username := "";
      userData := None;
      topicStats := Empty;
      predictedRating := None;
      error := "";
    }

    /**
     * `chartData` of the render: the projection of the page's own table. Labels and
     * data correspond index by index; the chart section is rendered exactly when there
     * is a label, and never while an error message is shown (queries run one at a time
     * here; a late submission response of an earlier query is not modelled).
     */
    function ChartOfPage(): (chart: ChartData)
      reads this
      requires Valid()
      ensures |chart.labels| == |chart.data| == |topicStats.count|
      ensures forall i :: 0 <= i < |chart.labels| ==>
                chart.labels[i] in topicStats.count && chart.data[i] == topicStats.count[chart.labels[i]]
      ensures ShowsChart(topicStats) <==> |chart.labels| > 0
      ensures error != "" ==> chart == ChartData([], []) && !ShowsChart(topicStats)
    {
      ToChartData(topicStats)
    }

    /** The input's change handler: only the username changes. */
    method SetUsername(name: string)
      requires Valid()
      modifies this`username
      ensures Valid()
      ensures username == name
    {
      username := name;
    }

    /** Stores `currentRating + randomFactor` as the prediction. */
    method PredictNextRating(currentRating: int, draw: int)
      requires IsDraw(draw)
      modifies this`predictedRating
      ensures predictedRating == Some(PredictedRating(currentRating, draw))
    {
      var randomFactor := RandomFactor(draw);
      predictedRating := Some(currentRating + randomFactor);
    }

    /**
     * Rebuilds the histogram from a fetched submission list; a failed fetch is only
     * logged, so the table and the error message are left as they were.
     */
    method FetchUserSubmissionData(submissions: Option<seq<Submission>>)
      modifies this`topicStats
      ensures submissions.Some? ==> topicStats == Histogram(submissions.value)
      ensures submissions.None? ==> topicStats == old(topicStats)
    {
      match submissions
      case Some(subs) =>
        var stats := CollectTopicStats(subs);
        topicStats := stats;
      case None =>
    }

    /**
     * The query: clear the results, reject an empty username, then store the profile,
     * the prediction and the histogram, or the fetch error when the profile call failed.
     */
    method FetchUserData(profile: Option<UserData>, draw: int, submissions: Option<seq<Submission>>)
      requires IsDraw(draw)
      modifies this`userData, this`topicStats, this`predictedRating, this`error
      ensures Valid()
      ensures error == InvalidUsernameMessage <==> username == ""
      ensures error == FetchFailedMessage <==> username != "" && profile.None?
      ensures error == "" <==> username != "" && profile.Some?
      ensures username == "" || profile.None? ==>
                userData == None && predictedRating == None && topicStats == Empty
      ensures username != "" && profile.Some? ==>
                && userData == profile
                && predictedRating == Some(PredictedRating(profile.value.rating, draw))
                && topicStats == (if submissions.Some? then Histogram(submissions.value) else Empty)
    {
      error := "";
      userData := None;
      predictedRating := None;
      topicStats := Empty;

      if username == "" {
        error := InvalidUsernameMessage;
        return;
      }

      match profile
      case None =>
        error := FetchFailedMessage;
      case Some(userInfo) =>
        userData := Some(userInfo);
        PredictNextRating(userInfo.rating, draw);
        FetchUserSubmissionData(submissions);
        if submissions.Some? {
          HistogramCounts(submissions.value);
        }
    }
  }

  /** What the page shows after a query. */
  datatype Shown = Shown(userData: Option<UserData>, predictedRating: Option<int>, topicStats: TopicStats, error: string)

  /**
   * Results are replaced, never merged: a query answered with the same outcomes
   * leaves the page in the same state whatever an earlier query, for whatever
   * username, left behind, provided the earlier query completed first.
   */
  method QueryForgetsEarlierQueries(
    earlierName: string, name: string,
    earlierProfile: Option<UserData>, earlierDraw: int, earlierSubmissions: Option<seq<Submission>>,
    profile: Option<UserData>, draw: int, submissions: Option<seq<Submission>>)
    returns (afterEarlier: Shown, onFreshPage: Shown)
    requires IsDraw(earlierDraw) && IsDraw(draw)
    ensures afterEarlier == onFreshPage
    ensures name == "" ==> onFreshPage.error == InvalidUsernameMessage
  {
    var reused := new Home();
    reused.SetUsername(earlierName);
    reused.FetchUserData(earlierProfile, earlierDraw, earlierSubmissions);
    reused.SetUsername(name);
    reused.FetchUserData(profile, draw, submissions);
    afterEarlier := Shown(reused.userData, reused.predictedRating, reused.topicStats, reused.error);

    var page := new Home();
    page.SetUsername(name);
    page.FetchUserData(profile, draw, submissions);
    onFreshPage := Shown(page.userData, page.predictedRating, page.topicStats, page.error);
  }
}
