# Codeforces rating predictor: the query logic of the home page

The home page (`app/page.tsx`) asks for a Codeforces handle, fetches the user's
profile and submission list, shows the profile with a "predicted" next rating
(the current rating plus a random offset), and draws a bar chart of how often each
tag occurs on the problems of accepted submissions. This project models the page's
logic in Dafny and proves what it computes:

- `TopicStatistics` (`topic_stats.dfy`): submissions, the tag table the page builds
  (a plain object used as a dictionary, modelled as its keys in insertion order plus
  a map from tag to count), and the fold over the submissions with its nested loops.
  Specification functions `Tally` (increment each tag in turn) and `AcceptedTags`
  (the accepted submissions' tags, flattened) define what the fold must return; the
  lemmas relate that to counts, keys, totals and key order.
- `Rating` (`rating.dfy`): `Math.floor(Math.random() * 100) - 50` with the draw as
  an integer parameter in [0, 100), and the prediction `rating + offset`.
- `Chart` (`chart.dfy`): the chart's `labels`/`data` projection of the table and
  the condition under which the chart is shown.
- `HomePage` (`home.dfy`): the class `Home` holding the page's five state
  variables, with the query handler `FetchUserData`, the prediction setter and the
  submission handler as methods. The outcomes of the two HTTP calls are
  parameters: `None` stands for a failed call.
- `Wrappers` (`wrappers.dfy`): the `Option` type.

Points where the code behaves differently from what one might expect, and which the model follows:

- Only the empty username is rejected (`!username`); a username of spaces passes
  validation and goes to the profile call.
- A tag listed twice on one accepted problem is counted twice: the count of a tag is
  the number of its occurrences across the tag lists of accepted submissions, not
  the number of accepted submissions carrying it. When no problem lists a tag twice,
  as on Codeforces, the two agree (`DistinctTagsCount`).
- The chart's dataset is labelled "Number of Problems Solved" (`app/page.tsx:100`),
  but the fold counts accepted submissions, not distinct problems
  (`app/page.tsx:75-80`): a problem accepted twice adds 2 to each of its tags
  (`HistogramCounts` counts per submission).
- The offset lies in [-50, 49]: the prediction is at most `rating + 49`, although
  the explanatory page describes the offset as "between -50 and +50".

## Model

| member | source | states |
|---|---|---|
| TopicStatistics.CollectTopicStats | app/page.tsx:74-84 | the table built by the fold is the specification `Histogram(subs)`, is well formed, has as keys exactly the tags of accepted submissions, and stores for each key its number of occurrences among those tags |
| TopicStatistics.AddTags | app/page.tsx:77-80 | walking one submission's tags and incrementing each entry yields the table of the tags seen so far followed by these tags |
| TopicStatistics.IncrementValid | app/page.tsx:79 | one default-to-zero increment of a tag keeps the table well formed, keeps the existing keys in their order (a new key is appended), raises the tag's count by one and leaves every other tag's count as it was |
| TopicStatistics.Lookup | app/page.tsx:79 | the default-to-zero lookup of line 79 is 0 for an absent tag and the stored count for a present, positive one |
| TopicStatistics.TallyCounts | app/page.tsx:74-82 | incrementing from `{}` gives a well-formed table whose keys are exactly the tags fed in, each with its number of occurrences (so at least 1) |
| TopicStatistics.HistogramCounts | app/page.tsx:74-82 | a tag is a key of the histogram exactly when some submission with verdict "OK" has it among its problem's tags; its count is its number of occurrences across accepted submissions' tag lists |
| TopicStatistics.DistinctTagsCount | app/page.tsx:74-82 | when no problem's tag list repeats a tag, the histogram's lookup of a tag (0 when absent) and its occurrence count both equal the number of accepted submissions whose problem carries it |
| TopicStatistics.RejectedSubmissionIgnored | app/page.tsx:76 | inserting a submission whose verdict is not "OK" anywhere in the list leaves the histogram unchanged |
| TopicStatistics.TallyTotal | app/page.tsx:75-82 | the counts of the table sum to the number of tags fed to it |
| TopicStatistics.HistogramTotal | app/page.tsx:75-82 | the histogram's counts sum to the total length of the tag lists of accepted submissions |
| TopicStatistics.TallyKeyOrder | app/page.tsx:74-82 | the table's keys are listed in the order of each tag's first occurrence among the tags fed to it |
| TopicStatistics.AcceptedTagsAppend | app/page.tsx:75-76 | the accepted tags of two concatenated submission lists are the concatenation of their accepted tags |
| TopicStatistics.AcceptedOnlyExample | app/page.tsx:74-82 | an accepted submission tagged dp, graphs and a wrong answer tagged dp give `{dp: 1, graphs: 1}` |
| Rating.RandomFactor | app/page.tsx:91 | for a draw in [0, 100) the offset lies in [-50, 49] |
| Rating.PredictedRating | app/page.tsx:91-92 | the prediction lies in [rating - 50, rating + 49] and is never rating + 50 |
| Rating.EveryValueInRangeIsPredicted | app/page.tsx:91-92 | every value in [rating - 50, rating + 49] is the prediction for one draw, and for only that one |
| Rating.PredictionExtremes | app/page.tsx:91-92 | draw 0 gives rating - 50 and draw 99 gives rating + 49 |
| Chart.ToChartData | app/page.tsx:96-105 | labels and data have as many entries as the table; each label is a key, each key a label, and `data[i]` is the count stored under `labels[i]`, at least 1 |
| Chart.KeysCardinality | app/page.tsx:97 | a well-formed table has as many listed keys as entries |
| Chart.HistogramChart | app/page.tsx:97-101 | the chart of a histogram is shown exactly when accepted submissions carry at least one tag; its labels are exactly those tags, in first-occurrence order |
| Chart.ShowsChart | app/page.tsx:154 | the statistics section is rendered when the table lists a key; ShowsChartIffEntries, HistogramChart, EmptyShowsNoChart and Home.ChartOfPage state when that holds |
| Chart.ShowsChartIffEntries | app/page.tsx:154 | for a well-formed table, the section is rendered exactly when the table has an entry |
| Chart.EmptyShowsNoChart | app/page.tsx:154 | the cleared table `{}` shows no chart and projects to empty labels and data |
| HomePage.Home.constructor | app/page.tsx:37-41 | the initial state: empty username, no profile, empty table, no prediction, no error |
| HomePage.Home.SetUsername | app/page.tsx:118 | the input handler changes the username and nothing else, keeping the page invariant |
| HomePage.Home.PredictNextRating | app/page.tsx:90-94 | stores `Some(PredictedRating(rating, draw))` and changes nothing else |
| HomePage.Home.FetchUserSubmissionData | app/page.tsx:67-88 | a fetched list replaces the table by its histogram; a failed fetch changes neither the table nor the error |
| HomePage.Home.FetchUserData | app/page.tsx:43-65 | results are cleared first; the empty username gives the validation message and nothing else; a failed profile call gives the fetch message, no profile, no prediction, empty table; otherwise no error, the profile, the prediction for the draw, and the histogram or `{}` if the submission call failed; the page invariant holds afterwards |
| HomePage.Home.ChartOfPage | app/page.tsx:96-105 | the chart of the page's own table: labels and data of the table's size, `data[i]` the count under `labels[i]`, shown exactly when there is a label, and empty whenever an error message is shown, when each query completes before the next (see Left out) |
| HomePage.QueryForgetsEarlierQueries | app/page.tsx:43-47 | a query leaves the page in the same state whether or not another query, for any username and with any outcomes, ran before it on the same page, when each query completes before the next (see Left out) |

## Left out

- The HTTP GETs and the URLs built from the username (`app/page.tsx:55-57, 69-71`) are network I/O: their outcomes are parameters of `FetchUserData`, `None` for any failure. A profile response with an empty result list fails in the source when `userInfo.rating` is read, after `userData` was set to `undefined`; the model treats it as a failed profile call with no profile shown.
- Unrated users, whose profile has no `rating` field, get `NaN` as prediction in the source; the model's `UserData.rating` is always an integer.
- `Math.random` is replaced by the integer draw `Math.floor(Math.random() * 100)`; its distribution is not modelled.
- Async ordering and React state batching: the submission call is not awaited in the source (`app/page.tsx:61`), and overlapping queries can interleave, so an earlier query's late table update (`app/page.tsx:84`) can land after a later query cleared the page or set an error. The model runs one query to completion, the submission outcome last; `Home.ChartOfPage` and `QueryForgetsEarlierQueries` hold under that sequential reading only.
- The inner `tags.forEach` callback is the method `AddTags`, called from the loop over submissions, rather than a loop nested inside `CollectTopicStats`.
- The table is a plain dictionary: tags that name properties of `Object.prototype` (such as `constructor`) and the rule that integer-like keys are enumerated first by `Object.keys` are not modelled; keys keep insertion order. Codeforces tags are neither.
- JavaScript numbers are doubles; the model uses unbounded integers for ratings and counts.
- `console.error`, Chart.js registration and rendering, the JSX layout, styling and the per-topic YouTube/Codeforces links (`app/page.tsx:107-205`) are presentation.
- `app/how/page.tsx` is a static explanation whose code appears only as text, and `app/components/Header.tsx` is markup; neither holds logic.
