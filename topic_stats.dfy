/**
 * The topic histogram built from a user's submissions: for every submission whose
 * verdict is "OK", each tag of its problem adds one to that tag's count.
 */
module TopicStatistics {

  /** The verdict Codeforces reports for an accepted submission. */
  const Accepted: string := "OK"

  datatype Problem = Problem(tags: seq<string>)

  datatype Submission = Submission(verdict: string, problem: Problem)

  /**
   * A plain object used as a dictionary from tag to count: its own keys in the
   * order they were first assigned, and the number stored under each.
   */
  datatype TopicStats = TopicStats(keys: seq<string>, count: map<string, int>) {

    /** Keys are listed once each, exactly the stored ones, and every count is positive. */
    ghost predicate Valid() {
      && Distinct(keys)
      && (forall tag :: tag in count <==> tag in keys)
      && (forall tag :: tag in count ==> count[tag] >= 1)
    }
  }

  ghost predicate Distinct(s: seq<string>) {
    forall i, j :: 0 <= i < j < |s| ==> s[i] != s[j]
  }

  /** The object literal `{}`. */
  const Empty: TopicStats := TopicStats([], map[])

  /** `stats[tag] || 0`: the stored count, or 0 when the key is absent or holds a falsy 0. */
  function Lookup(count: map<string, int>, tag: string): (n: int)
    ensures tag !in count ==> n == 0
    ensures tag in count && count[tag] >= 1 ==> n == count[tag]
  {
    if tag in count && count[tag] != 0 then count[tag] else 0
  }

  /**
   * `stats[tag] = (stats[tag] || 0) + 1`: assigning an existing key keeps its place,
   * a new key is appended to the key order.
   */
  function Increment(stats: TopicStats, tag: string): TopicStats {
    TopicStats(if tag in stats.count then stats.keys else stats.keys + [tag],
               stats.count[tag := Lookup(stats.count, tag) + 1])
  }

  /** The table obtained by incrementing each tag of `tags` in turn, starting from `{}`. */
  function Tally(tags: seq<string>): TopicStats {
    if tags == [] then Empty
    else Increment(Tally(tags[..|tags| - 1]), tags[|tags| - 1])
  }

  /**
   * One increment keeps the table well formed, keeps the existing keys in their order,
   * raises the tag's count by one and touches no other tag.
   */
  lemma IncrementValid(stats: TopicStats, tag: string)
    requires stats.Valid()
    ensures Increment(stats, tag).Valid()
    ensures stats.keys <= Increment(stats, tag).keys
    ensures tag in Increment(stats, tag).count
    ensures Increment(stats, tag).count[tag] == (if tag in stats.count then stats.count[tag] else 0) + 1
    ensures forall t :: t != tag ==> Lookup(Increment(stats, tag).count, t) == Lookup(stats.count, t)
  {
  }

  /** The tags a submission contributes: its problem's tags if accepted, none otherwise. */
  function TagsIfAccepted(s: Submission): seq<string> {
    if s.verdict == Accepted then s.problem.tags else []
  }

  /** All tags of accepted submissions, in submission order, repetitions included. */
  function AcceptedTags(subs: seq<Submission>): seq<string> {
    if subs == [] then []
    else AcceptedTags(subs[..|subs| - 1]) + TagsIfAccepted(subs[|subs| - 1])
  }

  /** The histogram the page derives from a list of submissions. */
  function Histogram(subs: seq<Submission>): TopicStats
  {
    Tally(AcceptedTags(subs))
  }

  lemma TallySnoc(tags: seq<string>, tag: string)
    ensures Tally(tags + [tag]) == Increment(Tally(tags), tag)
  {
    assert (tags + [tag])[..|tags|] == tags;
  }

  lemma AcceptedTagsSnoc(subs: seq<Submission>, s: Submission)
    ensures AcceptedTags(subs + [s]) == AcceptedTags(subs) + TagsIfAccepted(s)
  {
    assert (subs + [s])[..|subs|] == subs;
  }

  /**
   * The inner `tags.forEach` of `fetchUserSubmissionData`, over one accepted submission's tags: each tag's
   * entry goes up by one. `done` is what the table has been built from so far.
   */
  method AddTags(stats0: TopicStats, ghost done: seq<string>, tags: seq<string>) returns (stats: TopicStats)
    requires stats0 == Tally(done)
    ensures stats == Tally(done + tags)
  {
    stats := stats0;
    ghost var seen := done;
    var j := 0;
    while j < |tags|
      invariant 0 <= j <= |tags|
      invariant seen == done + tags[..j]
      invariant stats == Tally(seen)
    {
      var tag := tags[j];
      ghost var before := stats;
      if tag !in stats.count {
        stats := stats.(keys := stats.keys + [tag]);
      }
      stats := stats.(count := stats.count[tag := Lookup(stats.count, tag) + 1]);
      assert stats == Increment(before, tag);
      TallySnoc(seen, tag);
      assert tags[..j + 1] == tags[..j] + [tag];
      seen := seen + [tag];
      j := j + 1;
    }
    assert tags[..j] == tags;
  }

  /**
   * The fold in `fetchUserSubmissionData`: start from `{}`, walk the submissions, and for each
   * accepted one add its problem's tags.
   */
  method CollectTopicStats(subs: seq<Submission>) returns (stats: TopicStats)
    ensures stats == Histogram(subs)
    ensures stats.Valid()
    ensures forall tag :: tag in stats.count <==> tag in AcceptedTags(subs)
    ensures forall tag :: tag in stats.count ==> stats.count[tag] == multiset(AcceptedTags(subs))[tag]
  {
    stats := Empty;
    var i := 0;
    while i < |subs|
      invariant 0 <= i <= |subs|
      invariant stats == Tally(AcceptedTags(subs[..i]))
    {
      var submission := subs[i];
      assert subs[..i + 1] == subs[..i] + [submission];
      AcceptedTagsSnoc(subs[..i], submission);
      if submission.verdict == Accepted {
        stats := AddTags(stats, AcceptedTags(subs[..i]), submission.problem.tags);
        assert AcceptedTags(subs[..i + 1]) == AcceptedTags(subs[..i]) + submission.problem.tags;
      } else {
        assert AcceptedTags(subs[..i]) + [] == AcceptedTags(subs[..i]);
        assert AcceptedTags(subs[..i + 1]) == AcceptedTags(subs[..i]);
      }
      i := i + 1;
    }
    assert subs[..i] == subs;
    TallyCounts(AcceptedTags(subs));
  }

  /**
   * The count stored for a tag is the number of times it occurs in the tags fed to
   * the fold, and exactly the occurring tags are stored.
   */
  lemma {:induction false} TallyCounts(tags: seq<string>)
    ensures Tally(tags).Valid()
    ensures forall tag :: tag in Tally(tags).count <==> tag in tags
    ensures forall tag :: tag in Tally(tags).count ==> Tally(tags).count[tag] == multiset(tags)[tag]
  {
    if tags != [] {
      var init, last := tags[..|tags| - 1], tags[|tags| - 1];
      assert tags == init + [last];
      TallyCounts(init);
      TallySnoc(init, last);
      IncrementValid(Tally(init), last);
      assert multiset(tags) == multiset(init) + multiset{last};
    }
  }

  /** Splitting the submission list splits the accepted tags the same way. */
  lemma {:induction false} AcceptedTagsAppend(a: seq<Submission>, b: seq<Submission>)
    ensures AcceptedTags(a + b) == AcceptedTags(a) + AcceptedTags(b)
  {
    if b == [] {
      assert a + b == a;
      assert AcceptedTags(b) == [];
      assert AcceptedTags(a) + [] == AcceptedTags(a);
    } else {
      var init, last := b[..|b| - 1], b[|b| - 1];
      assert b == init + [last];
      assert a + b == (a + init) + [last];
      AcceptedTagsAppend(a, init);
      AcceptedTagsSnoc(a + init, last);
      AcceptedTagsSnoc(init, last);
      var x, y, z := AcceptedTags(a), AcceptedTags(init), TagsIfAccepted(last);
      assert AcceptedTags(a + b) == (x + y) + z;
      assert AcceptedTags(b) == y + z;
      assert (x + y) + z == x + (y + z);
    }
  }

  /** A submission whose verdict is not "OK", wherever it stands, leaves the histogram as it is. */
  lemma RejectedSubmissionIgnored(before: seq<Submission>, s: Submission, after: seq<Submission>)
    requires s.verdict != Accepted
    ensures Histogram(before + [s] + after) == Histogram(before + after)
  {
    AcceptedTagsAppend(before + [s], after);
    AcceptedTagsSnoc(before, s);
    AcceptedTagsAppend(before, after);
    assert AcceptedTags(before) + [] == AcceptedTags(before);
  }

  /**
   * The histogram in terms of the submissions: a tag is a key exactly when some
   * accepted submission's problem carries it, and its count is the number of times
   * it occurs across the tag lists of accepted submissions.
   */
  lemma HistogramCounts(subs: seq<Submission>)
    ensures Histogram(subs).Valid()
    ensures forall tag :: tag in Histogram(subs).count <==>
              exists k :: 0 <= k < |subs| && subs[k].verdict == Accepted && tag in subs[k].problem.tags
    ensures forall tag :: tag in Histogram(subs).count ==>
              Histogram(subs).count[tag] == multiset(AcceptedTags(subs))[tag]
  {
    TallyCounts(AcceptedTags(subs));
    forall tag ensures tag in AcceptedTags(subs) <==>
        exists k :: 0 <= k < |subs| && subs[k].verdict == Accepted && tag in subs[k].problem.tags
    {
      AcceptedTagsMembership(subs, tag);
    }
  }

  /** The number of accepted submissions whose problem carries `tag`. */
  function AcceptedCarrying(subs: seq<Submission>, tag: string): nat {
    if subs == [] then 0
    else
      var last := subs[|subs| - 1];
      AcceptedCarrying(subs[..|subs| - 1], tag) +
        (if last.verdict == Accepted && tag in last.problem.tags then 1 else 0)
  }

  /** In a list without repetitions an element occurs once or not at all. */
  lemma {:induction false} DistinctOccurrences(s: seq<string>, x: string)
    requires Distinct(s)
    ensures multiset(s)[x] == if x in s then 1 else 0
  {
    if s != [] {
      var init, last := s[..|s| - 1], s[|s| - 1];
      assert s == init + [last];
      assert Distinct(init);
      DistinctOccurrences(init, x);
      assert last !in init;
      assert multiset(s) == multiset(init) + multiset{last};
    }
  }

  /**
   * When no problem lists a tag twice (as on Codeforces), the count the fold
   * computes for a tag is the number of accepted submissions carrying it.
   */
  lemma DistinctTagsCount(subs: seq<Submission>, tag: string)
    requires forall k :: 0 <= k < |subs| ==> Distinct(subs[k].problem.tags)
    ensures multiset(AcceptedTags(subs))[tag] == AcceptedCarrying(subs, tag)
    ensures Lookup(Histogram(subs).count, tag) == AcceptedCarrying(subs, tag)
  {
    DistinctTagsOccurrences(subs, tag);
    TallyCounts(AcceptedTags(subs));
  }

  lemma {:induction false} DistinctTagsOccurrences(subs: seq<Submission>, tag: string)
    requires forall s :: s in subs ==> Distinct(s.problem.tags)
    ensures multiset(AcceptedTags(subs))[tag] == AcceptedCarrying(subs, tag)
  {
    if subs != [] {
      var init, last := subs[..|subs| - 1], subs[|subs| - 1];
      assert subs == init + [last];
      assert forall s :: s in init ==> Distinct(s.problem.tags) by {
        forall s | s in init ensures s in subs {
          assert s in init + [last];
        }
      }
      DistinctTagsOccurrences(init, tag);
      OccurrencesSnoc(init, last, tag);
      assert Distinct(last.problem.tags) by {
        assert last in subs;
      }
      ContributionCount(last, tag);
      assert AcceptedCarrying(subs, tag) == AcceptedCarrying(init, tag) +
        (if last.verdict == Accepted && tag in last.problem.tags then 1 else 0);
    }
  }

  lemma OccurrencesSnoc(init: seq<Submission>, last: Submission, tag: string)
    ensures multiset(AcceptedTags(init + [last]))[tag]
            == multiset(AcceptedTags(init))[tag] + multiset(TagsIfAccepted(last))[tag]
  {
    AcceptedTagsSnoc(init, last);
    var before, added := AcceptedTags(init), TagsIfAccepted(last);
    assert multiset(before + added) == multiset(before) + multiset(added);
  }

  lemma ContributionCount(s: Submission, tag: string)
    requires Distinct(s.problem.tags)
    ensures multiset(TagsIfAccepted(s))[tag]
            == if s.verdict == Accepted && tag in s.problem.tags then 1 else 0
  {
    if s.verdict == Accepted {
      DistinctOccurrences(s.problem.tags, tag);
    }
  }

  lemma {:induction false} AcceptedTagsMembership(subs: seq<Submission>, tag: string)
    ensures tag in AcceptedTags(subs) <==>
              exists k :: 0 <= k < |subs| && subs[k].verdict == Accepted && tag in subs[k].problem.tags
  {
    if subs != [] {
      var init, last := subs[..|subs| - 1], subs[|subs| - 1];
      AcceptedTagsMembership(init, tag);
      if tag in AcceptedTags(subs) && tag !in AcceptedTags(init) {
        assert subs[|subs| - 1].verdict == Accepted && tag in subs[|subs| - 1].problem.tags;
      }
      if exists k :: 0 <= k < |subs| && subs[k].verdict == Accepted && tag in subs[k].problem.tags {
        var k :| 0 <= k < |subs| && subs[k].verdict == Accepted && tag in subs[k].problem.tags;
        if k < |init| {
          assert init[k] == subs[k];
        }
      }
    }
  }

  /** The sum of the counts stored under `ks`. */
  function SumOver(ks: seq<string>, count: map<string, int>): int
    requires forall k :: k in ks ==> k in count
  {
    if ks == [] then 0 else SumOver(ks[..|ks| - 1], count) + count[ks[|ks| - 1]]
  }

  lemma {:induction false} SumOverUnrelated(ks: seq<string>, count: map<string, int>, tag: string, n: int)
    requires forall k :: k in ks ==> k in count
    requires tag !in ks
    ensures SumOver(ks, count[tag := n]) == SumOver(ks, count)
  {
    if ks != [] {
      SumOverUnrelated(ks[..|ks| - 1], count, tag, n);
    }
  }

  lemma {:induction false} SumOverBump(ks: seq<string>, count: map<string, int>, tag: string)
    requires forall k :: k in ks ==> k in count
    requires Distinct(ks) && tag in ks
    ensures SumOver(ks, count[tag := count[tag] + 1]) == SumOver(ks, count) + 1
  {
    var init, last := ks[..|ks| - 1], ks[|ks| - 1];
    if last == tag {
      assert tag !in init;
      SumOverUnrelated(init, count, tag, count[tag] + 1);
    } else {
      assert tag in init;
      SumOverBump(init, count, tag);
    }
  }

  /** The sum of all counts equals the number of tags fed to the fold. */
  lemma {:induction false} TallyTotal(tags: seq<string>)
    ensures Tally(tags).Valid()
    ensures SumOver(Tally(tags).keys, Tally(tags).count) == |tags|
  {
    TallyCounts(tags);
    if tags != [] {
      var init, last := tags[..|tags| - 1], tags[|tags| - 1];
      TallyTotal(init);
      TotalStep(Tally(init), last);
    }
  }

  /** One increment adds one to the sum of the counts. */
  lemma TotalStep(before: TopicStats, tag: string)
    requires before.Valid()
    ensures Increment(before, tag).Valid()
    ensures SumOver(Increment(before, tag).keys, Increment(before, tag).count)
            == SumOver(before.keys, before.count) + 1
  {
    IncrementValid(before, tag);
    if tag in before.count {
      assert Lookup(before.count, tag) == before.count[tag];
      SumOverBump(before.keys, before.count, tag);
    } else {
      SumOverUnrelated(before.keys, before.count, tag, 1);
      assert (before.keys + [tag])[..|before.keys|] == before.keys;
    }
  }

  /**
   * The sum of the histogram's counts equals the total length of the tag lists of
   * accepted submissions.
   */
  lemma HistogramTotal(subs: seq<Submission>)
    ensures Histogram(subs).Valid()
    ensures SumOver(Histogram(subs).keys, Histogram(subs).count) == TagCount(subs)
  {
    TallyTotal(AcceptedTags(subs));
    AcceptedTagsLength(subs);
  }

  /** The number of tags, repetitions included, on the problems of accepted submissions. */
  function TagCount(subs: seq<Submission>): nat {
    if subs == [] then 0
    else (if subs[0].verdict == Accepted then |subs[0].problem.tags| else 0) + TagCount(subs[1..])
  }

  lemma {:induction false} AcceptedTagsLength(subs: seq<Submission>)
    ensures |AcceptedTags(subs)| == TagCount(subs)
  {
    if subs != [] {
      AcceptedTagsLength(subs[1..]);
      assert subs == [subs[0]] + subs[1..];
      AcceptedTagsAppend([subs[0]], subs[1..]);
      AcceptedTagsSnoc([], subs[0]);
      assert [] + [subs[0]] == [subs[0]];
    }
  }

  /** The position of the first occurrence of `x` in `s`. */
  function FirstIndex(s: seq<string>, x: string): (k: nat)
    requires x in s
    ensures k < |s| && s[k] == x && x !in s[..k]
  {
    if s[0] == x then 0
    else
      var k := 1 + FirstIndex(s[1..], x);
      assert s[..k] == [s[0]] + s[1..][..k - 1];
      k
  }

  lemma FirstIndexSnoc(s: seq<string>, t: string, x: string)
    requires x in s
    ensures FirstIndex(s + [t], x) == FirstIndex(s, x)
  {
    var k, k' := FirstIndex(s, x), FirstIndex(s + [t], x);
    assert (s + [t])[..k] == s[..k];
    assert (s + [t])[k] == x;
    assert x !in (s + [t])[..k];
  }

  /** Every key occurs in `tags`, and the keys come in the order of their first occurrences. */
  ghost predicate InFirstOccurrenceOrder(keys: seq<string>, tags: seq<string>) {
    && (forall k :: k in keys ==> k in tags)
    && (forall i, j :: 0 <= i < j < |keys| ==> FirstIndex(tags, keys[i]) < FirstIndex(tags, keys[j]))
  }

  /**
   * The table lists its keys in the order in which each tag first occurs in the
   * tags fed to the fold.
   */
  lemma {:induction false} TallyKeyOrder(tags: seq<string>)
    ensures InFirstOccurrenceOrder(Tally(tags).keys, tags)
  {
    if tags != [] {
      var init, last := tags[..|tags| - 1], tags[|tags| - 1];
      assert tags == init + [last];
      TallyKeyOrder(init);
      TallyCounts(init);
      TallySnoc(init, last);
      KeyOrderStep(Tally(init), init, last);
    }
  }

  /** One more tag keeps the key order: old keys keep their first positions, a new key comes last. */
  lemma KeyOrderStep(before: TopicStats, init: seq<string>, last: string)
    requires before.Valid()
    requires forall k :: k in before.count <==> k in init
    requires InFirstOccurrenceOrder(before.keys, init)
    ensures InFirstOccurrenceOrder(Increment(before, last).keys, init + [last])
  {
    if last in before.count {
      KeyOrderExtended(before.keys, init, last);
    } else {
      assert Increment(before, last).keys == before.keys + [last];
      KeyOrderAppended(before.keys, init, last);
    }
  }

  /** Tags added after the last key was first met leave the key order as it was. */
  lemma KeyOrderExtended(keys: seq<string>, init: seq<string>, last: string)
    requires InFirstOccurrenceOrder(keys, init)
    ensures InFirstOccurrenceOrder(keys, init + [last])
  {
    forall k | k in keys ensures FirstIndex(init + [last], k) == FirstIndex(init, k) {
      FirstIndexSnoc(init, last, k);
    }
  }

  /** A tag met for the first time goes after every key already listed. */
  lemma KeyOrderAppended(keys: seq<string>, init: seq<string>, last: string)
    requires InFirstOccurrenceOrder(keys, init)
    requires last !in init
    ensures InFirstOccurrenceOrder(keys + [last], init + [last])
  {
    var tags, after := init + [last], keys + [last];
    KeyOrderExtended(keys, init, last);
    assert FirstIndex(tags, last) == |init|;
    forall i, j | 0 <= i < j < |after|
      ensures FirstIndex(tags, after[i]) < FirstIndex(tags, after[j])
    {
      assert after[i] == keys[i];
      if j < |keys| {
        assert after[j] == keys[j];
      } else {
        assert FirstIndex(tags, keys[i]) == FirstIndex(init, keys[i]) < |init|;
      }
    }
  }

  /**
   * One accepted submission tagged "dp" and "graphs" and one rejected submission
   * tagged "dp" give {dp: 1, graphs: 1}, in that key order.
   */
  lemma AcceptedOnlyExample()
    ensures Histogram([Submission("OK", Problem(["dp", "graphs"])),
                       Submission("WRONG_ANSWER", Problem(["dp"]))])
            == TopicStats(["dp", "graphs"], map["dp" := 1, "graphs" := 1])
  {
    var ok := Submission("OK", Problem(["dp", "graphs"]));
    var wrong := Submission("WRONG_ANSWER", Problem(["dp"]));
    assert [ok, wrong] == [ok] + [wrong];
    AcceptedTagsSnoc([ok], wrong);
    AcceptedTagsSnoc([], ok);
    assert [] + [ok] == [ok];
    assert AcceptedTags([ok, wrong]) == ["dp", "graphs"];
    TallyOfExample();
  }

  lemma TallyOfExample()
    ensures Tally(["dp", "graphs"]) == TopicStats(["dp", "graphs"], map["dp" := 1, "graphs" := 1])
  {
    var one: seq<string> := ["dp"];
    var two: seq<string> := ["dp", "graphs"];
    assert two[..1] == one;
    assert one[..0] == [];
    assert Tally(one) == Increment(Empty, "dp");
    assert Increment(Empty, "dp") == TopicStats(["dp"], map["dp" := 1]);
    assert "graphs" != "dp";
    assert Tally(two) == Increment(Tally(one), "graphs");
  }
}
