/** The write side of the quiz repository: the profile statistics a result
    history adds up to, the step by which one submission updates the
    profile, and the "recent results" view of the history. */
module Ledger {
  import opened Collections
  import opened QuizModel

  /** The best percentage in a history, and 0 for an empty one (or when every
      percentage is negative): the maximum of 0 and all the percentages. */
  function BestPercentage(history: seq<QuizResult>): (best: int)
    ensures best >= 0
    ensures forall i :: 0 <= i < |history| ==> Percentage(history[i]) <= best
    ensures best == 0 || exists i :: 0 <= i < |history| && Percentage(history[i]) == best
  {
    if history == [] then 0
    else
      var rest := BestPercentage(history[1..]);
      assert forall i :: 1 <= i < |history| ==> history[i] == history[1..][i - 1];
      if Percentage(history[0]) > rest then Percentage(history[0]) else rest
  }

  /** The sum of the raw scores of a history. */
  function TotalScore(history: seq<QuizResult>): int
  {
    if history == [] then 0 else history[0].score + TotalScore(history[1..])
  }

  /** The profile `submitQuizResult` derives from the current one: one more
      quiz completed, the best percentage raised to the new result's if
      that is higher, its raw score added to the total; the identity and
      creation time are copied unchanged. */
  function RecordResult(p: UserProfile, r: QuizResult): UserProfile
  {
    p.(completedQuizzes := p.completedQuizzes + 1,
       bestScore := if p.bestScore >= Percentage(r) then p.bestScore else Percentage(r),
       totalScore := p.totalScore + r.score)
  }

  /** The profile re-derived from scratch: the default profile with the
      statistics of the whole history. */
  function Summary(history: seq<QuizResult>, createdAt: int): UserProfile
  {
    DefaultProfile(createdAt).(
      completedQuizzes := |history|,
      bestScore := BestPercentage(history),
      totalScore := TotalScore(history))
  }

  /** The profile reached by submitting the results of `history` one after
      another, starting from `p`. */
  function Replay(p: UserProfile, history: seq<QuizResult>): UserProfile
    decreases |history|
  {
    if history == [] then p else Replay(RecordResult(p, history[0]), history[1..])
  }

  /** The default profile is the summary of an empty history: nothing
      completed, best score 0, total 0. */
  lemma SummaryOfNoResults(createdAt: int)
    ensures Summary([], createdAt) == DefaultProfile(createdAt)
    ensures DefaultProfile(createdAt).completedQuizzes == 0
    ensures DefaultProfile(createdAt).bestScore == 0
    ensures DefaultProfile(createdAt).totalScore == 0
  {
  }

  lemma {:induction false} BestPercentageAppend(history: seq<QuizResult>, r: QuizResult)
    ensures BestPercentage(history + [r]) ==
            if BestPercentage(history) >= Percentage(r) then BestPercentage(history) else Percentage(r)
  {
    if history != [] {
      assert (history + [r])[1..] == history[1..] + [r];
      BestPercentageAppend(history[1..], r);
    }
  }

  lemma {:induction false} TotalScoreAppend(history: seq<QuizResult>, r: QuizResult)
    ensures TotalScore(history + [r]) == TotalScore(history) + r.score
  {
    if history != [] {
      assert (history + [r])[1..] == history[1..] + [r];
      TotalScoreAppend(history[1..], r);
    }
  }

  /** Recording one more result in the summary of a history gives the
      summary of the extended history: the update `submitQuizResult`
      performs keeps the profile equal to the reduction of the history. */
  lemma RecordResultExtendsSummary(history: seq<QuizResult>, r: QuizResult, createdAt: int)
    ensures RecordResult(Summary(history, createdAt), r) == Summary(history + [r], createdAt)
  {
    BestPercentageAppend(history, r);
    TotalScoreAppend(history, r);
  }

  /** Replaying a history from any profile whose best score is not negative
      adds its count and its total, and raises the best score to the
      history's best. */
  lemma {:induction false} ReplayAddsUp(p: UserProfile, history: seq<QuizResult>)
    requires p.bestScore >= 0
    ensures Replay(p, history) ==
            p.(completedQuizzes := p.completedQuizzes + |history|,
               bestScore := if p.bestScore >= BestPercentage(history) then p.bestScore else BestPercentage(history),
               totalScore := p.totalScore + TotalScore(history))
    decreases |history|
  {
    if history != [] {
      ReplayAddsUp(RecordResult(p, history[0]), history[1..]);
    }
  }

  /** Re-deriving the profile from the full history gives the same profile
      as applying the submissions one by one to the default profile. */
  lemma ReplayMatchesSummary(history: seq<QuizResult>, createdAt: int)
    ensures Replay(DefaultProfile(createdAt), history) == Summary(history, createdAt)
  {
    ReplayAddsUp(DefaultProfile(createdAt), history);
  }

  /** Newest first: completion times never increase along the sequence. */
  predicate NewestFirst(s: seq<QuizResult>)
  {
    forall i, j :: 0 <= i < j < |s| ==> s[i].completedAt >= s[j].completedAt
  }

  /** The test "completed at time t", used to pick out the results that
      tie on their timestamp. */
  function CompletedAt(t: int): QuizResult -> bool
  {
    (r: QuizResult) => r.completedAt == t
  }

  /** A result no older than the head of a newest-first sequence can be
      put in front of it. */
  lemma NewestFirstCons(x: QuizResult, s: seq<QuizResult>)
    requires NewestFirst(s)
    requires s == [] || x.completedAt >= s[0].completedAt
    ensures NewestFirst([x] + s)
  {
    assert forall j :: 0 < j < |s| + 1 ==> ([x] + s)[j] == s[j - 1];
  }

  /** One step of a stable sort on descending completion time: `x` goes
      in front of the first result that is not newer than it. */
  function InsertNewestFirst(x: QuizResult, s: seq<QuizResult>): (r: seq<QuizResult>)
    requires NewestFirst(s)
    ensures NewestFirst(r)
    ensures multiset(r) == multiset(s) + multiset{x}
    ensures |r| == |s| + 1
    ensures r[0] == if s == [] || x.completedAt >= s[0].completedAt then x else s[0]
  {
    if s == [] || x.completedAt >= s[0].completedAt then
      NewestFirstCons(x, s);
      [x] + s
    else
      var rest := InsertNewestFirst(x, s[1..]);
      assert s == [s[0]] + s[1..];
      NewestFirstCons(s[0], rest);
      [s[0]] + rest
  }

  /** `sortedByDescending { it.completedAt }`: the history reordered newest
      first. The sort is stable (see `SortIsStable`). */
  function SortNewestFirst(history: seq<QuizResult>): (r: seq<QuizResult>)
    ensures NewestFirst(r)
    ensures multiset(r) == multiset(history)
    ensures |r| == |history|
  {
    if history == [] then []
    else
      assert history == [history[0]] + history[1..];
      InsertNewestFirst(history[0], SortNewestFirst(history[1..]))
  }

  /** Insertion keeps `x` ahead of the results that tie with it and does
      not reorder anything else. */
  lemma {:induction false} InsertIsStable(x: QuizResult, s: seq<QuizResult>, t: int)
    requires NewestFirst(s)
    ensures Filter(InsertNewestFirst(x, s), CompletedAt(t)) == Filter([x] + s, CompletedAt(t))
  {
    if s != [] && x.completedAt < s[0].completedAt {
      var rest := InsertNewestFirst(x, s[1..]);
      InsertIsStable(x, s[1..], t);
      assert s == [s[0]] + s[1..];
      FilterCons(s[0], rest, CompletedAt(t));
      FilterCons(x, s[1..], CompletedAt(t));
      FilterCons(s[0], s[1..], CompletedAt(t));
      FilterCons(x, s, CompletedAt(t));
    }
  }

  /** The sort is stable: results completed at the same time keep the order
      in which they were submitted, earliest submission first. */
  lemma {:induction false} SortIsStable(history: seq<QuizResult>, t: int)
    ensures Filter(SortNewestFirst(history), CompletedAt(t)) == Filter(history, CompletedAt(t))
  {
    if history != [] {
      SortIsStable(history[1..], t);
      InsertIsStable(history[0], SortNewestFirst(history[1..]), t);
      assert history == [history[0]] + history[1..];
      FilterCons(history[0], SortNewestFirst(history[1..]), CompletedAt(t));
      FilterCons(history[0], history[1..], CompletedAt(t));
    }
  }

  /** Cutting a newest-first sequence leaves no result behind the cut
      newer than one before it. */
  lemma NewestFirstSplit(s: seq<QuizResult>, n: nat)
    requires NewestFirst(s) && n <= |s|
    ensures NewestFirst(s[..n])
    ensures multiset(s) == multiset(s[..n]) + multiset(s[n..])
    ensures forall x, y :: x in s[..n] && y in s[n..] ==> x.completedAt >= y.completedAt
  {
    assert s == s[..n] + s[n..];
  }

  /** `getRecentQuizResults(limit)`: the first `limit` results of the
      history sorted newest first. Kotlin's `take` rejects a negative
      count, so callers must pass `limit >= 0`. */
  function RecentResults(history: seq<QuizResult>, limit: int): (r: seq<QuizResult>)
    requires limit >= 0
    ensures |r| == if limit < |history| then limit else |history|
    ensures NewestFirst(r)
    ensures multiset(r) <= multiset(history)
    ensures forall x, y :: x in r && y in multiset(history) - multiset(r) ==> x.completedAt >= y.completedAt
  {
    var sorted := SortNewestFirst(history);
    var n := if limit < |history| then limit else |history|;
    NewestFirstSplit(sorted, n);
    assert forall y :: y in multiset(history) - multiset(sorted[..n]) ==> y in multiset(sorted[n..]);
    sorted[..n]
  }

  /** Among results completed at the same time, the recent view shows the
      earliest submissions, in submission order. */
  lemma RecentResultsKeepTieOrder(history: seq<QuizResult>, limit: int, t: int)
    requires limit >= 0
    ensures Filter(RecentResults(history, limit), CompletedAt(t)) <= Filter(history, CompletedAt(t))
  {
    var sorted := SortNewestFirst(history);
    var n := if limit < |history| then limit else |history|;
    FilterOfPrefix(sorted, n, CompletedAt(t));
    SortIsStable(history, t);
  }

  /** Completion times strictly increase in submission order. */
  predicate Chronological(history: seq<QuizResult>)
  {
    forall i, j :: 0 <= i < j < |history| ==> history[i].completedAt < history[j].completedAt
  }

  function Reversed(s: seq<QuizResult>): (r: seq<QuizResult>)
    ensures |r| == |s|
    ensures forall i :: 0 <= i < |s| ==> r[i] == s[|s| - 1 - i]
  {
    if s == [] then []
    else
      assert forall j :: 0 <= j < |s| - 1 ==> s[1..][j] == s[j + 1];
      Reversed(s[1..]) + [s[0]]
  }

  /** A result older than every result of `s` is inserted at the end. */
  lemma {:induction false} InsertOlderThanAll(x: QuizResult, s: seq<QuizResult>)
    requires NewestFirst(s)
    requires forall i :: 0 <= i < |s| ==> x.completedAt < s[i].completedAt
    ensures InsertNewestFirst(x, s) == s + [x]
  {
    if s != [] {
      InsertOlderThanAll(x, s[1..]);
      assert s == [s[0]] + s[1..];
    }
  }

  /** A history submitted in completion order comes back reversed. */
  lemma {:induction false} SortOfChronological(history: seq<QuizResult>)
    requires Chronological(history)
    ensures SortNewestFirst(history) == Reversed(history)
  {
    if history != [] {
      var rest := SortNewestFirst(history[1..]);
      SortOfChronological(history[1..]);
      forall i | 0 <= i < |rest| ensures history[0].completedAt < rest[i].completedAt {
        assert rest[i] in multiset(history[1..]);
      }
      InsertOlderThanAll(history[0], rest);
    }
  }

  /** When results were submitted in completion order, the recent view is
      the last `limit` submissions, latest first. */
  lemma RecentOfChronological(history: seq<QuizResult>, limit: int)
    requires limit >= 0 && Chronological(history)
    ensures RecentResults(history, limit) ==
            Reversed(history)[..if limit < |history| then limit else |history|]
  {
    SortOfChronological(history);
  }

  /** Three submissions in completion order: the two most recent are the
      third, then the second. */
  lemma RecentOfThree(history: seq<QuizResult>)
    requires |history| == 3 && Chronological(history)
    ensures RecentResults(history, 2) == [history[2], history[1]]
  {
    var reversed := Reversed(history);
    assert reversed[..2] == [history[2], history[1]] by {
      assert reversed[0] == history[2] && reversed[1] == history[1];
    }
    RecentOfChronological(history, 2);
  }
}
