/** The quiz repository object: the catalog it was seeded with, the
    history of submitted results and the cached user profile, which
    `SubmitQuizResult` updates in place. The catalog queries and the
    recent-results view are the functions of `Catalog` and `Ledger`
    applied to these fields. */
module Repository {
  import opened QuizModel
  import opened Catalog
  import opened Ledger

  class QuizRepository {
    const quizzes: seq<Quiz>
    var quizResults: seq<QuizResult>
    var userProfile: UserProfile

    /** The cached profile is the reduction of the history: as many
        completed quizzes as results, the best percentage (0 if none)
        and the sum of the raw scores, with the default identity. */
    ghost predicate Valid()
      reads this
    {
      userProfile == Summary(quizResults, userProfile.createdAt)
    }

    /** A fresh repository: the seed catalog, no results, the default
        profile. `now` stands for the clock reading the defaults take. */
    constructor (now: int)
      ensures Valid()
      ensures quizzes == SampleQuizzes(now)
      ensures quizResults == []
      ensures userProfile == DefaultProfile(now)
    {
      quizzes := SampleQuizzes(now);
      quizResults := [];
      userProfile := DefaultProfile(now);
    }

    /** Appends `result` to the history, with no check on its quiz id and no
        de-duplication, and folds it into the profile. */
    method SubmitQuizResult(result: QuizResult)
      requires Valid()
      modifies this
      ensures Valid()
      ensures quizResults == old(quizResults) + [result]
      ensures userProfile.completedQuizzes == old(userProfile.completedQuizzes) + 1
      ensures userProfile.bestScore ==
                if old(userProfile.bestScore) >= Percentage(result) then old(userProfile.bestScore)
                else Percentage(result)
      ensures userProfile.totalScore == old(userProfile.totalScore) + result.score
      ensures userProfile.id == old(userProfile.id) && userProfile.name == old(userProfile.name)
      ensures userProfile.email == old(userProfile.email)
      ensures userProfile.createdAt == old(userProfile.createdAt)
    {
      var currentResults := quizResults;
      currentResults := currentResults + [result];
      quizResults := currentResults;

      var currentProfile := userProfile;
      RecordResultExtendsSummary(old(quizResults), result, currentProfile.createdAt);
      userProfile := RecordResult(currentProfile, result);
    }
  }

  /** A client's view: three submissions, then the profile and the two most
      recent results. */
  method SubmitThreeResults()
  {
    var a := QuizResult("basic-science", 4, 5, 60, 2000);
    var b := QuizResult("world-history", 3, 5, 70, 3000);
    var c := QuizResult("basic-math", 9, 10, 80, 4000);
    assert Percentage(a) == 80 && Percentage(b) == 60 && Percentage(c) == 90;
    var repo := new QuizRepository(1000);
    repo.SubmitQuizResult(a);
    repo.SubmitQuizResult(b);
    repo.SubmitQuizResult(c);
    assert repo.userProfile.completedQuizzes == 3;
    assert repo.userProfile.bestScore == 90;
    assert repo.userProfile.totalScore == 16;
    assert repo.quizResults == [a, b, c];
    RecentOfThree(repo.quizResults);
    var recent := RecentResults(repo.quizResults, 2);
    assert recent == [c, b];
  }
}
