# Quiz repository data layer, modelled in Dafny

The LTQuiz Android app keeps all of its data in one in-memory
`QuizRepository`. The repository holds three things:

- a catalog of quizzes, seeded from a fixed sample list and never changed;
- an append-only history of `QuizResult`s;
- a cached `UserProfile` whose statistics (completed count, best percentage,
  total raw score) are updated on every submission.

This project models that layer and the data classes it works on:

- `quiz_model.dfy` (module `QuizModel`): the data classes `Quiz`, `Question`,
  `QuizResult` and `UserProfile` as datatypes. It also holds the profile's
  defaults and the `percentage` getter, with Kotlin's round-toward-zero
  division written out.
- `collections.dfy` (module `Collections`): Kotlin's nullable result,
  `List.find` and `List.filter`. Each has the property the queries rely on:
  the first match, and a subsequence keeping exactly the matching occurrences.
- `text.dfy` (module `Text`): `String.equals` and `String.contains` with
  `ignoreCase = true`, compared character by character as Kotlin does.
- `catalog.dfy` (module `Catalog`): the four catalog queries, as functions of
  the catalog they read, and the seed catalog with facts about it.
- `ledger.dfy` (module `Ledger`): the profile reduction over a history, the
  one-submission update step, the stable newest-first sort, and the
  recent-results view.
- `repository.dfy` (module `Repository`): the class `QuizRepository`. Its
  `SubmitQuizResult` appends to the history field and replaces the profile
  field. The class invariant says the cached profile equals the reduction of
  the history.

Timestamps (`System.currentTimeMillis()` in the source) are integer
parameters. Kotlin's `Int` and `Long` are unbounded integers here.

Three behaviours of the code that the model keeps as written:

- Ties in `getRecentQuizResults`. `sortedByDescending` is stable, so
  results with the same `completedAt` keep submission order, earliest
  first. `Ledger.SortIsStable` and `Ledger.RecentResultsKeepTieOrder` state
  this.
- The answer index. The `Question` constructor does not check
  `correctAnswerIndex`. The model keeps validity as the predicate
  `QuizModel.HasValidAnswer`, proved only for the seed data.
- The question count. `Quiz.questionCount` is kept independent of the
  question list. The first seed quiz declares 10 questions and holds 2.

## Model

| member | source | states |
|---|---|---|
| `Collections.Find` | app/src/main/java/com/ltquiz/test/data/repository/QuizRepository.kt:46 | `find` returns null iff no element passes; otherwise it returns an element that passes, and every element before it fails |
| `Collections.Filter` | app/src/main/java/com/ltquiz/test/data/repository/QuizRepository.kt:50 | `filter` returns exactly the elements that pass (membership both ways), as a subsequence of the input in its original order |
| `Collections.FilterCounts` | app/src/main/java/com/ltquiz/test/data/repository/QuizRepository.kt:50 | `filter` keeps every occurrence of a passing element and no occurrence of a failing one (multiset counts) |
| `Text.EqualsIgnoreCaseIffSameLowercase` | app/src/main/java/com/ltquiz/test/data/repository/QuizRepository.kt:54 | `equals(ignoreCase = true)`, compared character by character, holds iff the two strings are equal once lower-cased, in both directions |
| `Text.EqualsIgnoreCase` | app/src/main/java/com/ltquiz/test/data/repository/QuizRepository.kt:54 | `String.equals(other, ignoreCase = true)`: same length and every pair of characters equal ignoring case |
| `Text.ContainsFrom` | app/src/main/java/com/ltquiz/test/data/repository/QuizRepository.kt:59-60 | searching from an offset succeeds iff the query matches, ignoring case, at some offset at or after it |
| `Text.ContainsIgnoreCase` | app/src/main/java/com/ltquiz/test/data/repository/QuizRepository.kt:59-60 | `contains(query, ignoreCase = true)` holds iff the query matches the text, ignoring case, at some offset where it fits |
| `Text.ContainsEmptyQuery` | app/src/main/java/com/ltquiz/test/data/repository/QuizRepository.kt:59-60 | the empty query is contained in every string |
| `Text.ContainsIgnoresQueryCase` | app/src/main/java/com/ltquiz/test/data/repository/QuizRepository.kt:59-60 | two queries equal up to case are contained in exactly the same texts |
| `QuizModel.DefaultProfile` | app/src/main/java/com/ltquiz/test/data/model/Quiz.kt:62-70 | the `UserProfile()` defaults: id "test_user", name "Test User", email "test@ltquiz.com", zero statistics, and the given creation time |
| `QuizModel.TruncatingDiv` | app/src/main/java/com/ltquiz/test/data/model/Quiz.kt:56 | Kotlin's `Int` division by a positive divisor rounds toward zero: the quotient has the dividend's sign and the remainder is smaller than the divisor |
| `QuizModel.Percentage` | app/src/main/java/com/ltquiz/test/data/model/Quiz.kt:55-56 | `percentage` is 0 when `totalQuestions <= 0`; otherwise it is `score * 100 / totalQuestions` rounded toward zero, stated by its remainder bounds for both signs of `score` |
| `QuizModel.PercentageWithoutQuestions` | app/src/main/java/com/ltquiz/test/data/model/Quiz.kt:56 | with no questions the percentage is 0 whatever the score, so nothing divides by zero |
| `QuizModel.PercentageInRange` | app/src/main/java/com/ltquiz/test/data/model/Quiz.kt:56 | `0 <= score <= totalQuestions` with `totalQuestions > 0` gives a percentage between 0 and 100 |
| `QuizModel.PercentageOfFullScore` | app/src/main/java/com/ltquiz/test/data/model/Quiz.kt:56 | all answers right (`score == totalQuestions > 0`) is exactly 100 |
| `QuizModel.PercentageOfZeroScore` | app/src/main/java/com/ltquiz/test/data/model/Quiz.kt:56 | a zero score is 0 percent |
| `QuizModel.PercentageMonotone` | app/src/main/java/com/ltquiz/test/data/model/Quiz.kt:56 | for a fixed positive question count, a higher score never gives a lower percentage, negative scores included |
| `Catalog.GetQuizById` | app/src/main/java/com/ltquiz/test/data/repository/QuizRepository.kt:45-47 | lookup returns null iff no quiz has exactly that id; otherwise it returns a catalog quiz with that id, with no quiz before it having the id |
| `Catalog.GetPopularQuizzes` | app/src/main/java/com/ltquiz/test/data/repository/QuizRepository.kt:49-51 | the result is exactly the popular quizzes: membership both ways, every occurrence kept, catalog order preserved |
| `Catalog.GetQuizzesByCategory` | app/src/main/java/com/ltquiz/test/data/repository/QuizRepository.kt:53-55 | the result is exactly the quizzes whose category equals the argument ignoring case, every occurrence kept, in catalog order; empty when none match |
| `Catalog.SearchQuizzes` | app/src/main/java/com/ltquiz/test/data/repository/QuizRepository.kt:57-62 | the result is exactly the quizzes whose title or description contains the query ignoring case, every occurrence kept, in catalog order |
| `Catalog.GetQuizByIdFindsEachQuiz` | app/src/main/java/com/ltquiz/test/data/repository/QuizRepository.kt:45-47 | in a catalog without repeated ids, looking up any quiz's own id returns that quiz |
| `Catalog.CategoryIgnoresCase` | app/src/main/java/com/ltquiz/test/data/repository/QuizRepository.kt:53-55 | two category names equal up to case give identical results |
| `Catalog.SearchIgnoresCase` | app/src/main/java/com/ltquiz/test/data/repository/QuizRepository.kt:57-62 | two queries equal up to case give identical results |
| `Catalog.SearchEmptyQueryReturnsCatalog` | app/src/main/java/com/ltquiz/test/data/repository/QuizRepository.kt:57-62 | the empty query returns the whole catalog, in order |
| `Catalog.SampleQuizzes` | app/src/main/java/com/ltquiz/test/data/repository/QuizRepository.kt:87-155 | the three seed quizzes with their questions, options, answer indices and explanations, stamped with one creation time |
| `Catalog.SampleAnswersValid` | app/src/main/java/com/ltquiz/test/data/repository/QuizRepository.kt:96-153 | every seed question's `correctAnswerIndex` indexes one of its options |
| `Catalog.SampleIdsUnique` | app/src/main/java/com/ltquiz/test/data/repository/QuizRepository.kt:87-155 | the seed quizzes have pairwise distinct ids |
| `Catalog.SampleQuestionCountIsAdvisory` | app/src/main/java/com/ltquiz/test/data/repository/QuizRepository.kt:93-111 | the first seed quiz declares `questionCount` 10 but holds 2 questions, so the two are independent |
| `Catalog.SampleLookupIsCaseSensitive` | app/src/main/java/com/ltquiz/test/data/repository/QuizRepository.kt:45-47 | on the seed data "basic-science" finds the science quiz and "Basic-Science" finds nothing |
| `Catalog.SamplePopular` | app/src/main/java/com/ltquiz/test/data/repository/QuizRepository.kt:49-51 | on the seed data the popular quizzes are "basic-science" then "world-history"; "basic-math" is excluded |
| `Catalog.SampleScienceCategory` | app/src/main/java/com/ltquiz/test/data/repository/QuizRepository.kt:53-55 | on the seed data "science" and "SCIENCE" give the same result, the science quiz alone |
| `Catalog.SampleSearchQuiz` | app/src/main/java/com/ltquiz/test/data/repository/QuizRepository.kt:57-62 | on the seed data "quiz" finds the two quizzes whose titles contain "Quiz", in catalog order, and not the mathematics quiz |
| `Ledger.BestPercentage` | app/src/main/java/com/ltquiz/test/data/repository/QuizRepository.kt:73 | the best score of a history is at least 0, at least every result's percentage, and equal to one of them unless it is 0 |
| `Ledger.RecordResult` | app/src/main/java/com/ltquiz/test/data/repository/QuizRepository.kt:70-76 | the `currentProfile.copy(...)` step: one more quiz completed, the best raised to the result's percentage if higher, the raw score added; identity and creation time copied |
| `Ledger.SummaryOfNoResults` | app/src/main/java/com/ltquiz/test/data/model/Quiz.kt:62-70 | the default profile has 0 completed, best 0 and total 0, and is the summary of the empty history |
| `Ledger.BestPercentageAppend` | app/src/main/java/com/ltquiz/test/data/repository/QuizRepository.kt:73 | one more result raises the history's best to the larger of the old best and its percentage |
| `Ledger.TotalScoreAppend` | app/src/main/java/com/ltquiz/test/data/repository/QuizRepository.kt:74 | one more result adds its raw score to the history's total |
| `Ledger.RecordResultExtendsSummary` | app/src/main/java/com/ltquiz/test/data/repository/QuizRepository.kt:70-76 | applying the submission's profile update to the summary of a history gives the summary of the history with the result appended |
| `Ledger.ReplayAddsUp` | app/src/main/java/com/ltquiz/test/data/repository/QuizRepository.kt:64-77 | submitting a history one result at a time, from a profile with a non-negative best, adds its count and total and raises the best to the history's best; identity fields stay |
| `Ledger.ReplayMatchesSummary` | app/src/main/java/com/ltquiz/test/data/repository/QuizRepository.kt:64-77 | from the default profile, submitting results one by one gives the profile re-derived from the whole history |
| `Ledger.InsertNewestFirst` | app/src/main/java/com/ltquiz/test/data/repository/QuizRepository.kt:81 | inserting into a newest-first sequence keeps it newest first and adds exactly the one result |
| `Ledger.SortNewestFirst` | app/src/main/java/com/ltquiz/test/data/repository/QuizRepository.kt:81 | `sortedByDescending { it.completedAt }` returns a permutation of the history whose completion times never increase |
| `Ledger.InsertIsStable` | app/src/main/java/com/ltquiz/test/data/repository/QuizRepository.kt:81 | insertion changes no order among results with equal completion time, and puts the inserted result before its ties |
| `Ledger.SortIsStable` | app/src/main/java/com/ltquiz/test/data/repository/QuizRepository.kt:81 | the sort is stable: for every timestamp, the results completed then appear in submission order |
| `Ledger.RecentResults` | app/src/main/java/com/ltquiz/test/data/repository/QuizRepository.kt:79-83 | for `limit >= 0`, the result has `min(limit, |history|)` results, newest first, drawn from the history, and no result left out is newer than one kept |
| `Ledger.RecentResultsKeepTieOrder` | app/src/main/java/com/ltquiz/test/data/repository/QuizRepository.kt:79-83 | among results with equal completion time, the view shows the earliest submissions, in submission order |
| `Ledger.SortOfChronological` | app/src/main/java/com/ltquiz/test/data/repository/QuizRepository.kt:81 | a history submitted in strictly increasing completion order sorts to its reverse |
| `Ledger.RecentOfChronological` | app/src/main/java/com/ltquiz/test/data/repository/QuizRepository.kt:79-83 | for such a history the view is the last `limit` submissions, latest first |
| `Ledger.RecentOfThree` | app/src/main/java/com/ltquiz/test/data/repository/QuizRepository.kt:79-83 | after three submissions in completion order, `getRecentQuizResults(2)` is the third then the second |
| `Repository.QuizRepository.constructor` | app/src/main/java/com/ltquiz/test/data/repository/QuizRepository.kt:36-43 | a new repository holds the seed catalog, an empty history and the default profile, and satisfies the invariant that the profile is the history's summary |
| `Repository.QuizRepository.SubmitQuizResult` | app/src/main/java/com/ltquiz/test/data/repository/QuizRepository.kt:64-77 | appends the result with no check or de-duplication; completed count +1, best = max(old, percentage), total += score; id, name, email and creation time unchanged; the profile stays the summary of the history |

## Left out

- Observation through `Flow`/`MutableStateFlow` and the `suspend` modifiers: the state flows are plain fields, and subscription and coroutine scheduling are not modelled.
- Concurrent submissions: the model is single-threaded, so atomicity of `submitQuizResult` against readers and lost updates are not modelled.
- 32-bit overflow of Kotlin `Int` in `score * 100`, `completedQuizzes + 1` and `totalScore + score`: integers are unbounded here.
- Case folding beyond ASCII: `UppercaseChar`/`LowercaseChar` map only `A`-`Z` and `a`-`z`, where Kotlin applies per-character Unicode case mapping (`Character.toUpperCase`, then `Character.toLowerCase`) to every character.
- `System.currentTimeMillis()` defaults: timestamps are parameters. The repository constructor stamps the seed quizzes and the default profile with one time `now`, though each `Quiz` and the `UserProfile` in the source read the clock separately.
- The UI screens, theme, navigation and dependency-injection wiring: they only display repository data.
- Deep-link quiz-id extraction in `QuizActivity`: it is a thin wrapper over Android's `Intent` and `Uri`, whose behaviour is not part of this model.
- Ledger.RecentResults: the default argument `limit = 5` is not modelled; callers pass the limit explicitly. A negative `limit` is excluded by its precondition, because Kotlin's `take` throws `IllegalArgumentException` for it rather than returning a value.
