/** The read side of the quiz repository: queries over the quiz catalog,
    and the seed catalog the repository starts with. Each query is a
    function of the catalog snapshot it reads; the catalog is never changed
    after it is loaded. */
module Catalog {
  import opened Collections
  import opened Text
  import opened QuizModel

  /** The quiz's category equals `category`, ignoring case. */
  predicate InCategory(q: Quiz, category: string)
  {
    EqualsIgnoreCase(q.category, category)
  }

  /** `query` occurs in the quiz's title or in its description, ignoring case. */
  predicate MatchesQuery(q: Quiz, query: string)
  {
    ContainsIgnoreCase(q.title, query) || ContainsIgnoreCase(q.description, query)
  }

  /** Lookup by id: the first quiz whose id equals `id` exactly, compared
      with case; `None` (never a failure) when no quiz has that id. */
  function GetQuizById(catalog: seq<Quiz>, id: string): (r: Option<Quiz>)
    ensures r.None? <==> forall i :: 0 <= i < |catalog| ==> catalog[i].id != id
    ensures r.Some? ==>
              r.value.id == id &&
              exists i :: 0 <= i < |catalog| && catalog[i] == r.value &&
                          forall j :: 0 <= j < i ==> catalog[j].id != id
  {
    Find(catalog, (q: Quiz) => q.id == id)
  }

  /** The popular quizzes, in catalog order. */
  function GetPopularQuizzes(catalog: seq<Quiz>): (r: seq<Quiz>)
    ensures forall q :: q in r <==> q in catalog && q.isPopular
    ensures forall q :: multiset(r)[q] == if q.isPopular then multiset(catalog)[q] else 0
    ensures IsSubsequence(r, catalog)
  {
    FilterCounts(catalog, (q: Quiz) => q.isPopular);
    Filter(catalog, (q: Quiz) => q.isPopular)
  }

  /** The quizzes of one category, compared ignoring case, in catalog
      order; empty, not an error, when none matches. */
  function GetQuizzesByCategory(catalog: seq<Quiz>, category: string): (r: seq<Quiz>)
    ensures forall q :: q in r <==> q in catalog && InCategory(q, category)
    ensures forall q :: multiset(r)[q] == if InCategory(q, category) then multiset(catalog)[q] else 0
    ensures IsSubsequence(r, catalog)
  {
    FilterCounts(catalog, (q: Quiz) => InCategory(q, category));
    Filter(catalog, (q: Quiz) => InCategory(q, category))
  }

  /** Free-text search: the quizzes whose title or description contains
      `query`, ignoring case, in catalog order. */
  function SearchQuizzes(catalog: seq<Quiz>, query: string): (r: seq<Quiz>)
    ensures forall q :: q in r <==> q in catalog && MatchesQuery(q, query)
    ensures forall q :: multiset(r)[q] == if MatchesQuery(q, query) then multiset(catalog)[q] else 0
    ensures IsSubsequence(r, catalog)
  {
    FilterCounts(catalog, (q: Quiz) => MatchesQuery(q, query));
    Filter(catalog, (q: Quiz) => MatchesQuery(q, query))
  }

  predicate UniqueIds(catalog: seq<Quiz>)
  {
    forall i, j :: 0 <= i < j < |catalog| ==> catalog[i].id != catalog[j].id
  }

  /** In a catalog without repeated ids, looking a quiz up by its own id
      finds that quiz. */
  lemma GetQuizByIdFindsEachQuiz(catalog: seq<Quiz>, i: int)
    requires UniqueIds(catalog) && 0 <= i < |catalog|
    ensures GetQuizById(catalog, catalog[i].id) == Some(catalog[i])
  {
    var r := GetQuizById(catalog, catalog[i].id);
    var k :| 0 <= k < |catalog| && catalog[k] == r.value &&
             forall j :: 0 <= j < k ==> catalog[j].id != catalog[i].id;
    assert k == i;
  }

  /** Category names that differ only in case select the same quizzes. */
  lemma CategoryIgnoresCase(catalog: seq<Quiz>, c1: string, c2: string)
    requires Lowercase(c1) == Lowercase(c2)
    ensures GetQuizzesByCategory(catalog, c1) == GetQuizzesByCategory(catalog, c2)
  {
    forall i | 0 <= i < |catalog|
      ensures InCategory(catalog[i], c1) == InCategory(catalog[i], c2)
    {
      EqualsIgnoreCaseIffSameLowercase(catalog[i].category, c1);
      EqualsIgnoreCaseIffSameLowercase(catalog[i].category, c2);
    }
    FilterCongruent(catalog, (q: Quiz) => InCategory(q, c1), (q: Quiz) => InCategory(q, c2));
  }

  /** Queries that differ only in case find the same quizzes. */
  lemma SearchIgnoresCase(catalog: seq<Quiz>, q1: string, q2: string)
    requires Lowercase(q1) == Lowercase(q2)
    ensures SearchQuizzes(catalog, q1) == SearchQuizzes(catalog, q2)
  {
    forall i | 0 <= i < |catalog|
      ensures MatchesQuery(catalog[i], q1) == MatchesQuery(catalog[i], q2)
    {
      ContainsIgnoresQueryCase(catalog[i].title, q1, q2);
      ContainsIgnoresQueryCase(catalog[i].description, q1, q2);
    }
    FilterCongruent(catalog, (q: Quiz) => MatchesQuery(q, q1), (q: Quiz) => MatchesQuery(q, q2));
  }

  /** The empty query occurs in every title, so it returns the whole
      catalog in order. */
  lemma SearchEmptyQueryReturnsCatalog(catalog: seq<Quiz>)
    ensures SearchQuizzes(catalog, "") == catalog
  {
    forall i | 0 <= i < |catalog| ensures MatchesQuery(catalog[i], "") {
      ContainsEmptyQuery(catalog[i].title);
    }
    FilterKeepsAll(catalog, (q: Quiz) => MatchesQuery(q, ""));
  }

  /** The three quizzes the repository is seeded with, all stamped with
      the same creation time. */
  function SampleQuizzes(createdAt: int): seq<Quiz>
  {
    [ScienceQuiz(createdAt), HistoryQuiz(createdAt), MathQuiz(createdAt)]
  }

  function ScienceQuiz(createdAt: int): Quiz
  {
    Quiz(
      "basic-science", "Basic Science Quiz", "Test your fundamental science knowledge",
      "Science", 10, "5 minutes", ScienceQuestions(), true, createdAt)
  }

  function HistoryQuiz(createdAt: int): Quiz
  {
    Quiz(
      "world-history", "World History Quiz", "Explore major historical events and figures",
      "History", 15, "8 minutes", HistoryQuestions(), true, createdAt)
  }

  function MathQuiz(createdAt: int): Quiz
  {
    Quiz(
      "basic-math", "Basic Mathematics", "Test your mathematical skills",
      "Math", 12, "6 minutes", MathQuestions(), false, createdAt)
  }

  /** The question texts and explanations of the seed quizzes. Each is a
      named constant so that proofs about the catalog do not unfold them. */
  const WaterQuestion: string := "What is the chemical symbol for water?"
  const PlanetQuestion: string := "Which planet is closest to the Sun?"
  const WarEndQuestion: string := "In which year did World War II end?"
  const PresidentQuestion: string := "Who was the first President of the United States?"
  const SumQuestion: string := "What is 15 + 27?"
  const WaterExplanation: string := "Water is composed of two hydrogen atoms and one oxygen atom, hence H2O."
  const MercuryExplanation: string := "Mercury is the innermost planet in our solar system."
  const WarEndExplanation: string := "World War II ended in 1945 with the surrender of Japan."
  const PresidentExplanation: string := "George Washington was the first President of the United States, serving from 1789 to 1797."
  const SumExplanation: string := "15 + 27 = 42"

  function ScienceQuestions(): seq<Question>
  {
    [
      Question(
        "q1", WaterQuestion,
        ["H2O", "CO2", "NaCl", "O2"], 0,
        Some(WaterExplanation)),
      Question(
        "q2", PlanetQuestion,
        ["Venus", "Mercury", "Earth", "Mars"], 1,
        Some(MercuryExplanation))
    ]
  }

  function HistoryQuestions(): seq<Question>
  {
    [
      Question(
        "h1", WarEndQuestion,
        ["1944", "1945", "1946", "1947"], 1,
        Some(WarEndExplanation)),
      Question(
        "h2", PresidentQuestion,
        ["Thomas Jefferson", "John Adams", "George Washington", "Benjamin Franklin"], 2,
        Some(PresidentExplanation))
    ]
  }

  function MathQuestions(): seq<Question>
  {
    [
      Question(
        "m1", SumQuestion,
        ["42", "41", "43", "40"], 0,
        Some(SumExplanation))
    ]
  }

  /** Every seed question's answer index names one of its options. */
  lemma SampleAnswersValid(createdAt: int)
    ensures forall q, k :: q in SampleQuizzes(createdAt) && 0 <= k < |q.questions| ==>
              HasValidAnswer(q.questions[k])
  {
  }

  /** The seed ids are distinct, so every seed quiz can be looked up by id. */
  lemma SampleIdsUnique(createdAt: int)
    ensures UniqueIds(SampleQuizzes(createdAt))
  {
  }

  /** The stated question count is not the number of questions: the first
      seed quiz declares 10 and holds 2. */
  lemma SampleQuestionCountIsAdvisory(createdAt: int)
    ensures SampleQuizzes(createdAt)[0].questionCount == 10
    ensures |SampleQuizzes(createdAt)[0].questions| == 2
  {
  }

  /** Lookup by id is exact: "basic-science" is found, "Basic-Science" is not. */
  lemma SampleLookupIsCaseSensitive(createdAt: int)
    ensures GetQuizById(SampleQuizzes(createdAt), "basic-science") == Some(SampleQuizzes(createdAt)[0])
    ensures GetQuizById(SampleQuizzes(createdAt), "Basic-Science") == None
  {
    var catalog := SampleQuizzes(createdAt);
    SampleIdsUnique(createdAt);
    GetQuizByIdFindsEachQuiz(catalog, 0);
  }

  /** On the seed catalog the popular quizzes are "basic-science" then
      "world-history"; "basic-math" is left out. */
  lemma SamplePopular(createdAt: int)
    ensures GetPopularQuizzes(SampleQuizzes(createdAt)) ==
            [SampleQuizzes(createdAt)[0], SampleQuizzes(createdAt)[1]]
  {
    KeepFirstTwo(SampleQuizzes(createdAt), (q: Quiz) => q.isPopular);
  }

  lemma ScienceCategoryMatches(createdAt: int)
    ensures InCategory(SampleQuizzes(createdAt)[0], "science")
    ensures !InCategory(SampleQuizzes(createdAt)[1], "science")
    ensures !InCategory(SampleQuizzes(createdAt)[2], "science")
  {
    var catalog := SampleQuizzes(createdAt);
    assert catalog[0].category == "Science";
    assert CharEqualsIgnoreCase(catalog[1].category[0], 'H');
    assert !CharEqualsIgnoreCase('H', 's');
    assert !CharEqualsIgnoreCase(catalog[2].category[0], 's');
  }

  lemma ScienceSpellingsAgree()
    ensures Lowercase("science") == Lowercase("SCIENCE")
  {
    var lower, upper := Lowercase("science"), Lowercase("SCIENCE");
    forall i | 0 <= i < 7 ensures lower[i] == upper[i] {
      assert lower[i] == "science"[i];
    }
  }

  /** "science" and "SCIENCE" both select the science quiz alone. */
  lemma SampleScienceCategory(createdAt: int)
    ensures GetQuizzesByCategory(SampleQuizzes(createdAt), "science") ==
            GetQuizzesByCategory(SampleQuizzes(createdAt), "SCIENCE")
    ensures GetQuizzesByCategory(SampleQuizzes(createdAt), "science") == [SampleQuizzes(createdAt)[0]]
  {
    var catalog := SampleQuizzes(createdAt);
    ScienceSpellingsAgree();
    CategoryIgnoresCase(catalog, "science", "SCIENCE");
    ScienceCategoryMatches(createdAt);
    var inScience := (q: Quiz) => InCategory(q, "science");
    assert catalog == [catalog[0]] + ([catalog[1]] + ([catalog[2]] + []));
    FilterCons(catalog[2], [], inScience);
    FilterCons(catalog[1], [catalog[2]], inScience);
    FilterCons(catalog[0], [catalog[1], catalog[2]], inScience);
  }

  lemma QuizInTitle(title: string)
    requires |title| == 18 && title[14..18] == "Quiz"
    ensures ContainsIgnoreCase(title, "quiz")
  {
    assert MatchesAt(title, "quiz", 14);
  }

  lemma QuizNotInMathQuiz()
    ensures !ContainsIgnoreCase("Basic Mathematics", "quiz")
    ensures !ContainsIgnoreCase("Test your mathematical skills", "quiz")
  {
    assert LowercaseChar('q') == 'q' && UppercaseChar('q') == 'Q';
    NotContainedWithoutFirstChar("Basic Mathematics", "quiz");
    NotContainedWithoutFirstChar("Test your mathematical skills", "quiz");
  }

  lemma QuizQueryMatches(createdAt: int)
    ensures MatchesQuery(SampleQuizzes(createdAt)[0], "quiz")
    ensures MatchesQuery(SampleQuizzes(createdAt)[1], "quiz")
    ensures !MatchesQuery(SampleQuizzes(createdAt)[2], "quiz")
  {
    QuizInTitle("Basic Science Quiz");
    QuizInTitle("World History Quiz");
    QuizNotInMathQuiz();
  }

  /** Searching the seed catalog for "quiz" finds the two quizzes whose
      titles end in "Quiz", in catalog order. */
  lemma SampleSearchQuiz(createdAt: int)
    ensures SearchQuizzes(SampleQuizzes(createdAt), "quiz") ==
            [SampleQuizzes(createdAt)[0], SampleQuizzes(createdAt)[1]]
  {
    QuizQueryMatches(createdAt);
    KeepFirstTwo(SampleQuizzes(createdAt), (q: Quiz) => MatchesQuery(q, "quiz"));
  }

  /** Filtering three quizzes of which only the first two pass. */
  lemma KeepFirstTwo(catalog: seq<Quiz>, keep: Quiz -> bool)
    requires |catalog| == 3 && keep(catalog[0]) && keep(catalog[1]) && !keep(catalog[2])
    ensures Filter(catalog, keep) == [catalog[0], catalog[1]]
  {
    assert catalog == [catalog[0]] + ([catalog[1]] + ([catalog[2]] + []));
    FilterCons(catalog[2], [], keep);
    FilterCons(catalog[1], [catalog[2]], keep);
    FilterCons(catalog[0], [catalog[1], catalog[2]], keep);
  }
}
